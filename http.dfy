/** The response envelope `{ success, message, data }` with its status code. */
module Http {
  import opened Json

  type Row = Object

  /** What a response carries in `data`. */
  datatype Payload =
    | NoData                                // `null`, or no data at all
    | One(row: Row)                         // a single record
    | Many(rows: seq<Row>)                  // a list of records
    | Session(token: string, user: Row)     // `{ token, user }` after registration or login

  datatype Outcome = Outcome(status: int, success: bool, message: Option<string>, data: Payload)

  /** `successResponse(res, data, message, statusCode)`; the source's default code is 200. */
  function SuccessResponse(data: Payload, message: Option<string>, statusCode: int): Outcome
  {
    Outcome(statusCode, true, message, data)
  }

  /** `errorResponse(res, message, statusCode)`; the source's default code is 400. */
  function ErrorResponse(message: string, statusCode: int): Outcome
  {
    Outcome(statusCode, false, Some(message), NoData)
  }

  /** A record that may be `null`. */
  function RowOrNull(r: Option<Row>): Payload
  {
    if r.Some? then One(r.value) else NoData
  }

  const Unauthorized: Outcome := ErrorResponse("Unauthorized", 401)
  const AccessDenied: Outcome := ErrorResponse("Access denied", 403)
}
