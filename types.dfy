/** The enumerations and the token payload of the record types. */
module Types {
  import opened Json

  /** A user's role. */
  datatype Role = Customer | Artist

  function RoleName(r: Role): string
  {
    match r
    case Customer => "customer"
    case Artist => "artist"
  }

  /** The test `['customer', 'artist'].includes(role)` of registration, with the role it names. */
  function ParseRole(v: Value): (r: Option<Role>)
    ensures r.Some? <==> v.Str? && v.s in ["customer", "artist"]
    ensures r.Some? ==> v == Str(RoleName(r.value))
  {
    if v == Str("customer") then Some(Customer)
    else if v == Str("artist") then Some(Artist)
    else None
  }

  lemma ParseRoleName(r: Role)
    ensures ParseRole(Str(RoleName(r))) == Some(r)
  {
  }

  /** The status of an appointment. */
  datatype Status = Pending | Confirmed | InProgress | Completed | Cancelled

  function StatusName(st: Status): string
  {
    match st
    case Pending => "pending"
    case Confirmed => "confirmed"
    case InProgress => "in_progress"
    case Completed => "completed"
    case Cancelled => "cancelled"
  }

  /** The list `validStatuses` that a status update is checked against. */
  const ValidStatuses: seq<string> := ["pending", "confirmed", "in_progress", "completed", "cancelled"]

  /** `validStatuses.includes(status)`, with the status it names. */
  function ParseStatus(v: Value): (st: Option<Status>)
    ensures st.Some? <==> v.Str? && v.s in ValidStatuses
    ensures st.Some? ==> v == Str(StatusName(st.value))
  {
    if v == Str("pending") then Some(Pending)
    else if v == Str("confirmed") then Some(Confirmed)
    else if v == Str("in_progress") then Some(InProgress)
    else if v == Str("completed") then Some(Completed)
    else if v == Str("cancelled") then Some(Cancelled)
    else None
  }

  /** Every status has exactly one accepted spelling. */
  lemma StatusNamesRoundTrip(st: Status)
    ensures ParseStatus(Str(StatusName(st))) == Some(st)
    ensures StatusName(st) in ValidStatuses
  {
  }

  /** The decoded token payload `{ userId, email, role }`, attached to a request as `req.user`. */
  datatype Claims = Claims(userId: Value, email: Value, role: Value)
}
