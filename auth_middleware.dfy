/** `authenticate` and `authorizeRoles`: the middleware in front of the protected routes. */
module AuthMiddleware {
  import opened Json
  import opened Http
  import opened Types

  /** What a middleware does with a request: pass it on to `next`, or answer it itself. */
  datatype Step = Next | Respond(outcome: Outcome)

  /** The part of an Express request the middleware reads and writes. */
  class Request {
    /** `req.headers.authorization`, absent when the header was not sent. */
    const authorization: Option<string>
    /** `req.user`, set by `authenticate`. */
    var user: Option<Claims>

    constructor (authorization: Option<string>)
      ensures this.authorization == authorization && user.None?
    {
      this.authorization := authorization;
      user := None;
    }
  }

  const BearerPrefix: string := "Bearer "

  /** `authHeader.startsWith('Bearer ')` followed by `authHeader.substring(7)`: the token
      after the prefix, or None when there is no header or it lacks the prefix. */
  function BearerToken(header: Option<string>): (t: Option<string>)
    ensures t.Some? <==> header.Some? && |BearerPrefix| <= |header.value| && header.value[..|BearerPrefix|] == BearerPrefix
    ensures t.Some? ==> header.value == BearerPrefix + t.value
  {
    if header.None? || |header.value| < 7 || header.value[..7] != BearerPrefix then None
    else
      assert header.value == header.value[..7] + header.value[7..];
      Some(header.value[7..])
  }

  /** The token a client sends as `Bearer <token>` is the token the middleware verifies. */
  lemma BearerRoundTrip(token: string)
    ensures BearerToken(Some(BearerPrefix + token)) == Some(token)
  {
    var h := BearerPrefix + token;
    assert h[..7] == BearerPrefix;
    assert h[7..] == token;
  }

  /** `authenticate`: 401 "No token provided" without a `Bearer ` header, 401 "Invalid or
      expired token" when verification fails; otherwise the decoded claims become `req.user`
      and the request goes on. `verify` is the token library's check. */
  method Authenticate(req: Request, verify: string -> Option<Claims>) returns (s: Step)
    modifies req
    ensures BearerToken(req.authorization).None? ==>
      s == Respond(ErrorResponse("No token provided", 401)) && req.user == old(req.user)
    ensures BearerToken(req.authorization).Some? && verify(BearerToken(req.authorization).value).None? ==>
      s == Respond(ErrorResponse("Invalid or expired token", 401)) && req.user == old(req.user)
    ensures s.Next? <==> BearerToken(req.authorization).Some? && verify(BearerToken(req.authorization).value).Some?
    ensures s.Next? ==> req.user == verify(BearerToken(req.authorization).value)
  {
    var token := BearerToken(req.authorization);
    if token.None? {
      return Respond(ErrorResponse("No token provided", 401));
    }
    var decoded := verify(token.value);
    if decoded.None? {
      return Respond(ErrorResponse("Invalid or expired token", 401));
    }
    req.user := decoded;
    s := Next;
  }

  /** `authorizeRoles(...roles)`: 401 without a user, 403 when the user's role is not one of
      `roles` (`roles.includes(role)`, strict equality), otherwise on to `next`. */
  function AuthorizeRoles(roles: seq<string>, user: Option<Claims>): (s: Step)
    ensures user.None? ==> s == Respond(Unauthorized)
    ensures s.Next? <==> user.Some? && user.value.role.Str? && user.value.role.s in roles
    ensures user.Some? && !s.Next? ==>
      s == Respond(ErrorResponse("You do not have permission to perform this action", 403))
  {
    if user.None? then Respond(Unauthorized)
    else if !(user.value.role.Str? && user.value.role.s in roles) then
      Respond(ErrorResponse("You do not have permission to perform this action", 403))
    else Next
  }

  /** After a successful `authenticate`, `authorizeRoles` lets the request through exactly
      when the token's role is listed: it never answers 401. */
  lemma AuthenticatedNeverUnauthorized(roles: seq<string>, claims: Claims)
    ensures AuthorizeRoles(roles, Some(claims)) != Respond(Unauthorized)
  {
  }
}
