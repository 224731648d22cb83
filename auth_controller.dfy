/** `authController`: registration, login and the caller's own account. */
module AuthController {
  import opened Json
  import opened Sql
  import opened Store
  import opened Http
  import opened Types
  import UserModel
  import ArtistModel

  /** `const { password_hash, ...userWithoutPassword } = user`: the row without its hash. */
  function WithoutPassword(user: Row): (r: Row)
    ensures "password_hash" !in r
    ensures forall c :: c != "password_hash" ==> Col(r, c) == Col(user, c)
  {
    user - {"password_hash"}
  }

  /** The token payload `{ userId: user.id, email: user.email, role: user.role }`. */
  function ClaimsOf(user: Row): Claims
  {
    Claims(Col(user, "id"), Col(user, "email"), Col(user, "role"))
  }

  /** The validations of `register`, in order: required fields, email format, password
      rule, role, email not yet taken. The first that fails gives the answer, always 400. */
  function RegisterCheck(users: seq<Row>, body: Object, isValidEmail: Value -> bool, isValidPassword: Value -> bool)
    : (r: Option<Outcome>)
    ensures r.None? <==>
      && Truthy(Get(body, "email")) && Truthy(Get(body, "password")) && Truthy(Get(body, "role"))
      && isValidEmail(Get(body, "email")) && isValidPassword(Get(body, "password"))
      && ParseRole(Get(body, "role")).Some? && UserModel.FindByEmail(users, Get(body, "email")).None?
    ensures !(Truthy(Get(body, "email")) && Truthy(Get(body, "password")) && Truthy(Get(body, "role"))) ==>
      r == Some(ErrorResponse("Email, password, and role are required", 400))
    ensures r.Some? ==> r.value.status == 400 && !r.value.success
    ensures r == Some(ErrorResponse("Email already registered", 400)) ==>
      exists u :: u in users && SqlEq(Col(u, "email"), Bind(Get(body, "email")))
  {
    var email, password, role := Get(body, "email"), Get(body, "password"), Get(body, "role");
    if !Truthy(email) || !Truthy(password) || !Truthy(role) then
      Some(ErrorResponse("Email, password, and role are required", 400))
    else if !isValidEmail(email) then Some(ErrorResponse("Invalid email format", 400))
    else if !isValidPassword(password) then Some(ErrorResponse("Password must be at least 6 characters long", 400))
    else if ParseRole(role).None? then Some(ErrorResponse("Role must be customer or artist", 400))
    else if UserModel.FindByEmail(users, email).Some? then Some(ErrorResponse("Email already registered", 400))
    else None
  }

  /** `register`: on any failed validation nothing is stored; otherwise the user is stored with
      the hash of the password, an artist profile linked to it is created exactly when the
      role is `artist`, and the answer carries a token for the stored user and the user
      without the hash. A failed artist insert answers 500 and leaves the user stored. */
  method Register(db: Database, body: Object, now: int, isValidEmail: Value -> bool, isValidPassword: Value -> bool,
                  hash: Value -> Value, sign: Claims -> string) returns (o: Outcome)
    requires db.Valid()
    modifies db.users, db.artists
    ensures db.Valid()
    ensures RegisterCheck(old(db.users.rows), body, isValidEmail, isValidPassword).Some? ==>
      && o == RegisterCheck(old(db.users.rows), body, isValidEmail, isValidPassword).value
      && db.users.rows == old(db.users.rows) && db.artists.rows == old(db.artists.rows)
    ensures RegisterCheck(old(db.users.rows), body, isValidEmail, isValidPassword).None? ==>
      var user := old(db.users.WithNewId(UserModel.Columns(Get(body, "email"), hash(Get(body, "password")), Get(body, "role"), now)));
      && db.users.rows == old(db.users.rows) + [user]
      && (Get(body, "role") == Str("customer") ==> db.artists.rows == old(db.artists.rows) && o.success)
      && (Get(body, "role") == Str("artist") ==>
            (o.success <==> ArtistModel.FindByUserId(old(db.artists.rows), Col(user, "id")).None?))
      && (Get(body, "role") == Str("artist") && o.success ==>
            db.artists.rows == old(db.artists.rows) + [old(db.artists.WithNewId(ArtistModel.Columns(Col(user, "id"), now)))])
      && (!o.success ==> o == ErrorResponse("Registration failed", 500) && db.artists.rows == old(db.artists.rows))
      && (o.success ==> o == SuccessResponse(Session(sign(ClaimsOf(user)), WithoutPassword(user)), Some("Registration successful"), 201))
    ensures o.success ==> o.data.Session? && "password_hash" !in o.data.user
  {
    var check := RegisterCheck(db.users.rows, body, isValidEmail, isValidPassword);
    if check.Some? {
      return check.value;
    }
    var email, password, role := Get(body, "email"), Get(body, "password"), Get(body, "role");
    var passwordHash := hash(password);
    var w := UserModel.Create(db, email, passwordHash, role, now);
    var user := w.value;
    if role == Str("artist") {
      var a := ArtistModel.Create(db, Col(user, "id"), now);
      if a.UniqueViolation? {
        return ErrorResponse("Registration failed", 500);
      }
    }
    o := SuccessResponse(Session(sign(ClaimsOf(user)), WithoutPassword(user)), Some("Registration successful"), 201);
  }

  /** `login`: 400 without email and password; an unknown email and a wrong password give the
      same 401 "Invalid credentials"; otherwise a token for the stored user and the user
      without the hash. `compare` is the password library's check. */
  function Login(users: seq<Row>, body: Object, compare: (Value, Value) -> bool, sign: Claims -> string): (o: Outcome)
    ensures !(Truthy(Get(body, "email")) && Truthy(Get(body, "password"))) ==>
      o == ErrorResponse("Email and password are required", 400)
    ensures Truthy(Get(body, "email")) && Truthy(Get(body, "password")) && UniqueOn(users, ["email"]) ==>
      (o.success <==> exists u :: u in users && SqlEq(Col(u, "email"), Bind(Get(body, "email")))
                                 && compare(Get(body, "password"), Col(u, "password_hash")))
    ensures !o.success && o.status != 400 ==> o == ErrorResponse("Invalid credentials", 401)
    ensures o.success ==> UserModel.FindByEmail(users, Get(body, "email")).Some?
    ensures o.success ==>
      var u := UserModel.FindByEmail(users, Get(body, "email")).value;
      && compare(Get(body, "password"), Col(u, "password_hash"))
      && o == SuccessResponse(Session(sign(ClaimsOf(u)), WithoutPassword(u)), None, 200)
    ensures o.success ==> o.data.Session? && "password_hash" !in o.data.user
  {
    var email, password := Get(body, "email"), Get(body, "password");
    if !Truthy(email) || !Truthy(password) then ErrorResponse("Email and password are required", 400)
    else
      var user := UserModel.FindByEmail(users, email);
      if user.None? then ErrorResponse("Invalid credentials", 401)
      else if !compare(password, Col(user.value, "password_hash")) then ErrorResponse("Invalid credentials", 401)
      else SuccessResponse(Session(sign(ClaimsOf(user.value)), WithoutPassword(user.value)), None, 200)
  }

  /** An unknown email and a wrong password for a known one get the same answer. */
  lemma LoginDoesNotEnumerate(users: seq<Row>, unknown: Object, wrong: Object,
                              compare: (Value, Value) -> bool, sign: Claims -> string)
    requires Truthy(Get(unknown, "email")) && Truthy(Get(unknown, "password"))
    requires Truthy(Get(wrong, "email")) && Truthy(Get(wrong, "password"))
    requires forall u :: u in users ==> !SqlEq(Col(u, "email"), Bind(Get(unknown, "email")))
    requires forall u :: u in users && SqlEq(Col(u, "email"), Bind(Get(wrong, "email"))) ==>
      !compare(Get(wrong, "password"), Col(u, "password_hash"))
    ensures Login(users, unknown, compare, sign) == Login(users, wrong, compare, sign)
  {
  }

  /** `getMe`: 401 without a user, 404 when the claimed user no longer exists, otherwise the
      stored user without the hash. */
  function GetMe(users: seq<Row>, user: Option<Claims>): (o: Outcome)
    ensures user.None? ==> o == Unauthorized
    ensures user.Some? ==>
      (o == ErrorResponse("User not found", 404) <==> forall u :: u in users ==> !SqlEq(Col(u, "id"), Bind(user.value.userId)))
    ensures user.Some? ==> (o.success <==> UserModel.FindById(users, user.value.userId).Some?)
    ensures o.success ==> o.data.One? && "password_hash" !in o.data.row
    ensures o.success ==> exists u :: u in users && Col(u, "id") == user.value.userId && o.data.row == WithoutPassword(u)
  {
    if user.None? then Unauthorized
    else
      var u := UserModel.FindById(users, user.value.userId);
      if u.None? then ErrorResponse("User not found", 404)
      else SuccessResponse(One(WithoutPassword(u.value)), None, 200)
  }
}
