/** `userController`: public profiles and the caller's own account. */
module UserController {
  import opened Json
  import opened Sql
  import opened SparseUpdate
  import opened Store
  import opened Http
  import opened Types
  import UserModel
  import AuthController

  /** `getProfile`: 404 for an unknown id; otherwise the user without the password hash. */
  function GetProfile(users: seq<Row>, id: Value): (o: Outcome)
    ensures o.success <==> UserModel.FindById(users, id).Some?
    ensures !o.success ==> o == ErrorResponse("User not found", 404)
    ensures o.success ==> o.status == 200 && o.data.One? && "password_hash" !in o.data.row
    ensures o.success ==> forall c :: c != "password_hash" ==>
      Col(o.data.row, c) == Col(UserModel.FindById(users, id).value, c)
  {
    var user := UserModel.FindById(users, id);
    if user.None? then ErrorResponse("User not found", 404)
    else SuccessResponse(One(AuthController.WithoutPassword(user.value)), None, 200)
  }

  /** The columns the caller may change about themselves. */
  const ProfileFields: seq<string> := ["full_name", "phone", "avatar_url"]

  /** `{ full_name, phone, avatar_url }` taken from the body. */
  function Patch(body: Object): (data: Entries)
    ensures |data| == 3
    ensures forall i :: 0 <= i < 3 ==> data[i] == (ProfileFields[i], Get(body, ProfileFields[i]))
  {
    seq(3, i requires 0 <= i < 3 => (ProfileFields[i], Get(body, ProfileFields[i])))
  }

  /** A column outside the three profile fields is never named by the patch. */
  lemma PatchSkips(body: Object, c: string)
    requires c !in ProfileFields
    ensures forall e :: e in Patch(body) ==> e.0 != c
  {
  }

  /** The profile patch can never break the UNIQUE email: the update is never rejected. */
  lemma ProfileUpdateNeverRejected(users: seq<Row>, id: Value, body: Object)
    requires Consistent(users, [["id"], ["email"]])
    ensures UpdateSpec(users, [["id"], ["email"]], id, Patch(body), UserModel.Protected).1.Done?
  {
    var s := Surviving(Patch(body), UserModel.Protected);
    PatchSkips(body, "id");
    PatchSkips(body, "email");
    UpdateConsistent(users, ById(id), s, [["id"], ["email"]]);
  }

  /** The profile update leaves the id, email, role and password hash of every user alone,
      and changes no other user's row. */
  lemma ProfileUpdateKeepsAccount(users: seq<Row>, keys: seq<seq<string>>, id: Value, body: Object)
    ensures |UpdateSpec(users, keys, id, Patch(body), UserModel.Protected).0| == |users|
    ensures forall i :: 0 <= i < |users| ==>
      var after := UpdateSpec(users, keys, id, Patch(body), UserModel.Protected).0[i];
      && Col(after, "id") == Col(users[i], "id")
      && Col(after, "email") == Col(users[i], "email")
      && Col(after, "role") == Col(users[i], "role")
      && Col(after, "password_hash") == Col(users[i], "password_hash")
    ensures forall i :: 0 <= i < |users| && !Holds(ById(id), users[i]) ==>
      UpdateSpec(users, keys, id, Patch(body), UserModel.Protected).0[i] == users[i]
  {
    UpdateKeepsProtected(users, keys, id, Patch(body), UserModel.Protected);
    PatchSkips(body, "email");
    UpdateKeepsUnnamed(users, keys, id, Patch(body), UserModel.Protected, "email");
    PatchSkips(body, "role");
    UpdateKeepsUnnamed(users, keys, id, Patch(body), UserModel.Protected, "role");
  }

  /** `updateProfile`: 401; the three profile fields are written into the caller's row; 400
      "Failed to update profile" when the update returns null (no field given, or no such
      user); otherwise the updated user without the hash. A rejected update would surface
      as the handler's 500, which the lemma above rules out. */
  method UpdateProfile(db: Database, user: Option<Claims>, body: Object) returns (o: Outcome)
    requires db.Valid()
    modifies db.users
    ensures db.Valid()
    ensures user.None? ==> o == Unauthorized && db.users.rows == old(db.users.rows)
    ensures user.Some? ==>
      db.users.rows == UpdateSpec(old(db.users.rows), db.users.keys, user.value.userId, Patch(body), UserModel.Protected).0
    ensures o.status != 500
    ensures user.Some? && !o.success ==> o == ErrorResponse("Failed to update profile", 400)
    ensures o.success ==>
      && o.status == 200 && o.message == Some("Profile updated") && o.data.One?
      && "password_hash" !in o.data.row
      && UserModel.FindById(db.users.rows, user.value.userId).Some?
      && o.data.row == AuthController.WithoutPassword(UserModel.FindById(db.users.rows, user.value.userId).value)
    ensures user.Some? ==>
      (o.success <==> Surviving(Patch(body), UserModel.Protected) != []
                       && UserModel.FindById(old(db.users.rows), user.value.userId).Some?)
  {
    if user.None? {
      return Unauthorized;
    }
    ProfileUpdateNeverRejected(db.users.rows, user.value.userId, body);
    UpdateMatchesById(db.users.rows, db.users.keys, user.value.userId, Patch(body), UserModel.Protected);
    var w := UserModel.Update(db, user.value.userId, Patch(body));
    if w.UniqueViolation? {
      assert false;
      return ErrorResponse("Failed to update profile", 500);
    }
    if w.value.None? {
      return ErrorResponse("Failed to update profile", 400);
    }
    o := SuccessResponse(One(AuthController.WithoutPassword(w.value.value)), Some("Profile updated"), 200);
  }

  /** `deleteAccount`: 401; 400 "Failed to delete account" when no row was removed;
      otherwise the caller's row is gone. */
  method DeleteAccount(db: Database, user: Option<Claims>) returns (o: Outcome)
    requires db.Valid()
    modifies db.users
    ensures db.Valid()
    ensures user.None? ==> o == Unauthorized && db.users.rows == old(db.users.rows)
    ensures user.Some? ==> db.users.rows == Without(old(db.users.rows), ById(user.value.userId))
    ensures user.Some? ==> (o.success <==> UserModel.FindById(old(db.users.rows), user.value.userId).Some?)
    ensures user.Some? && !o.success ==> o == ErrorResponse("Failed to delete account", 400)
    ensures o.success ==> o == SuccessResponse(NoData, Some("Account deleted successfully"), 200)
  {
    if user.None? {
      return Unauthorized;
    }
    var deleted := UserModel.Delete(db, user.value.userId);
    if !deleted {
      return ErrorResponse("Failed to delete account", 400);
    }
    o := SuccessResponse(NoData, Some("Account deleted successfully"), 200);
  }
}
