/** The PostgreSQL database the models query, as seven tables of rows. Each table knows its
    primary key and UNIQUE constraints; the statements the models issue are its methods. */
module Store {
  import opened Json
  import opened Sql
  import opened SparseUpdate

  /** What a write returns: its result, or the unique violation (SQLSTATE 23505) that makes
      the query reject. */
  datatype Stored<T> = Done(value: T) | UniqueViolation

  class Table {
    const name: string
    /** The primary key and the UNIQUE constraints, each a list of columns. */
    const keys: seq<seq<string>>
    var rows: seq<Row>

    ghost predicate Valid()
      reads this
    {
      ["id"] in keys && Consistent(rows, keys)
    }

    constructor (name: string, keys: seq<seq<string>>)
      requires ["id"] in keys
      ensures this.name == name && this.keys == keys && rows == []
      ensures Valid()
    {
      this.name := name;
      this.keys := keys;
      rows := [];
    }

    /** The row an INSERT stores: the given columns and a newly generated id. */
    function WithNewId(x: Row): (y: Row)
      reads this
      ensures Col(y, "id").Str?
      ensures forall r :: r in rows ==> Col(r, "id") != Col(y, "id")
      ensures forall c :: c != "id" ==> Col(y, c) == Col(x, c)
    {
      x["id" := Str(FreshId(rows))]
    }

    /** `INSERT INTO t (...) VALUES (...) RETURNING *`: the new row is appended unless it
        collides with a stored row on a constraint; a new id never collides on the key. */
    method Insert(x: Row) returns (w: Stored<Row>)
      requires Valid()
      modifies this
      ensures Valid()
      ensures w.Done? <==> !Conflict(old(rows), old(WithNewId(x)), keys)
      ensures w.Done? ==> w.value == old(WithNewId(x)) && rows == old(rows) + [w.value]
      ensures w.UniqueViolation? ==> rows == old(rows)
      ensures (forall k :: k in keys ==> k == ["id"]) ==> w.Done?
    {
      var y := WithNewId(x);
      FreshIdNoClash(rows, y);
      if Conflict(rows, y, keys) {
        return UniqueViolation;
      }
      AppendConsistent(rows, y, keys);
      rows := rows + [y];
      w := Done(y);
    }

    /** Runs a generated `UPDATE ... WHERE id = $n RETURNING *`; the statement is rejected,
        and nothing changes, when the new rows would break a constraint. */
    method Execute(st: Statement) returns (w: Stored<Option<Row>>)
      requires Valid() && WellFormed(st)
      modifies this
      ensures Valid()
      ensures Consistent(Run(old(rows), st), keys) ==>
        rows == Run(old(rows), st) && w == Done(FirstWhere(rows, ById(st.values[st.idParam - 1])))
      ensures !Consistent(Run(old(rows), st), keys) ==> rows == old(rows) && w.UniqueViolation?
    {
      var after := Run(rows, st);
      if !Consistent(after, keys) {
        return UniqueViolation;
      }
      rows := after;
      w := Done(FirstWhere(rows, ById(st.values[st.idParam - 1])));
    }

    /** The `update(id, data)` every model shares, proved against `UpdateSpec`. */
    method Update(id: Value, data: Entries, protected: set<string>) returns (w: Stored<Option<Row>>)
      requires Valid()
      modifies this
      ensures Valid()
      ensures (rows, w) == UpdateSpec(old(rows), keys, id, data, protected)
    {
      var st := Build(data, protected, id);
      if st.None? {
        return Done(None);
      }
      RunMatchesPatch(rows, st.value, Surviving(data, protected), id);
      w := Execute(st.value);
    }

    /** `DELETE FROM t WHERE c`, returning `rowCount > 0`. */
    method Delete(c: Cond) returns (removed: bool)
      requires Valid()
      modifies this
      ensures Valid()
      ensures rows == Without(old(rows), c)
      ensures removed <==> FirstWhere(old(rows), c).Some?
    {
      DeleteRemovedIff(rows, c);
      DeleteConsistent(rows, c, keys);
      var before := |rows|;
      rows := Without(rows, c);
      removed := |rows| < before;
    }
  }

  /** What `update(id, data)` does to a table with constraints `keys`: the surviving
      entries of the patch are written into the row with that id; with no surviving entry
      nothing is sent and the result is null; a write that breaks a constraint is rejected. */
  function UpdateSpec(rows: seq<Row>, keys: seq<seq<string>>, id: Value, data: Entries, protected: set<string>)
    : (seq<Row>, Stored<Option<Row>>)
  {
    var s := Surviving(data, protected);
    if s == [] then (rows, Done(None))
    else
      var after := UpdateWhere(rows, ById(id), s);
      if Consistent(after, keys) then (after, Done(FirstWhere(after, ById(id))))
      else (rows, UniqueViolation)
  }

  /** An update never writes a protected column and never touches a row with another id. */
  lemma UpdateKeepsProtected(rows: seq<Row>, keys: seq<seq<string>>, id: Value, data: Entries, protected: set<string>)
    ensures |UpdateSpec(rows, keys, id, data, protected).0| == |rows|
    ensures forall i, c :: 0 <= i < |rows| && c in protected ==>
      Col(UpdateSpec(rows, keys, id, data, protected).0[i], c) == Col(rows[i], c)
    ensures forall i :: 0 <= i < |rows| && !Holds(ById(id), rows[i]) ==>
      UpdateSpec(rows, keys, id, data, protected).0[i] == rows[i]
  {
    SurvivingKeepsProtected(rows, id, data, protected);
  }

  /** A column the patch does not name keeps its value in every row. */
  lemma UpdateKeepsUnnamed(rows: seq<Row>, keys: seq<seq<string>>, id: Value, data: Entries, protected: set<string>, c: string)
    requires forall e :: e in data ==> e.0 != c
    ensures |UpdateSpec(rows, keys, id, data, protected).0| == |rows|
    ensures forall i :: 0 <= i < |rows| ==> Col(UpdateSpec(rows, keys, id, data, protected).0[i], c) == Col(rows[i], c)
  {
    forall i | 0 <= i < |rows|
      ensures Col(UpdateWhere(rows, ById(id), Surviving(data, protected))[i], c) == Col(rows[i], c)
    {
      AssignOther(rows[i], Surviving(data, protected), c);
    }
  }

  /** The row an update returns is the row with that id after the write, and there is one
      exactly when a row with that id existed before. */
  lemma UpdateMatchesById(rows: seq<Row>, keys: seq<seq<string>>, id: Value, data: Entries, protected: set<string>)
    requires "id" in protected
    ensures var (after, w) := UpdateSpec(rows, keys, id, data, protected);
      w.Done? && Surviving(data, protected) != [] ==>
        w.value == FindBy(after, "id", id) && (w.value.Some? <==> FindBy(rows, "id", id).Some?)
  {
    var s := Surviving(data, protected);
    if s != [] {
      var after := UpdateWhere(rows, ById(id), s);
      SurvivingSkipsProtected(data, protected, "id");
      forall i | 0 <= i < |rows|
        ensures Col(after[i], "id") == Col(rows[i], "id")
      {
        AssignOther(rows[i], s, "id");
      }
      assert forall x :: x in after ==> exists i :: 0 <= i < |rows| && after[i] == x;
      assert forall i :: 0 <= i < |rows| ==> after[i] in after;
    }
  }

  /** A patch entry for an unprotected column with a defined value is written into the row
      with that id whenever the update is accepted. */
  lemma UpdateWritesNamed(rows: seq<Row>, keys: seq<seq<string>>, id: Value, data: Entries, protected: set<string>,
                          c: string, v: Value)
    requires DistinctKeys(data) && (c, v) in data
    requires c !in protected && v != Undefined
    requires UpdateSpec(rows, keys, id, data, protected).1.Done?
    ensures |UpdateSpec(rows, keys, id, data, protected).0| == |rows|
    ensures forall i :: 0 <= i < |rows| && Holds(ById(id), rows[i]) ==>
      Col(UpdateSpec(rows, keys, id, data, protected).0[i], c) == v
  {
    var s := Surviving(data, protected);
    assert Kept((c, v), protected);
    forall e | e in s && e.0 == c
      ensures e.1 == v
    {
      var i :| 0 <= i < |data| && data[i] == e;
      var j :| 0 <= j < |data| && data[j] == (c, v);
      assert i == j;
    }
    forall i | 0 <= i < |rows| && Holds(ById(id), rows[i])
      ensures Col(UpdateWhere(rows, ById(id), s)[i], c) == v
    {
      AssignNamed(rows[i], s, c, v);
    }
  }

  /** An update whose protected columns cover every constraint is never rejected, and it
      keeps the table's constraints. */
  lemma UpdateNeverRejected(rows: seq<Row>, keys: seq<seq<string>>, id: Value, data: Entries, protected: set<string>)
    requires Consistent(rows, keys)
    requires forall k, c :: k in keys && c in k ==> c in protected
    ensures UpdateSpec(rows, keys, id, data, protected).1.Done?
  {
    SurvivingSkipsKeys(data, protected, keys);
    UpdateConsistent(rows, ById(id), Surviving(data, protected), keys);
  }

  /** A patch that cannot name a constrained column cannot break a constraint. */
  lemma SurvivingSkipsKeys(data: Entries, protected: set<string>, keys: seq<seq<string>>)
    requires forall k, c :: k in keys && c in k ==> c in protected
    ensures forall e, k :: e in Surviving(data, protected) && k in keys ==> e.0 !in k
  {
  }

  /** One artist profile per user: the UNIQUE `user_id` of a valid database. */
  lemma ArtistPerUser(db: Database)
    requires db.Valid()
    ensures UniqueOn(db.artists.rows, ["user_id"])
  {
    assert ["user_id"] in db.artists.keys;
  }

  /** The application's database. */
  class Database {
    const users: Table
    const artists: Table
    const services: Table
    const appointments: Table
    const reviews: Table
    const messages: Table
    const favorites: Table

    /** Each table has its own name and constraints, so the seven are distinct objects. */
    ghost predicate Valid()
      reads users, artists, services, appointments, reviews, messages, favorites
    {
      && users.name == "users" && users.keys == [["id"], ["email"]] && users.Valid()
      && artists.name == "artists" && artists.keys == [["id"], ["user_id"]] && artists.Valid()
      && services.name == "services" && services.keys == [["id"]] && services.Valid()
      && appointments.name == "appointments" && appointments.keys == [["id"]] && appointments.Valid()
      && reviews.name == "reviews" && reviews.keys == [["id"], ["appointment_id", "customer_id"]] && reviews.Valid()
      && messages.name == "messages" && messages.keys == [["id"]] && messages.Valid()
      && favorites.name == "favorites" && favorites.keys == [["id"], ["user_id", "artist_id"]] && favorites.Valid()
    }

    constructor ()
      ensures Valid()
      ensures users.rows == artists.rows == services.rows == appointments.rows == []
      ensures reviews.rows == messages.rows == favorites.rows == []
    {
      users := new Table("users", [["id"], ["email"]]);
      artists := new Table("artists", [["id"], ["user_id"]]);
      services := new Table("services", [["id"]]);
      appointments := new Table("appointments", [["id"]]);
      reviews := new Table("reviews", [["id"], ["appointment_id", "customer_id"]]);
      messages := new Table("messages", [["id"]]);
      favorites := new Table("favorites", [["id"], ["user_id", "artist_id"]]);
    }
  }
}
