/** `ArtistModel`: the queries on the `artists` table, including the filtered listing. */
module ArtistModel {
  import opened Json
  import opened Sql
  import opened Store

  /** The columns `update` never writes. */
  const Protected: set<string> := {"id", "user_id"}

  /** `ORDER BY rating DESC, total_reviews DESC` */
  const ByRating: seq<OrderKey> := [Desc("rating"), Desc("total_reviews")]

  /** The row `create` inserts, with the table's defaults: rating 0, 0 reviews, not verified. */
  function Columns(userId: Value, now: int): Row
  {
    map["user_id" := Bind(userId), "rating" := Num(0), "total_reviews" := Num(0),
        "is_verified" := Bool(false), "created_at" := Num(now), "updated_at" := Num(now)]
  }

  /** `create(userId)`: a profile linked to the user; rejected when the user already has one
      (`user_id` is UNIQUE). */
  method Create(db: Database, userId: Value, now: int) returns (w: Stored<Row>)
    requires db.Valid()
    modifies db.artists
    ensures db.Valid()
    ensures w.Done? <==> FindByUserId(old(db.artists.rows), userId).None?
    ensures w.Done? ==> w.value == old(db.artists.WithNewId(Columns(userId, now)))
    ensures w.Done? ==> db.artists.rows == old(db.artists.rows) + [w.value]
    ensures w.UniqueViolation? ==> db.artists.rows == old(db.artists.rows)
  {
    var y := db.artists.WithNewId(Columns(userId, now));
    assert Col(y, "user_id") == Bind(userId);
    ConflictOnColumn(db.artists.rows, y, "user_id", userId);
    w := db.artists.Insert(Columns(userId, now));
  }

  /** `findByUserId(userId)`: the user's profile, or null. */
  function FindByUserId(rows: seq<Row>, userId: Value): Option<Row>
  {
    FindBy(rows, "user_id", userId)
  }

  /** `findById(id)`. */
  function FindById(rows: seq<Row>, id: Value): Option<Row>
  {
    FindBy(rows, "id", id)
  }

  // ---------------------------------------------------------------------------
  // findAll(filters)
  // ---------------------------------------------------------------------------

  /** The optional `{ city, minRating, specialty }` object. */
  datatype Filters = Filters(city: Option<string>, minRating: Option<Number>, specialty: Option<string>)

  /** `filters?.city`, `filters?.minRating`, `filters?.specialty` are truthy. */
  predicate CityGiven(f: Filters)
  {
    f.city.Some? && f.city.value != ""
  }

  predicate RatingGiven(f: Filters)
  {
    f.minRating.Some? && f.minRating.value.Finite? && f.minRating.value.n != 0
  }

  predicate SpecialtyGiven(f: Filters)
  {
    f.specialty.Some? && f.specialty.value != ""
  }

  /** One ` AND ...` appended to the query text, with the number of its placeholder. */
  datatype Clause =
    | CityLike(param: nat)        // AND city ILIKE $n
    | RatingAtLeast(param: nat)   // AND rating >= $n
    | HasSpecialty(param: nat)    // AND $n = ANY(specialties)

  /** The position of a clause kind in the query text. */
  function Rank(c: Clause): nat
  {
    match c
    case CityLike(_) => 0
    case RatingAtLeast(_) => 1
    case HasSpecialty(_) => 2
  }

  function ClauseCond(c: Clause, params: seq<Value>): Cond
  {
    var p := if 1 <= c.param <= |params| then params[c.param - 1] else Null;
    match c
    case CityLike(_) => ColLike("city", p)
    case RatingAtLeast(_) => ColAtLeast("rating", p)
    case HasSpecialty(_) => InArray(p, "specialties")
  }

  /** `WHERE 1=1 AND c1 AND c2 ...` */
  function WhereOf(clauses: seq<Clause>, params: seq<Value>): Cond
  {
    if clauses == [] then Always
    else And(WhereOf(clauses[..|clauses| - 1], params), ClauseCond(clauses[|clauses| - 1], params))
  }

  /** What the listing promises of each artist it returns, stated on the filters alone:
      the city contains the requested one (ILIKE `%city%`), the rating reaches the minimum,
      the specialty is among the artist's specialties. */
  predicate Wanted(f: Filters, r: Row)
  {
    CityOk(f, r) && RatingOk(f, r) && SpecialtyOk(f, r)
  }

  predicate CityOk(f: Filters, r: Row)
  {
    CityGiven(f) ==> Col(r, "city").Str? && ILike(Col(r, "city").s, "%" + f.city.value + "%")
  }

  predicate RatingOk(f: Filters, r: Row)
  {
    RatingGiven(f) ==> Col(r, "rating").Num? && Col(r, "rating").n >= f.minRating.value.n
  }

  predicate SpecialtyOk(f: Filters, r: Row)
  {
    SpecialtyGiven(f) ==> Col(r, "specialties").Strs? && f.specialty.value in Col(r, "specialties").items
  }

  /** Every placeholder of the clauses has a parameter. */
  predicate Numbered(clauses: seq<Clause>, params: seq<Value>)
  {
    forall i :: 0 <= i < |clauses| ==> 1 <= clauses[i].param <= |params|
  }

  /** Parameters appended after the clauses do not change what the clauses mean. */
  lemma {:induction false} WhereOfExtends(clauses: seq<Clause>, params: seq<Value>, p: Value)
    requires Numbered(clauses, params)
    ensures WhereOf(clauses, params + [p]) == WhereOf(clauses, params)
  {
    if clauses != [] {
      WhereOfExtends(clauses[..|clauses| - 1], params, p);
    }
  }

  /** The text and parameters `findAll` assembles: one clause per truthy filter, in the order
      city, minRating, specialty, each with the next placeholder; together they select exactly
      the artists the filters ask for. */
  method BuildQuery(f: Filters) returns (clauses: seq<Clause>, params: seq<Value>)
    ensures |params| == |clauses|
    ensures forall i :: 0 <= i < |clauses| ==> clauses[i].param == i + 1 && params[i] == ParamFor(f, clauses[i])
    ensures Kinds(clauses) == Requested(f)
    ensures Selects(f, clauses, params)
  {
    clauses, params := [], [];
    var paramCount := 1;
    if CityGiven(f) {
      ShapedAppend(f, clauses, params, CityLike(paramCount));
      clauses := clauses + [CityLike(paramCount)];
      params := params + [Str("%" + f.city.value + "%")];
      paramCount := paramCount + 1;
    }
    ghost var kinds := if CityGiven(f) then [0] else [];
    assert Shaped(f, clauses, params, paramCount) && Kinds(clauses) == kinds;
    if RatingGiven(f) {
      ShapedAppend(f, clauses, params, RatingAtLeast(paramCount));
      clauses := clauses + [RatingAtLeast(paramCount)];
      params := params + [Num(f.minRating.value.n)];
      paramCount := paramCount + 1;
    }
    kinds := kinds + (if RatingGiven(f) then [1] else []);
    assert Shaped(f, clauses, params, paramCount) && Kinds(clauses) == kinds;
    if SpecialtyGiven(f) {
      ShapedAppend(f, clauses, params, HasSpecialty(paramCount));
      clauses := clauses + [HasSpecialty(paramCount)];
      params := params + [Str(f.specialty.value)];
      paramCount := paramCount + 1;
    }
    kinds := kinds + (if SpecialtyGiven(f) then [2] else []);
    assert Shaped(f, clauses, params, paramCount) && Kinds(clauses) == kinds == Requested(f);
    QuerySelects(f, clauses, params);
  }

  /** Appending the next clause with its filter's value keeps the bookkeeping. */
  lemma ShapedAppend(f: Filters, clauses: seq<Clause>, params: seq<Value>, c: Clause)
    requires Shaped(f, clauses, params, |clauses| + 1) && c.param == |clauses| + 1
    ensures Shaped(f, clauses + [c], params + [ParamFor(f, c)], |clauses| + 2)
    ensures Kinds(clauses + [c]) == Kinds(clauses) + [Rank(c)]
  {
  }

  /** The bookkeeping of the assembly: `paramCount` is one past the last placeholder, and
      each clause's placeholder is its position and is bound to its filter's value. */
  predicate Shaped(f: Filters, clauses: seq<Clause>, params: seq<Value>, paramCount: int)
  {
    && |params| == |clauses| == paramCount - 1
    && forall i :: 0 <= i < |clauses| ==> clauses[i].param == i + 1 && params[i] == ParamFor(f, clauses[i])
  }

  /** `1=1 AND c1 AND ... AND ck` holds exactly when every clause holds. */
  lemma {:induction false} WhereOfAll(clauses: seq<Clause>, params: seq<Value>, r: Row)
    ensures Holds(WhereOf(clauses, params), r) <==>
      forall i :: 0 <= i < |clauses| ==> Holds(ClauseCond(clauses[i], params), r)
  {
    if clauses != [] {
      var init := clauses[..|clauses| - 1];
      WhereOfAll(init, params, r);
      assert forall i :: 0 <= i < |init| ==> init[i] == clauses[i];
    }
  }

  /** The WHERE clause of `clauses` bound to `params` selects exactly the artists the
      filters ask for. */
  ghost predicate Selects(f: Filters, clauses: seq<Clause>, params: seq<Value>)
  {
    forall r :: Holds(WhereOf(clauses, params), r) <==> Wanted(f, r)
  }

  /** Clauses shaped as `findAll` shapes them select exactly the artists the filters ask for. */
  lemma QuerySelects(f: Filters, clauses: seq<Clause>, params: seq<Value>)
    requires Shaped(f, clauses, params, |clauses| + 1) && Kinds(clauses) == Requested(f)
    ensures Selects(f, clauses, params)
  {
    forall r
      ensures Holds(WhereOf(clauses, params), r) <==> Wanted(f, r)
    {
      QueryMeaning(f, clauses, params, r);
    }
  }

  /** Clauses shaped as `findAll` shapes them, one per truthy filter, select exactly the
      artists the filters ask for. */
  lemma QueryMeaning(f: Filters, clauses: seq<Clause>, params: seq<Value>, r: Row)
    requires Shaped(f, clauses, params, |clauses| + 1) && Kinds(clauses) == Requested(f)
    ensures Holds(WhereOf(clauses, params), r) <==> Wanted(f, r)
  {
    WhereOfAll(clauses, params, r);
    ClausesMeaning(f, clauses, params, r);
    WantedIffClauses(f, clauses, r);
  }

  /** Each clause, bound to its filter's value, tests what its filter asks. */
  lemma ClausesMeaning(f: Filters, clauses: seq<Clause>, params: seq<Value>, r: Row)
    requires Shaped(f, clauses, params, |clauses| + 1) && Kinds(clauses) == Requested(f)
    ensures forall i :: 0 <= i < |clauses| ==>
      (Holds(ClauseCond(clauses[i], params), r) <==> OkFor(f, clauses[i], r))
  {
    RequestedOrder(f);
    forall i | 0 <= i < |clauses|
      ensures Holds(ClauseCond(clauses[i], params), r) <==> OkFor(f, clauses[i], r)
    {
      assert Kinds(clauses)[i] == Rank(clauses[i]) && Rank(clauses[i]) in Requested(f);
      ClauseMeaning(f, clauses[i], params);
    }
  }

  /** An artist is wanted exactly when it passes the test of every requested clause. */
  lemma WantedIffClauses(f: Filters, clauses: seq<Clause>, r: Row)
    requires Kinds(clauses) == Requested(f)
    ensures Wanted(f, r) <==> forall i :: 0 <= i < |clauses| ==> OkFor(f, clauses[i], r)
  {
    if Wanted(f, r) {
      forall i | 0 <= i < |clauses|
        ensures OkFor(f, clauses[i], r)
      {
        assert Kinds(clauses)[i] == Rank(clauses[i]);
      }
    }
    if forall i :: 0 <= i < |clauses| ==> OkFor(f, clauses[i], r) {
      OkFromClauses(f, clauses, r, 0, CityOk(f, r));
      OkFromClauses(f, clauses, r, 1, RatingOk(f, r));
      OkFromClauses(f, clauses, r, 2, SpecialtyOk(f, r));
    }
  }

  /** What a clause of each kind tests of an artist. */
  predicate OkFor(f: Filters, c: Clause, r: Row)
  {
    match c
    case CityLike(_) => CityOk(f, r)
    case RatingAtLeast(_) => RatingOk(f, r)
    case HasSpecialty(_) => SpecialtyOk(f, r)
  }

  lemma OkFromClauses(f: Filters, clauses: seq<Clause>, r: Row, k: nat, ok: bool)
    requires Kinds(clauses) == Requested(f)
    requires forall i :: 0 <= i < |clauses| ==> OkFor(f, clauses[i], r)
    requires k <= 2
    requires ok == (match k case 0 => CityOk(f, r) case 1 => RatingOk(f, r) case _ => SpecialtyOk(f, r))
    ensures ok
  {
    RequestedOrder(f);
    if k in Requested(f) {
      var i :| 0 <= i < |clauses| && Kinds(clauses)[i] == k;
      assert OkFor(f, clauses[i], r);
    }
  }

  /** The parameter `findAll` binds for each kind of clause. */
  function ParamFor(f: Filters, c: Clause): Value
  {
    match c
    case CityLike(_) => if f.city.Some? then Str("%" + f.city.value + "%") else Null
    case RatingAtLeast(_) => if f.minRating.Some? && f.minRating.value.Finite? then Num(f.minRating.value.n) else Null
    case HasSpecialty(_) => if f.specialty.Some? then Str(f.specialty.value) else Null
  }

  /** The kinds of the clauses, in query order. */
  function Kinds(clauses: seq<Clause>): seq<nat>
  {
    seq(|clauses|, i requires 0 <= i < |clauses| => Rank(clauses[i]))
  }

  /** The kinds of clause the filters call for: city (0), minRating (1), specialty (2). */
  function Requested(f: Filters): seq<nat>
  {
    (if CityGiven(f) then [0] else []) + (if RatingGiven(f) then [1] else []) + (if SpecialtyGiven(f) then [2] else [])
  }

  /** One clause per truthy filter, each kind at most once, in the order city, minRating,
      specialty. */
  lemma RequestedOrder(f: Filters)
    ensures |Requested(f)| <= 3
    ensures forall i, j :: 0 <= i < j < |Requested(f)| ==> Requested(f)[i] < Requested(f)[j]
    ensures 0 in Requested(f) <==> CityGiven(f)
    ensures 1 in Requested(f) <==> RatingGiven(f)
    ensures 2 in Requested(f) <==> SpecialtyGiven(f)
  {
  }

  /** A clause whose placeholder is bound to its filter's parameter tests that filter. */
  lemma ClauseMeaning(f: Filters, c: Clause, params: seq<Value>)
    requires 1 <= c.param <= |params| && params[c.param - 1] == ParamFor(f, c)
    requires c.CityLike? ==> CityGiven(f)
    requires c.RatingAtLeast? ==> RatingGiven(f)
    requires c.HasSpecialty? ==> SpecialtyGiven(f)
    ensures c.CityLike? ==> forall r :: Holds(ClauseCond(c, params), r) <==> CityOk(f, r)
    ensures c.RatingAtLeast? ==> forall r :: Holds(ClauseCond(c, params), r) <==> RatingOk(f, r)
    ensures c.HasSpecialty? ==> forall r :: Holds(ClauseCond(c, params), r) <==> SpecialtyOk(f, r)
  {
  }

  /** `findAll(filters)`: exactly the artists the filters ask for, best rated first. */
  method FindAll(db: Database, f: Filters) returns (r: seq<Row>)
    ensures forall a :: a in r <==> a in db.artists.rows && Wanted(f, a)
    ensures forall a :: multiset(r)[a] == if Wanted(f, a) then multiset(db.artists.rows)[a] else 0
    ensures Sorted(r, ByRating)
  {
    var clauses, params := BuildQuery(f);
    r := Select(db.artists.rows, WhereOf(clauses, params), ByRating);
  }

  /** `update(id, data)`: the shared sparse update with `id` and `user_id` protected. */
  method Update(db: Database, id: Value, data: Entries) returns (r: Option<Row>)
    requires db.Valid()
    modifies db.artists
    ensures db.Valid()
    ensures (db.artists.rows, Done(r)) == UpdateSpec(old(db.artists.rows), db.artists.keys, id, data, Protected)
  {
    UpdateNeverRejected(db.artists.rows, db.artists.keys, id, data, Protected);
    var w := db.artists.Update(id, data, Protected);
    r := w.value;
  }

  /** `delete(id)`: true exactly when a row was removed. */
  method Delete(db: Database, id: Value) returns (removed: bool)
    requires db.Valid()
    modifies db.artists
    ensures db.Valid()
    ensures db.artists.rows == Without(old(db.artists.rows), ById(id))
    ensures removed <==> FindById(old(db.artists.rows), id).Some?
  {
    removed := db.artists.Delete(ById(id));
  }
}
