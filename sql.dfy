/** What the models rely on from the relational store, stated over tables held as
    sequences of rows in heap order: WHERE conditions, the rows an UPDATE or a DELETE
    touches, `rows[0] || null`, ORDER BY, unique keys and fresh ids. */
module Sql {
  import opened Json

  type Row = Object

  /** `Object.entries(data)` of a patch object: its keys, in order, with their values. */
  type Entries = seq<(string, Value)>

  /** The column `c` of a row; a column the row lacks reads as `undefined`. */
  function Col(r: Row, c: string): Value
  {
    Get(r, c)
  }

  /** SQL `a = b`: NULL is equal to nothing. */
  predicate SqlEq(a: Value, b: Value)
  {
    a == b && !IsNull(a)
  }

  // ---------------------------------------------------------------------------
  // WHERE conditions
  // ---------------------------------------------------------------------------

  /** The WHERE conditions the models issue. */
  datatype Cond =
    | Always                                  // 1=1
    | ColEq(col: string, param: Value)        // col = $n
    | ColIsTrue(col: string)                  // col = true
    | ColAtLeast(col: string, param: Value)   // col >= $n
    | ColLike(col: string, pattern: Value)    // col ILIKE $n
    | InArray(param: Value, col: string)      // $n = ANY(col)
    | And(left: Cond, right: Cond)
    | Or(left: Cond, right: Cond)

  /** ASCII case folding. */
  function Fold(c: char): char
  {
    if 'A' <= c <= 'Z' then (c as int + 32) as char else c
  }

  /** `s ILIKE p`: `%` matches any run of characters, `_` any one character,
      other characters match ignoring ASCII case. A backslash is an ordinary character
      here; PostgreSQL's escape is not modelled. */
  predicate ILike(s: string, p: string)
    decreases |s| + |p|
  {
    if p == [] then s == []
    else if p[0] == '%' then ILike(s, p[1..]) || (s != [] && ILike(s[1..], p))
    else s != [] && (p[0] == '_' || Fold(p[0]) == Fold(s[0])) && ILike(s[1..], p[1..])
  }

  /** The condition is TRUE for the row (not FALSE, not NULL). */
  predicate Holds(c: Cond, r: Row)
  {
    match c
    case Always => true
    case ColEq(col, p) => SqlEq(Col(r, col), Bind(p))
    case ColIsTrue(col) => Col(r, col) == Bool(true)
    case ColAtLeast(col, p) => Col(r, col).Num? && Bind(p).Num? && Col(r, col).n >= Bind(p).n
    case ColLike(col, p) => Col(r, col).Str? && Bind(p).Str? && ILike(Col(r, col).s, Bind(p).s)
    case InArray(p, col) => Bind(p).Str? && Col(r, col).Strs? && Bind(p).s in Col(r, col).items
    case And(a, b) => Holds(a, r) && Holds(b, r)
    case Or(a, b) => Holds(a, r) || Holds(b, r)
  }

  /** `WHERE id = $1` */
  function ById(id: Value): Cond
  {
    ColEq("id", id)
  }

  // ---------------------------------------------------------------------------
  // SELECT, DELETE, UPDATE
  // ---------------------------------------------------------------------------

  /** The rows for which the condition's truth is `keep`, in heap order. */
  function Filter(rows: seq<Row>, c: Cond, keep: bool): (result: seq<Row>)
    ensures forall r :: r in result <==> r in rows && Holds(c, r) == keep
    ensures |result| <= |rows|
  {
    if rows == [] then []
    else (if Holds(c, rows[0]) == keep then [rows[0]] else []) + Filter(rows[1..], c, keep)
  }

  /** `SELECT * ... WHERE c` before any ORDER BY. */
  function Where(rows: seq<Row>, c: Cond): seq<Row>
  {
    Filter(rows, c, true)
  }

  /** A filter keeps every copy of a row that passes and no copy of one that does not. */
  lemma {:induction false} FilterCount(rows: seq<Row>, c: Cond, keep: bool, x: Row)
    ensures multiset(Filter(rows, c, keep))[x] == if Holds(c, x) == keep then multiset(rows)[x] else 0
  {
    if rows != [] {
      FilterCount(rows[1..], c, keep, x);
      FilterHead(rows, c, keep);
      MultisetHead(rows);
    }
  }

  lemma FilterHead(rows: seq<Row>, c: Cond, keep: bool)
    requires rows != []
    ensures multiset(Filter(rows, c, keep)) ==
      (if Holds(c, rows[0]) == keep then multiset{rows[0]} else multiset{}) + multiset(Filter(rows[1..], c, keep))
  {
  }

  lemma MultisetHead(rows: seq<Row>)
    requires rows != []
    ensures multiset(rows) == multiset{rows[0]} + multiset(rows[1..])
  {
    assert rows == [rows[0]] + rows[1..];
  }

  /** The table after `DELETE ... WHERE c`. */
  function Without(rows: seq<Row>, c: Cond): seq<Row>
  {
    Filter(rows, c, false)
  }

  /** A DELETE removes exactly the selected rows: its row count is `|Where(rows, c)|`. */
  lemma {:induction false} DeleteCount(rows: seq<Row>, c: Cond)
    ensures |Where(rows, c)| + |Without(rows, c)| == |rows|
  {
    if rows != [] {
      DeleteCount(rows[1..], c);
    }
  }

  /** `result.rows[0] || null` for a SELECT, or for the RETURNING rows of an UPDATE. */
  function FirstWhere(rows: seq<Row>, c: Cond): (r: Option<Row>)
    ensures r.None? <==> forall x :: x in rows ==> !Holds(c, x)
    ensures r.Some? ==> r.value in rows && Holds(c, r.value)
  {
    var w := Where(rows, c);
    if w == [] then None else assert w[0] in w; Some(w[0])
  }

  /** Deleting removed a row exactly when the condition selected one. */
  lemma DeleteRemovedIff(rows: seq<Row>, c: Cond)
    ensures |Without(rows, c)| < |rows| <==> FirstWhere(rows, c).Some?
  {
    DeleteCount(rows, c);
  }

  /** A row after the patch's entries are written in entry order. */
  function Assign(r: Row, s: Entries): Row
  {
    if s == [] then r
    else Assign(r, s[..|s| - 1])[s[|s| - 1].0 := s[|s| - 1].1]
  }

  /** A column that no entry of the patch names keeps its value. */
  lemma {:induction false} AssignOther(r: Row, s: Entries, c: string)
    requires forall e :: e in s ==> e.0 != c
    ensures Col(Assign(r, s), c) == Col(r, c)
  {
    if s != [] {
      assert forall e :: e in s[..|s| - 1] ==> e in s;
      AssignOther(r, s[..|s| - 1], c);
    }
  }

  /** A column that every entry naming it sets to `v`, and one entry does, ends up `v`. */
  lemma {:induction false} AssignNamed(r: Row, s: Entries, c: string, v: Value)
    requires (c, v) in s
    requires forall e :: e in s && e.0 == c ==> e.1 == v
    ensures Col(Assign(r, s), c) == v
  {
    var init, last := s[..|s| - 1], s[|s| - 1];
    assert s == init + [last];
    if last.0 != c {
      assert (c, v) in init;
      assert forall e :: e in init ==> e in s;
      AssignNamed(r, init, c, v);
    }
  }

  /** The keys of `Object.entries` of an object are distinct. */
  predicate DistinctKeys(s: Entries)
  {
    forall i, j :: 0 <= i < j < |s| ==> s[i].0 != s[j].0
  }

  /** The table after `UPDATE ... SET <s> WHERE c`. */
  function UpdateWhere(rows: seq<Row>, c: Cond, s: Entries): seq<Row>
  {
    seq(|rows|, i requires 0 <= i < |rows| => if Holds(c, rows[i]) then Assign(rows[i], s) else rows[i])
  }

  /** A one-entry patch writes one column. */
  lemma AssignOne(r: Row, col: string, v: Value)
    ensures Assign(r, [(col, v)]) == r[col := v]
  {
    var s := [(col, v)];
    assert s[..0] == [];
  }

  /** `UPDATE ... SET col = v WHERE c` writes `v` into `col` of the selected rows and
      changes nothing else. */
  lemma UpdateOneColumn(rows: seq<Row>, c: Cond, col: string, v: Value)
    ensures |UpdateWhere(rows, c, [(col, v)])| == |rows|
    ensures forall i, d :: 0 <= i < |rows| ==>
      Col(UpdateWhere(rows, c, [(col, v)])[i], d) == if Holds(c, rows[i]) && d == col then v else Col(rows[i], d)
  {
    forall i, d | 0 <= i < |rows|
      ensures Col(UpdateWhere(rows, c, [(col, v)])[i], d) == if Holds(c, rows[i]) && d == col then v else Col(rows[i], d)
    {
      AssignOne(rows[i], col, v);
    }
  }

  /** Conditions that hold of the same rows select the same rows. */
  lemma {:induction false} FilterSame(rows: seq<Row>, c: Cond, d: Cond, keep: bool)
    requires forall r :: Holds(c, r) <==> Holds(d, r)
    ensures Filter(rows, c, keep) == Filter(rows, d, keep)
  {
    if rows != [] {
      FilterSame(rows[1..], c, d, keep);
    }
  }

  // ---------------------------------------------------------------------------
  // ORDER BY
  // ---------------------------------------------------------------------------

  datatype OrderKey = Asc(col: string) | Desc(col: string)

  function Codes(s: string): seq<int>
  {
    seq(|s|, i requires 0 <= i < |s| => s[i] as int)
  }

  /** The key a value sorts by: numbers, then strings (by code point), then booleans,
      then arrays; NULL sorts above everything, so DESC puts NULLs first. */
  function SortKey(v: Value): seq<int>
  {
    match v
    case Num(n) => [0, n]
    case Str(s) => [1] + Codes(s)
    case Bool(b) => [2, if b then 1 else 0]
    case Strs(_) => [3]
    case Null => [4]
    case Undefined => [4]
  }

  /** Lexicographic comparison: -1, 0 or 1. */
  function SeqCmp(a: seq<int>, b: seq<int>): int
  {
    if a == [] && b == [] then 0
    else if a == [] then -1
    else if b == [] then 1
    else if a[0] < b[0] then -1
    else if a[0] > b[0] then 1
    else SeqCmp(a[1..], b[1..])
  }

  lemma {:induction false} SeqCmpAntisymmetric(a: seq<int>, b: seq<int>)
    ensures SeqCmp(b, a) == -SeqCmp(a, b)
  {
    if a != [] && b != [] && a[0] == b[0] {
      SeqCmpAntisymmetric(a[1..], b[1..]);
    }
  }

  lemma {:induction false} SeqCmpTransitive(a: seq<int>, b: seq<int>, c: seq<int>)
    requires SeqCmp(a, b) <= 0 && SeqCmp(b, c) <= 0
    ensures SeqCmp(a, c) <= 0
    ensures SeqCmp(a, c) == 0 ==> SeqCmp(a, b) == 0 && SeqCmp(b, c) == 0
  {
    if a != [] && b != [] && c != [] && a[0] == b[0] && b[0] == c[0] {
      SeqCmpTransitive(a[1..], b[1..], c[1..]);
    }
  }

  function ValueCmp(x: Value, y: Value): int
  {
    SeqCmp(SortKey(x), SortKey(y))
  }

  function KeyCmp(k: OrderKey, a: Row, b: Row): int
  {
    match k
    case Asc(c) => ValueCmp(Col(a, c), Col(b, c))
    case Desc(c) => ValueCmp(Col(b, c), Col(a, c))
  }

  /** `ORDER BY k1, k2, ...`: the first key that tells the rows apart decides. */
  function RowCmp(keys: seq<OrderKey>, a: Row, b: Row): int
  {
    if keys == [] then 0
    else if KeyCmp(keys[0], a, b) != 0 then KeyCmp(keys[0], a, b)
    else RowCmp(keys[1..], a, b)
  }

  lemma KeyCmpAntisymmetric(k: OrderKey, a: Row, b: Row)
    ensures KeyCmp(k, b, a) == -KeyCmp(k, a, b)
  {
    SeqCmpAntisymmetric(SortKey(Col(a, k.col)), SortKey(Col(b, k.col)));
  }

  lemma KeyCmpTransitive(k: OrderKey, a: Row, b: Row, c: Row)
    requires KeyCmp(k, a, b) <= 0 && KeyCmp(k, b, c) <= 0
    ensures KeyCmp(k, a, c) <= 0
    ensures KeyCmp(k, a, c) == 0 ==> KeyCmp(k, a, b) == 0 && KeyCmp(k, b, c) == 0
  {
    var x, y, z := SortKey(Col(a, k.col)), SortKey(Col(b, k.col)), SortKey(Col(c, k.col));
    if k.Asc? {
      SeqCmpTransitive(x, y, z);
    } else {
      SeqCmpTransitive(z, y, x);
    }
  }

  lemma {:induction false} RowCmpAntisymmetric(keys: seq<OrderKey>, a: Row, b: Row)
    ensures RowCmp(keys, b, a) == -RowCmp(keys, a, b)
  {
    if keys != [] {
      KeyCmpAntisymmetric(keys[0], a, b);
      RowCmpAntisymmetric(keys[1..], a, b);
    }
  }

  lemma {:induction false} RowCmpTransitive(keys: seq<OrderKey>, a: Row, b: Row, c: Row)
    requires RowCmp(keys, a, b) <= 0 && RowCmp(keys, b, c) <= 0
    ensures RowCmp(keys, a, c) <= 0
  {
    if keys != [] {
      KeyCmpTransitive(keys[0], a, b, c);
      if KeyCmp(keys[0], a, c) == 0 {
        RowCmpTransitive(keys[1..], a, b, c);
      }
    }
  }

  /** Every row may precede every later one under `ORDER BY keys`. */
  ghost predicate Sorted(s: seq<Row>, keys: seq<OrderKey>)
  {
    forall i, j :: 0 <= i < j < |s| ==> RowCmp(keys, s[i], s[j]) <= 0
  }

  function Insert(x: Row, s: seq<Row>, keys: seq<OrderKey>): (r: seq<Row>)
    ensures multiset(r) == multiset(s) + multiset{x}
  {
    if s == [] then [x]
    else if RowCmp(keys, x, s[0]) <= 0 then [x] + s
    else
      assert s == [s[0]] + s[1..];
      [s[0]] + Insert(x, s[1..], keys)
  }

  lemma {:induction false} InsertSorted(x: Row, s: seq<Row>, keys: seq<OrderKey>)
    requires Sorted(s, keys)
    ensures Sorted(Insert(x, s, keys), keys)
  {
    if s == [] {
    } else if RowCmp(keys, x, s[0]) <= 0 {
      forall j | 0 <= j < |s|
        ensures RowCmp(keys, x, s[j]) <= 0
      {
        if j > 0 {
          RowCmpTransitive(keys, x, s[0], s[j]);
        }
      }
      ConsSorted(x, s, keys);
    } else {
      RowCmpAntisymmetric(keys, x, s[0]);
      InsertSorted(x, s[1..], keys);
      HeadPrecedesInsert(x, s, keys);
      ConsSorted(s[0], Insert(x, s[1..], keys), keys);
    }
  }

  /** A row that may precede every row of a sorted sequence may head it. */
  lemma ConsSorted(y: Row, t: seq<Row>, keys: seq<OrderKey>)
    requires Sorted(t, keys)
    requires forall j :: 0 <= j < |t| ==> RowCmp(keys, y, t[j]) <= 0
    ensures Sorted([y] + t, keys)
  {
    forall i, j | 0 <= i < j < |[y] + t|
      ensures RowCmp(keys, ([y] + t)[i], ([y] + t)[j]) <= 0
    {
      assert ([y] + t)[j] == t[j - 1];
      if i > 0 {
        assert ([y] + t)[i] == t[i - 1];
      }
    }
  }

  /** The first row of a sorted sequence may precede everything inserting a later row
      into the rest yields. */
  lemma HeadPrecedesInsert(x: Row, s: seq<Row>, keys: seq<OrderKey>)
    requires Sorted(s, keys) && s != [] && RowCmp(keys, s[0], x) <= 0
    ensures forall j :: 0 <= j < |Insert(x, s[1..], keys)| ==> RowCmp(keys, s[0], Insert(x, s[1..], keys)[j]) <= 0
  {
    var t := Insert(x, s[1..], keys);
    forall j | 0 <= j < |t|
      ensures RowCmp(keys, s[0], t[j]) <= 0
    {
      var y := t[j];
      assert y in multiset(t);
      if y != x {
        assert y in multiset(s[1..]);
        var m :| 0 <= m < |s[1..]| && s[1..][m] == y;
        assert s[m + 1] == y;
      }
    }
  }

  /** The rows in an order `ORDER BY keys` allows. */
  function SortRows(s: seq<Row>, keys: seq<OrderKey>): (r: seq<Row>)
    ensures multiset(r) == multiset(s)
    ensures Sorted(r, keys)
  {
    if s == [] then []
    else
      var rest := SortRows(s[1..], keys);
      InsertSorted(s[0], rest, keys);
      assert s == [s[0]] + s[1..];
      Insert(s[0], rest, keys)
  }

  /** `SELECT * ... WHERE c ORDER BY keys`: exactly the selected rows, each as often as
      it is stored, in an order the ORDER BY allows. */
  function Select(rows: seq<Row>, c: Cond, keys: seq<OrderKey>): (r: seq<Row>)
    ensures forall x :: x in r <==> x in rows && Holds(c, x)
    ensures multiset(r) == multiset(Where(rows, c))
    ensures forall x :: multiset(r)[x] == if Holds(c, x) then multiset(rows)[x] else 0
    ensures Sorted(r, keys)
  {
    var w := Where(rows, c);
    var r := SortRows(w, keys);
    SameMembers(r, w);
    forall x
      ensures multiset(w)[x] == if Holds(c, x) then multiset(rows)[x] else 0
    {
      FilterCount(rows, c, true, x);
    }
    r
  }

  lemma SameMembers(a: seq<Row>, b: seq<Row>)
    requires multiset(a) == multiset(b)
    ensures forall x :: x in a <==> x in b
  {
    forall x
      ensures x in a <==> x in b
    {
      assert x in a <==> x in multiset(a);
      assert x in b <==> x in multiset(b);
    }
  }

  // ---------------------------------------------------------------------------
  // Unique keys and fresh ids
  // ---------------------------------------------------------------------------

  function KeyOf(r: Row, cols: seq<string>): seq<Value>
  {
    seq(|cols|, i requires 0 <= i < |cols| => Col(r, cols[i]))
  }

  /** Two keys collide under a UNIQUE constraint: equal and non-NULL in every column
      (NULLs never collide). */
  predicate KeysClash(a: seq<Value>, b: seq<Value>)
  {
    |a| == |b| && forall k :: 0 <= k < |a| ==> SqlEq(a[k], b[k])
  }

  predicate Clash(a: Row, b: Row, cols: seq<string>)
  {
    KeysClash(KeyOf(a, cols), KeyOf(b, cols))
  }

  /** The table satisfies a primary key or UNIQUE constraint on `cols`. */
  predicate UniqueOn(rows: seq<Row>, cols: seq<string>)
  {
    forall i, j :: 0 <= i < j < |rows| ==> !Clash(rows[i], rows[j], cols)
  }

  /** The table satisfies every constraint in `keys`. */
  predicate Consistent(rows: seq<Row>, keys: seq<seq<string>>)
  {
    forall k :: k in keys ==> UniqueOn(rows, k)
  }

  /** Adding `x` would violate one of the constraints in `keys` (SQLSTATE 23505). */
  predicate Conflict(rows: seq<Row>, x: Row, keys: seq<seq<string>>)
  {
    exists k, r :: k in keys && r in rows && Clash(r, x, k)
  }

  lemma AppendUnique(rows: seq<Row>, x: Row, cols: seq<string>)
    requires UniqueOn(rows, cols)
    requires forall r :: r in rows ==> !Clash(r, x, cols)
    ensures UniqueOn(rows + [x], cols)
  {
    forall i, j | 0 <= i < j < |rows + [x]|
      ensures !Clash((rows + [x])[i], (rows + [x])[j], cols)
    {
      if j == |rows| {
        assert rows[i] in rows;
      }
    }
  }

  /** A row that conflicts with nothing keeps every constraint. */
  lemma AppendConsistent(rows: seq<Row>, x: Row, keys: seq<seq<string>>)
    requires Consistent(rows, keys) && !Conflict(rows, x, keys)
    ensures Consistent(rows + [x], keys)
  {
    forall k | k in keys
      ensures UniqueOn(rows + [x], k)
    {
      AppendUnique(rows, x, k);
    }
  }

  lemma {:induction false} FilterUnique(rows: seq<Row>, c: Cond, keep: bool, cols: seq<string>)
    requires UniqueOn(rows, cols)
    ensures UniqueOn(Filter(rows, c, keep), cols)
  {
    if rows != [] {
      var t := Filter(rows[1..], c, keep);
      TailUnique(rows, cols);
      FilterUnique(rows[1..], c, keep, cols);
      if Holds(c, rows[0]) == keep {
        forall j | 0 <= j < |t|
          ensures !Clash(rows[0], t[j], cols)
        {
          assert t[j] in rows[1..];
          var m :| 0 <= m < |rows[1..]| && rows[1..][m] == t[j];
          assert rows[m + 1] == t[j];
        }
        ConsUnique(rows[0], t, cols);
        assert Filter(rows, c, keep) == [rows[0]] + t;
      } else {
        assert Filter(rows, c, keep) == t;
      }
    }
  }

  lemma TailUnique(rows: seq<Row>, cols: seq<string>)
    requires UniqueOn(rows, cols) && rows != []
    ensures UniqueOn(rows[1..], cols)
  {
    forall i, j | 0 <= i < j < |rows[1..]|
      ensures !Clash(rows[1..][i], rows[1..][j], cols)
    {
      assert rows[1..][i] == rows[i + 1] && rows[1..][j] == rows[j + 1];
    }
  }

  /** A row that collides with no row of a table without collisions can head it. */
  lemma ConsUnique(y: Row, t: seq<Row>, cols: seq<string>)
    requires UniqueOn(t, cols)
    requires forall j :: 0 <= j < |t| ==> !Clash(y, t[j], cols)
    ensures UniqueOn([y] + t, cols)
  {
    forall i, j | 0 <= i < j < |[y] + t|
      ensures !Clash(([y] + t)[i], ([y] + t)[j], cols)
    {
      assert ([y] + t)[j] == t[j - 1];
      if i > 0 {
        assert ([y] + t)[i] == t[i - 1];
      }
    }
  }

  /** A DELETE keeps every constraint. */
  lemma DeleteConsistent(rows: seq<Row>, c: Cond, keys: seq<seq<string>>)
    requires Consistent(rows, keys)
    ensures Consistent(Without(rows, c), keys)
  {
    forall k | k in keys
      ensures UniqueOn(Without(rows, c), k)
    {
      FilterUnique(rows, c, false, k);
    }
  }

  lemma UpdateKeepsKeys(rows: seq<Row>, c: Cond, s: Entries, cols: seq<string>)
    requires forall e :: e in s ==> e.0 !in cols
    ensures |UpdateWhere(rows, c, s)| == |rows|
    ensures forall i :: 0 <= i < |rows| ==> KeyOf(UpdateWhere(rows, c, s)[i], cols) == KeyOf(rows[i], cols)
  {
    forall i | 0 <= i < |rows|
      ensures KeyOf(UpdateWhere(rows, c, s)[i], cols) == KeyOf(rows[i], cols)
    {
      forall k | 0 <= k < |cols|
        ensures Col(UpdateWhere(rows, c, s)[i], cols[k]) == Col(rows[i], cols[k])
      {
        AssignOther(rows[i], s, cols[k]);
      }
    }
  }

  /** An UPDATE that writes none of the constrained columns keeps every constraint. */
  lemma UpdateConsistent(rows: seq<Row>, c: Cond, s: Entries, keys: seq<seq<string>>)
    requires Consistent(rows, keys)
    requires forall e, k :: e in s && k in keys ==> e.0 !in k
    ensures Consistent(UpdateWhere(rows, c, s), keys)
  {
    forall k | k in keys
      ensures UniqueOn(UpdateWhere(rows, c, s), k)
    {
      UpdateKeepsKeys(rows, c, s, k);
    }
  }

  /** Under one column, a collision is non-NULL equality. */
  lemma ClashOn(a: Row, b: Row, c: string)
    ensures Clash(a, b, [c]) <==> SqlEq(Col(a, c), Col(b, c))
  {
    assert KeyOf(a, [c])[0] == Col(a, c) && KeyOf(b, [c])[0] == Col(b, c);
  }

  /** Under two columns, a collision is non-NULL equality in both. */
  lemma ClashOnPair(a: Row, b: Row, c: string, d: string)
    ensures Clash(a, b, [c, d]) <==> SqlEq(Col(a, c), Col(b, c)) && SqlEq(Col(a, d), Col(b, d))
  {
    assert KeyOf(a, [c, d])[0] == Col(a, c) && KeyOf(b, [c, d])[0] == Col(b, c);
    assert KeyOf(a, [c, d])[1] == Col(a, d) && KeyOf(b, [c, d])[1] == Col(b, d);
  }

  /** With a fresh id, the only way to break `[["id"], k]` is a collision on `k`. */
  lemma ConflictOnKey(rows: seq<Row>, y: Row, k: seq<string>)
    requires forall r :: r in rows ==> Col(r, "id") != Col(y, "id")
    ensures Conflict(rows, y, [["id"], k]) <==> exists r :: r in rows && Clash(r, y, k)
  {
    forall r | r in rows
      ensures !Clash(r, y, ["id"])
    {
      ClashOn(r, y, "id");
    }
  }

  /** With a fresh id, a row whose UNIQUE column `c` holds `v` breaks `[["id"], [c]]`
      exactly when a stored row already has `v` there. */
  lemma ConflictOnColumn(rows: seq<Row>, y: Row, c: string, v: Value)
    requires forall r :: r in rows ==> Col(r, "id") != Col(y, "id")
    requires Col(y, c) == Bind(v)
    ensures Conflict(rows, y, [["id"], [c]]) <==> FindBy(rows, c, v).Some?
  {
    ConflictOnKey(rows, y, [c]);
    forall r | r in rows
      ensures Clash(r, y, [c]) <==> SqlEq(Col(r, c), Bind(v))
    {
      ClashOn(r, y, c);
    }
  }

  /** Two rows of a table with a UNIQUE column that share a non-NULL value there are one row. */
  lemma UniqueMatch(rows: seq<Row>, c: string, a: Row, b: Row)
    requires UniqueOn(rows, [c])
    requires a in rows && b in rows && SqlEq(Col(a, c), Col(b, c))
    ensures a == b
  {
    var i :| 0 <= i < |rows| && rows[i] == a;
    var j :| 0 <= j < |rows| && rows[j] == b;
    ClashOn(a, b, c);
    ClashOn(b, a, c);
    if i != j {
      assert false;
    }
  }

  lemma OnlyMatch(rows: seq<Row>, c: string, v: Value, r: Option<Row>)
    requires r.Some? ==> r.value in rows && SqlEq(Col(r.value, c), Bind(v))
    ensures r.Some? && UniqueOn(rows, [c]) ==>
      forall x :: x in rows && SqlEq(Col(x, c), Bind(v)) ==> x == r.value
  {
    if r.Some? && UniqueOn(rows, [c]) {
      forall x | x in rows && SqlEq(Col(x, c), Bind(v))
        ensures x == r.value
      {
        UniqueMatch(rows, c, x, r.value);
      }
    }
  }

  /** `SELECT * FROM t WHERE c = $1` followed by `rows[0] || null`. On a UNIQUE column
      the row found is the only one with that value. */
  function FindBy(rows: seq<Row>, c: string, v: Value): (r: Option<Row>)
    ensures r.None? <==> forall x :: x in rows ==> !SqlEq(Col(x, c), Bind(v))
    ensures r.Some? ==> r.value in rows && Col(r.value, c) == v && !IsNull(v)
    ensures r.Some? && UniqueOn(rows, [c]) ==>
      forall x :: x in rows && SqlEq(Col(x, c), Bind(v)) ==> x == r.value
  {
    var r := FirstWhere(rows, ColEq(c, v));
    OnlyMatch(rows, c, v, r);
    r
  }

  function IdLength(r: Row): nat
  {
    if Col(r, "id").Str? then |Col(r, "id").s| else 0
  }

  /** The length of the longest string id in the table. */
  function LongestId(rows: seq<Row>): (n: nat)
    ensures forall r :: r in rows ==> IdLength(r) <= n
  {
    if rows == [] then 0
    else
      var rest := LongestId(rows[1..]);
      if IdLength(rows[0]) > rest then IdLength(rows[0]) else rest
  }

  /** An id no row of the table has; it stands for the database's generated uuid. */
  function FreshId(rows: seq<Row>): (id: string)
    ensures forall r :: r in rows ==> Col(r, "id") != Str(id)
  {
    seq(LongestId(rows) + 1, _ => 'x')
  }

  /** A row carrying `FreshId(rows)` collides with no row on the primary key. */
  lemma FreshIdNoClash(rows: seq<Row>, x: Row)
    requires Col(x, "id") == Str(FreshId(rows))
    ensures forall r :: r in rows ==> !Clash(r, x, ["id"])
  {
    forall r | r in rows
      ensures !Clash(r, x, ["id"])
    {
      assert KeyOf(r, ["id"])[0] == Col(r, "id");
      assert KeyOf(x, ["id"])[0] == Col(x, "id");
    }
  }
}
