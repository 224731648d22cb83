/** The sparse update that every model's `update` performs: walk the entries of the patch,
    drop protected keys and `undefined` values, number the surviving columns `$1..$k`,
    bind the id to `$(k+1)`, and give up (return null) when no column survives. */
module SparseUpdate {
  import opened Json
  import opened Sql

  /** One item `column = $param` of the generated SET list. */
  datatype Assignment = Assignment(column: string, param: nat)

  /** `UPDATE t SET <sets> WHERE id = $<idParam> RETURNING *` with its parameter list. */
  datatype Statement = Statement(sets: seq<Assignment>, values: seq<Value>, idParam: nat)

  /** The loop's filter: the key is not protected and the value is not `undefined`. */
  predicate Kept(e: (string, Value), protected: set<string>)
  {
    e.0 !in protected && e.1 != Undefined
  }

  /** The entries the loop forwards, in entry order. */
  function Surviving(data: Entries, protected: set<string>): (s: Entries)
    ensures forall e :: e in s ==> e in data && Kept(e, protected)
    ensures forall e :: e in data && Kept(e, protected) ==> e in s
    ensures |s| <= |data|
  {
    if data == [] then []
    else
      var last := data[|data| - 1];
      assert data == data[..|data| - 1] + [last];
      Surviving(data[..|data| - 1], protected) + (if Kept(last, protected) then [last] else [])
  }

  /** No surviving entry writes a protected column. */
  lemma SurvivingSkipsProtected(data: Entries, protected: set<string>, c: string)
    requires c in protected
    ensures forall e :: e in Surviving(data, protected) ==> e.0 != c
  {
  }

  /** The statement numbers the surviving entries `$1..$k` in entry order, binds each
      placeholder to its entry's value and binds the id to `$(k+1)`. */
  ghost predicate Numbers(st: Statement, s: Entries, id: Value)
  {
    && |st.sets| == |s|
    && |st.values| == |s| + 1
    && st.idParam == |s| + 1
    && (forall i :: 0 <= i < |s| ==> st.sets[i] == Assignment(s[i].0, i + 1))
    && (forall i :: 0 <= i < |s| ==> st.values[i] == s[i].1)
    && st.values[|s|] == id
  }

  /** One more entry of the patch extends the surviving entries by at most that entry. */
  lemma SurvivingStep(data: Entries, protected: set<string>, i: nat)
    requires i < |data|
    ensures Surviving(data[..i + 1], protected)
      == Surviving(data[..i], protected) + (if Kept(data[i], protected) then [data[i]] else [])
  {
    assert data[..i + 1][..i] == data[..i];
  }

  /** The SET list and the parameters built so far number the entries `s` as `$1..$k`. */
  ghost predicate Listed(sets: seq<Assignment>, values: seq<Value>, s: Entries)
  {
    && |sets| == |values| == |s|
    && (forall j :: 0 <= j < |s| ==> sets[j] == Assignment(s[j].0, j + 1))
    && (forall j :: 0 <= j < |s| ==> values[j] == s[j].1)
  }

  /** Pushing one more field and value keeps the numbering. */
  lemma ListedPush(sets: seq<Assignment>, values: seq<Value>, s: Entries, e: (string, Value))
    requires Listed(sets, values, s)
    ensures Listed(sets + [Assignment(e.0, |sets| + 1)], values + [e.1], s + [e])
  {
  }

  /** Binding the id after the listed values completes the statement. */
  lemma ListedNumbers(sets: seq<Assignment>, values: seq<Value>, s: Entries, id: Value)
    requires Listed(sets, values, s)
    ensures Numbers(Statement(sets, values + [id], |sets| + 1), s, id)
  {
  }

  /** The `Object.entries(data).forEach` loop: pushes `key = $paramCount` and the value for
      every entry that survives the filter. */
  method Collect(data: Entries, protected: set<string>) returns (sets: seq<Assignment>, values: seq<Value>)
    ensures Listed(sets, values, Surviving(data, protected))
  {
    sets, values := [], [];
    var paramCount := 1;
    var i := 0;
    ghost var s: Entries := [];
    while i < |data|
      invariant 0 <= i <= |data|
      invariant s == Surviving(data[..i], protected)
      invariant paramCount == |sets| + 1
      invariant Listed(sets, values, s)
    {
      var key, value := data[i].0, data[i].1;
      SurvivingStep(data, protected, i);
      if key !in protected && value != Undefined {
        ListedPush(sets, values, s, data[i]);
        sets := sets + [Assignment(key, paramCount)];
        values := values + [value];
        paramCount := paramCount + 1;
        s := s + [data[i]];
      }
      i := i + 1;
    }
    assert data[..|data|] == data;
  }

  /** The whole statement: null when no field survives (`fields.length === 0`), otherwise
      the SET list with the id bound after the values. */
  method Build(data: Entries, protected: set<string>, id: Value) returns (st: Option<Statement>)
    ensures st.None? <==> Surviving(data, protected) == []
    ensures st.Some? ==> Numbers(st.value, Surviving(data, protected), id)
  {
    var sets, values := Collect(data, protected);
    if |sets| == 0 {
      return None;
    }
    ListedNumbers(sets, values, Surviving(data, protected), id);
    st := Some(Statement(sets, values + [id], |sets| + 1));
  }

  /** Every placeholder of the statement has a parameter. */
  predicate WellFormed(st: Statement)
  {
    && 1 <= st.idParam <= |st.values|
    && forall a :: a in st.sets ==> 1 <= a.param <= |st.values|
  }

  /** The SET list applied to one row: item `column = $n` stores parameter n. */
  function RunSets(r: Row, sets: seq<Assignment>, values: seq<Value>): Row
    requires forall a :: a in sets ==> 1 <= a.param <= |values|
  {
    if sets == [] then r
    else
      var a := sets[|sets| - 1];
      assert forall b :: b in sets[..|sets| - 1] ==> b in sets;
      RunSets(r, sets[..|sets| - 1], values)[a.column := values[a.param - 1]]
  }

  /** The table after the statement runs: each row whose id equals parameter `idParam`
      receives the SET list. */
  function Run(rows: seq<Row>, st: Statement): seq<Row>
    requires WellFormed(st)
  {
    seq(|rows|, i requires 0 <= i < |rows| =>
      if Holds(ById(st.values[st.idParam - 1]), rows[i]) then RunSets(rows[i], st.sets, st.values) else rows[i])
  }

  lemma {:induction false} RunSetsAssigns(r: Row, st: Statement, s: Entries, id: Value, k: nat)
    requires Numbers(st, s, id) && k <= |s|
    ensures forall a :: a in st.sets[..k] ==> 1 <= a.param <= |st.values|
    ensures RunSets(r, st.sets[..k], st.values) == Assign(r, s[..k])
  {
    assert forall a :: a in st.sets[..k] ==> 1 <= a.param <= |st.values| by {
      forall a | a in st.sets[..k]
        ensures 1 <= a.param <= |st.values|
      {
        var m :| 0 <= m < k && st.sets[..k][m] == a;
        assert st.sets[m] == a;
      }
    }
    if k > 0 {
      RunSetsAssigns(r, st, s, id, k - 1);
      assert st.sets[..k][..k - 1] == st.sets[..k - 1];
      assert s[..k][..k - 1] == s[..k - 1];
    }
  }

  /** The generated statement does what the patch says: running it equals writing the
      surviving entries, in order, into the row with that id, and nothing else. */
  lemma RunMatchesPatch(rows: seq<Row>, st: Statement, s: Entries, id: Value)
    requires Numbers(st, s, id)
    ensures WellFormed(st)
    ensures Run(rows, st) == UpdateWhere(rows, ById(id), s)
  {
    RunSetsAssigns(map[], st, s, id, |s|);
    assert st.sets[..|s|] == st.sets && s[..|s|] == s;
    forall i | 0 <= i < |rows|
      ensures Run(rows, st)[i] == UpdateWhere(rows, ById(id), s)[i]
    {
      RunSetsAssigns(rows[i], st, s, id, |s|);
    }
  }

  /** An update through `Build` and `Run` never writes a protected column, in any row. */
  lemma SurvivingKeepsProtected(rows: seq<Row>, id: Value, data: Entries, protected: set<string>)
    ensures forall i, c :: 0 <= i < |rows| && c in protected ==>
      Col(UpdateWhere(rows, ById(id), Surviving(data, protected))[i], c) == Col(rows[i], c)
  {
    forall i, c | 0 <= i < |rows| && c in protected
      ensures Col(UpdateWhere(rows, ById(id), Surviving(data, protected))[i], c) == Col(rows[i], c)
    {
      AssignOther(rows[i], Surviving(data, protected), c);
    }
  }
}
