/**
  Processing a SELECT (apps/antelope/relation.c): the range derived from the compiled
  predicate picks an index, and the rows that the index names are tested one call at a
  time.  The main result is `Select`: a query, from its tokens to the end of its rows, yields
  the rows of a plain scan in the same order.
 */
module Selection {
  import opened Segments
  import opened Lvm
  import opened WhereCompiler
  import opened WhereMeaning
  import opened LvmDerive
  import LvmMachine
  import AqlParser
  import opened InlineIndex

  /** The values of the attributes of a tuple. */
  type Row = seq<long>

  /** An entry of attr_map: an attribute of the result, its column in the source relation,
      and whether it is copied to the result or only used by the predicate. */
  datatype Mapped = Mapped(name: string, column: nat, store: bool)

  datatype DbResult = DB_GOT_ROW | DB_OK | DB_FINISHED | DB_INDEX_ERROR

  /** attribute_find: the column of the first attribute of that name. */
  function ColumnFrom(names: seq<string>, name: string, i: nat): (c: nat)
    requires i <= |names|
    ensures i <= c <= |names|
    ensures c < |names| ==> names[c] == name
    ensures forall k :: i <= k < c ==> names[k] != name
    decreases |names| - i
  {
    if i == |names| || names[i] == name then i else ColumnFrom(names, name, i + 1)
  }

  function ColumnOf(names: seq<string>, name: string): (c: nat)
    ensures c <= |names| && (c < |names| ==> names[c] == name)
    ensures forall k :: 0 <= k < c ==> names[k] != name
  {
    ColumnFrom(names, name, 0)
  }

  /** What the names stand for in a row. */
  function RowEnv(names: seq<string>, row: Row): Env {
    n => var c := ColumnOf(names, n); if c < |row| then row[c] else 0
  }

  /** In a row every attribute name stands for the value in its own column. */
  lemma RowReads(names: seq<string>, row: Row, k: nat)
    requires |row| == |names| && k < |names| && forall i, j :: 0 <= i < j < |names| ==> names[i] != names[j]
    ensures RowEnv(names, row)(names[k]) == row[k]
  {
    assert ColumnOf(names, names[k]) == k;
  }

  /** The query: the relation, the predicate and what is copied to the result. */
  datatype Query = Query(names: seq<string>, rows: seq<Row>, attrMap: seq<Mapped>, clause: Clause, inverse: bool) {

    ghost predicate Valid() {
      && ValidClause(clause)
      && (forall row <- rows :: |row| == |names|)
      && (forall i, j :: 0 <= i < j < |names| ==> names[i] != names[j])
      && (forall a <- attrMap :: a.column == ColumnOf(names, a.name) < |names|)
      && (forall n <- ClauseNames(clause) :: exists k :: 0 <= k < |attrMap| && attrMap[k].name == n)
    }

    function Truth(row: Row): Status {
      ClauseTruth(RowEnv(names, row), clause)
    }

    /** The row is wanted: AQL_FLAG_INVERSE_LOGIC asks for the rows that fail the predicate. */
    predicate Accepts(row: Row) {
      Truth(row) == if inverse then FALSE else TRUE
    }

    function Project(row: Row): Row
      requires forall a <- attrMap :: a.column < |row|
    {
      ProjectFrom(row, 0)
    }

    function ProjectFrom(row: Row, i: nat): Row
      requires i <= |attrMap| && forall a <- attrMap :: a.column < |row|
      decreases |attrMap| - i
    {
      if i == |attrMap| then []
      else (if attrMap[i].store then [row[attrMap[i].column]] else []) + ProjectFrom(row, i + 1)
    }

    predicate InRange(ids: seq<nat>) {
      forall id <- ids :: id < |rows|
    }

    /** The result rows for a sequence of tuple ids. */
    ghost function Output(ids: seq<nat>): seq<Row>
      requires Valid() && InRange(ids)
    {
      if ids == [] then [] else
      assert ids[0] in ids && forall id <- ids[1..] :: id in ids;
      assert rows[ids[0]] in rows;
      (if Accepts(rows[ids[0]]) then [Project(rows[ids[0]])] else []) + Output(ids[1..])
    }

    /** What a scan of the whole relation yields. */
    ghost function ScanOutput(): seq<Row>
      requires Valid()
    {
      IdsBound(0, |rows| - 1);
      Output(Ids(0, |rows| - 1))
    }
  }

  // ----- what the result rows are --------------------------------------------------------------

  /** How many of the first `k` attributes are stored. */
  function StoredBefore(attrMap: seq<Mapped>, k: nat): nat
    requires k <= |attrMap|
  {
    if k == 0 then 0 else StoredBefore(attrMap, k - 1) + if attrMap[k - 1].store then 1 else 0
  }

  lemma {:induction false} StoredGrows(attrMap: seq<Mapped>, j: nat, k: nat)
    requires j <= k <= |attrMap|
    ensures StoredBefore(attrMap, j) <= StoredBefore(attrMap, k) <= StoredBefore(attrMap, j) + (k - j)
    decreases k - j
  {
    if j < k {
      StoredGrows(attrMap, j, k - 1);
    }
  }

  /** `r` holds the stored attributes of the row in their order, each read from its column. */
  ghost predicate IsResult(q: Query, row: Row, r: Row) {
    && |r| == StoredBefore(q.attrMap, |q.attrMap|)
    && forall k :: 0 <= k < |q.attrMap| && q.attrMap[k].store ==>
         var at := StoredBefore(q.attrMap, k);
         at < |r| && q.attrMap[k].column < |row| && r[at] == row[q.attrMap[k].column]
  }

  lemma {:induction false} ProjectFromIs(q: Query, row: Row, i: nat)
    requires i <= |q.attrMap| && forall a <- q.attrMap :: a.column < |row|
    ensures |q.ProjectFrom(row, i)| == StoredBefore(q.attrMap, |q.attrMap|) - StoredBefore(q.attrMap, i)
    ensures forall k :: i <= k < |q.attrMap| && q.attrMap[k].store ==>
              var at := StoredBefore(q.attrMap, k) - StoredBefore(q.attrMap, i);
              && 0 <= at < |q.ProjectFrom(row, i)| && q.attrMap[k].column < |row|
              && q.ProjectFrom(row, i)[at] == row[q.attrMap[k].column]
    decreases |q.attrMap| - i
  {
    if i < |q.attrMap| {
      ProjectFromIs(q, row, i + 1);
      assert q.attrMap[i] in q.attrMap;
      forall k | i < k < |q.attrMap|
        ensures StoredBefore(q.attrMap, i + 1) <= StoredBefore(q.attrMap, k)
      {
        StoredGrows(q.attrMap, i + 1, k);
      }
    }
  }

  lemma ProjectIs(q: Query, row: Row)
    requires forall a <- q.attrMap :: a.column < |row|
    ensures IsResult(q, row, q.Project(row))
  {
    ProjectFromIs(q, row, 0);
  }

  /** At most one row is the result of a row. */
  lemma ResultUnique(q: Query, row: Row, r: Row, t: Row)
    requires IsResult(q, row, r) && IsResult(q, row, t)
    ensures r == t
  {
    forall j | 0 <= j < |r|
      ensures r[j] == t[j]
    {
      var k := StoredAt(q.attrMap, |q.attrMap|, j);
    }
  }

  /** The attribute that is stored at position `j`. */
  lemma {:induction false} StoredAt(attrMap: seq<Mapped>, n: nat, j: nat) returns (k: nat)
    requires n <= |attrMap| && j < StoredBefore(attrMap, n)
    ensures k < n && attrMap[k].store && StoredBefore(attrMap, k) == j
    decreases n
  {
    if StoredBefore(attrMap, n - 1) <= j {
      k := n - 1;
    } else {
      k := StoredAt(attrMap, n - 1, j);
    }
  }

  /** The accepted ones among the ids. */
  ghost function Wanted(q: Query, ids: seq<nat>): seq<nat>
    requires q.InRange(ids)
  {
    if ids == [] then [] else
    assert ids[0] in ids && forall id <- ids[1..] :: id in ids;
    (if q.Accepts(q.rows[ids[0]]) then [ids[0]] else []) + Wanted(q, ids[1..])
  }

  /** The rows of `rs` are the results of the rows of these ids, one by one. */
  ghost predicate AreResults(q: Query, ids: seq<nat>, rs: seq<Row>) {
    |rs| == |ids| && forall j :: 0 <= j < |ids| ==> ids[j] < |q.rows| && IsResult(q, q.rows[ids[j]], rs[j])
  }

  lemma {:induction false} OutputResults(q: Query, ids: seq<nat>)
    requires q.Valid() && q.InRange(ids)
    ensures AreResults(q, Wanted(q, ids), q.Output(ids))
    decreases ids
  {
    hide IsResult, Query.Accepts, Query.Project, Query.Valid, Query.Output;
    OutputStep(q, ids);
    if ids != [] {
      OutputResults(q, ids[1..]);
      if q.Accepts(q.rows[ids[0]]) {
        ProjectIs(q, q.rows[ids[0]]);
      }
    }
  }

  /** The accepted ids of a stretch of the relation: in order, and all of them. */
  lemma {:induction false} WantedExact(q: Query, from: nat, upto: int)
    requires upto < |q.rows|
    ensures q.InRange(Ids(from, upto))
    ensures var w := Wanted(q, Ids(from, upto));
            && (forall id :: id in w <==> from <= id <= upto && q.Accepts(q.rows[id]))
            && (forall i, j :: 0 <= i < j < |w| ==> w[i] < w[j])
    decreases upto - from
  {
    hide Query.Accepts, Query.InRange, Wanted, Ids;
    IdsRange(q, from, upto);
    if from <= upto {
      WantedExact(q, from + 1, upto);
      WantedFirst(q, from, upto);
      var rest := Wanted(q, Ids(from + 1, upto));
      assert forall i :: 0 <= i < |rest| ==> rest[i] in rest;
    } else {
      WantedNone(q, from, upto);
    }
  }

  lemma IdsRange(q: Query, from: nat, upto: int)
    requires upto < |q.rows|
    ensures q.InRange(Ids(from, upto))
  {
    IdsBound(from, upto);
  }

  lemma WantedFirst(q: Query, from: nat, upto: int)
    requires from <= upto < |q.rows|
    ensures q.InRange(Ids(from, upto)) && q.InRange(Ids(from + 1, upto))
    ensures Wanted(q, Ids(from, upto))
         == (if q.Accepts(q.rows[from]) then [from] else []) + Wanted(q, Ids(from + 1, upto))
  {
    hide Query.Accepts;
    IdsRange(q, from, upto);
    IdsRange(q, from + 1, upto);
    assert Ids(from, upto)[1..] == Ids(from + 1, upto);
  }

  lemma WantedNone(q: Query, from: nat, upto: int)
    requires upto < from
    ensures Ids(from, upto) == [] && q.InRange([]) && Wanted(q, []) == []
  {
  }

  /** The row makes the clause true or, for inverse logic, false. */
  predicate Meets(q: Query, id: nat)
    requires id < |q.rows|
  {
    ClauseTruth(RowEnv(q.names, q.rows[id]), q.clause) == if q.inverse then FALSE else TRUE
  }

  lemma MeetsAccepts(q: Query, id: nat)
    requires id < |q.rows|
    ensures Meets(q, id) <==> q.Accepts(q.rows[id])
  {
    hide ClauseTruth;
  }

  /** The rows are the results of exactly the rows that meet the clause, in the order of the relation. */
  ghost predicate ExactlyWanted(q: Query, rs: seq<Row>) {
    exists ids: seq<nat> :: AreResults(q, ids, rs) && AllWanted(q, ids)
  }

  ghost predicate AllWanted(q: Query, ids: seq<nat>) {
    && (forall i, j :: 0 <= i < j < |ids| ==> ids[i] < ids[j])
    && (forall id: nat :: id in ids <==> id < |q.rows| && Meets(q, id))
  }

  /** A scan yields the results of exactly the accepted rows, in the order of the relation. */
  lemma ScanExact(q: Query)
    requires q.Valid()
    ensures ExactlyWanted(q, q.ScanOutput())
  {
    hide Query.Accepts, Query.Output, IsResult, Ids, Meets;
    ScanIsOutput(q);
    WantedExact(q, 0, |q.rows| - 1);
    forall id: nat | id < |q.rows|
      ensures Meets(q, id) <==> q.Accepts(q.rows[id])
    {
      MeetsAccepts(q, id);
    }
    var ids := Ids(0, |q.rows| - 1);
    OutputResults(q, ids);
    assert AreResults(q, Wanted(q, ids), q.ScanOutput()) && AllWanted(q, Wanted(q, ids));
  }

  lemma {:induction false} IdsBound(from: nat, upto: int)
    ensures forall id <- Ids(from, upto) :: from <= id <= upto
    ensures |Ids(from, upto)| == if from <= upto then upto - from + 1 else 0
    decreases upto - from
  {
    if from <= upto {
      IdsBound(from + 1, upto);
    }
  }

  lemma {:induction false} IdsSplit(from: nat, mid: nat, upto: int)
    requires from <= mid <= upto + 1
    ensures Ids(from, upto) == Ids(from, mid - 1) + Ids(mid, upto)
    decreases mid - from
  {
    if from < mid {
      IdsSplit(from + 1, mid, upto);
    }
  }

  lemma OutputStep(q: Query, ids: seq<nat>)
    requires q.Valid() && q.InRange(ids)
    ensures ids == [] ==> q.Output(ids) == []
    ensures ids != [] ==>
              && ids[0] < |q.rows| && q.InRange(ids[1..]) && (forall a <- q.attrMap :: a.column < |q.rows[ids[0]]|)
              && q.Output(ids) == (if q.Accepts(q.rows[ids[0]]) then [q.Project(q.rows[ids[0]])] else [])
                  + q.Output(ids[1..])
  {
    hide Query.Accepts, Query.ProjectFrom, ClauseNames;
    if ids != [] {
      assert ids[0] in ids && forall id <- ids[1..] :: id in ids;
      assert q.rows[ids[0]] in q.rows;
    }
  }

  lemma {:induction false} OutputConcat(q: Query, a: seq<nat>, b: seq<nat>)
    requires q.Valid() && q.InRange(a + b)
    ensures q.InRange(a) && q.InRange(b)
    ensures q.Output(a + b) == q.Output(a) + q.Output(b)
    decreases a
  {
    hide Query.Output, Query.Accepts, Query.Project, Query.Valid;
    assert forall id <- a :: id in a + b;
    assert forall id <- b :: id in a + b;
    OutputStep(q, a);
    if a == [] {
      assert a + b == b;
    } else {
      OutputStep(q, a + b);
      assert (a + b)[1..] == a[1..] + b;
      OutputConcat(q, a[1..], b);
    }
  }

  lemma {:induction false} OutputNone(q: Query, ids: seq<nat>)
    requires q.Valid() && q.InRange(ids)
    ensures q.Output(ids) == [] <==> forall id <- ids :: !q.Accepts(q.rows[id])
    decreases ids
  {
    if ids != [] {
      assert ids[0] in ids;
      assert forall id <- ids[1..] :: id in ids;
      OutputNone(q, ids[1..]);
      assert forall id <- ids :: id == ids[0] || id in ids[1..];
    }
  }

  /** A scan is what comes before a span, the span, and what comes after it. */
  lemma ScanParts(q: Query, first: nat, last: nat)
    requires q.Valid() && first <= last < |q.rows|
    ensures q.InRange(Ids(0, first - 1))
    ensures q.InRange(Ids(first, last))
    ensures q.InRange(Ids(last + 1, |q.rows| - 1))
    ensures q.ScanOutput() == q.Output(Ids(0, first - 1)) + q.Output(Ids(first, last))
        + q.Output(Ids(last + 1, |q.rows| - 1))
  {
    hide Ids, Query.Output, Query.Accepts, Query.Valid;
    var n := |q.rows|;
    var a, b, c := Ids(0, first - 1), Ids(first, last), Ids(last + 1, n - 1);
    IdsBound(0, first - 1);
    IdsBound(first, last);
    IdsBound(last + 1, n - 1);
    IdsBound(0, n - 1);
    IdsSplit(0, first, n - 1);
    IdsSplit(first, last + 1, n - 1);
    assert Ids(0, n - 1) == a + (b + c);
    OutputConcat(q, a, b + c);
    OutputConcat(q, b, c);
  }

  lemma NoneWanted(q: Query, from: nat, upto: int)
    requires q.Valid() && upto < |q.rows|
    ensures q.InRange(Ids(from, upto))
    ensures q.Output(Ids(from, upto)) == [] <==> forall i :: from <= i <= upto ==> !q.Accepts(q.rows[i])
  {
    hide Ids, Query.Output, Query.Accepts;
    IdsBound(from, upto);
    IdsAll(from, upto);
    OutputNone(q, Ids(from, upto));
  }

  /** Looking only at the ids from `first` to `last` loses nothing iff no wanted row lies outside. */
  lemma SpanCompleteIff(q: Query, first: nat, last: nat)
    requires q.Valid() && first <= last < |q.rows|
    ensures q.InRange(Ids(first, last))
    ensures q.Output(Ids(first, last)) == q.ScanOutput() <==>
              forall i :: 0 <= i < |q.rows| && q.Accepts(q.rows[i]) ==> first <= i <= last
  {
    hide Ids, Query.Output, Query.Accepts, Query.ScanOutput;
    ScanParts(q, first, last);
    IdsBound(first, last);
    NoneWanted(q, 0, first - 1);
    NoneWanted(q, last + 1, |q.rows| - 1);
    var a, b, c := q.Output(Ids(0, first - 1)), q.Output(Ids(first, last)), q.Output(Ids(last + 1, |q.rows| - 1));
    assert b == a + b + c ==> |a| == 0 && |c| == 0;
    assert a == [] && c == [] ==> a + b + c == b;
  }

  lemma {:induction false} IdsAll(from: nat, upto: int)
    ensures forall i :: from <= i <= upto ==> i in Ids(from, upto)
    decreases upto - from
  {
    if from <= upto {
      IdsAll(from + 1, upto);
    }
  }

  // ----- the range of an indexed attribute ---------------------------------------------------

  /** The column of values that an inline index on attribute `k` searches. */
  ghost function Values(q: Query, k: nat): Column
    requires q.Valid() && k < |q.names|
  {
    seq(|q.rows|, i requires 0 <= i < |q.rows| => assert q.rows[i] in q.rows; q.rows[i][k])
  }

  /** The variables of the machine when it looks at a row. */
  function RowVals(t: seq<string>, env: Env): seq<long> {
    seq(|t|, i requires 0 <= i < |t| => env(t[i]))
  }

  /** On the values of a row the tree of the clause has the truth of the clause. */
  lemma RowTruth(q: Query, t: seq<string>, row: Row)
    requires Covers(t, ClauseNames(q.clause))
    ensures Lvm.Truth(RowVals(t, RowEnv(q.names, row)), ClauseTree(t, q.clause)) == q.Truth(row)
  {
    hide ClauseTruth, ClauseTree;
    var env := RowEnv(q.names, row);
    forall n <- ClauseNames(q.clause)
      ensures Lookup(t, n) < |RowVals(t, env)| && RowVals(t, env)[Lookup(t, n)] == env(n)
    {
      LookupStable(t, t, n);
    }
    ClauseTreeTruth(t, RowVals(t, env), env, q.clause);
  }

  /** A row that makes the predicate true lies in the range derived for the attribute. */
  lemma DerivedRangeHolds(q: Query, t: seq<string>, id: nat, k: nat, row: Row)
    requires q.Valid() && Covers(t, ClauseNames(q.clause)) && |t| == LVM_MAX_VARIABLE_ID
    requires id < |t| && k < |q.names| && t[id] == q.names[k]
    requires var p := ClauseTree(t, q.clause);
             Derivable(p) && Sound(p) && Ranges(p)[id].derived
    requires |row| == |q.names| && q.Truth(row) == TRUE
    ensures var r := Ranges(ClauseTree(t, q.clause))[id];
            r.min <= row[k] <= r.max
  {
    hide Query.Truth, Lvm.Truth, ClauseTree, DeriveTree;
    var vals := RowVals(t, RowEnv(q.names, row));
    RowTruth(q, t, row);
    assert InRanges(vals, Ranges(ClauseTree(t, q.clause)));
    assert In(vals[id], Ranges(ClauseTree(t, q.clause))[id]);
    assert ColumnOf(q.names, q.names[k]) == k;
  }

  /** A select whose index range is sound yields what the plain scan yields. */
  lemma IndexedScanComplete(q: Query, t: seq<string>, id: nat, k: nat)
    requires q.Valid() && !q.inverse && Covers(t, ClauseNames(q.clause)) && |t| == LVM_MAX_VARIABLE_ID
    requires id < |t| && k < |q.names| && t[id] == q.names[k]
    requires var p := ClauseTree(t, q.clause);
             Derivable(p) && Sound(p) && Ranges(p)[id].derived
    requires var r := Ranges(ClauseTree(t, q.clause))[id];
             Searchable(Values(q, k), r.min, r.max)
    ensures var r := Ranges(ClauseTree(t, q.clause))[id];
            var (first, last) := Span(Values(q, k), r.min, r.max);
            && q.InRange(Ids(first, last))
            && q.Output(Ids(first, last)) == q.ScanOutput()
  {
    hide ClauseTree, DeriveTree, Span, ClauseTruth;
    var r := Ranges(ClauseTree(t, q.clause))[id];
    var vals := Values(q, k);
    var (first, last) := Span(vals, r.min, r.max);
    SpanCovers(vals, r.min, r.max);
    forall i | 0 <= i < |q.rows| && q.Accepts(q.rows[i])
      ensures first <= i <= last
    {
      assert q.rows[i] in q.rows;
      assert vals[i] == q.rows[i][k];
      DerivedRangeHolds(q, t, id, k, q.rows[i]);
    }
    SpanCompleteIff(q, first, last);
  }

  /** A REMOVE keeps the rows that fail the predicate, yet it searches the index for the same
      range: it keeps them all iff the search returns every row, that is iff the upper bound lies
      above the last row but one, and the lower bound is the first value or lies below the second
      in a relation whose row count halves to zero. */
  lemma IndexedRemoveCompleteIff(q: Query, t: seq<string>, id: nat, k: nat)
    requires q.Valid() && q.inverse && Covers(t, ClauseNames(q.clause)) && |t| == LVM_MAX_VARIABLE_ID
    requires id < |t| && k < |q.names| && t[id] == q.names[k]
    requires var p := ClauseTree(t, q.clause);
             Derivable(p) && Sound(p) && Ranges(p)[id].derived
    requires var r := Ranges(ClauseTree(t, q.clause))[id];
             Searchable(Values(q, k), r.min, r.max)
    ensures var r := Ranges(ClauseTree(t, q.clause))[id];
            var (first, last) := Span(Values(q, k), r.min, r.max);
            && q.InRange(Ids(first, last))
            && (q.Output(Ids(first, last)) == q.ScanOutput() <==> Whole(Values(q, k), r.min, r.max))
  {
    hide ClauseTree, DeriveTree, Span, ClauseTruth, Whole, Ids, Increasing, Sound, Covers, ClauseNames, Query.Output,
      Query.ScanOutput, Query.Truth;
    var r := Ranges(ClauseTree(t, q.clause))[id];
    var vals := Values(q, k);
    var (first, last) := Span(vals, r.min, r.max);
    SpanCovers(vals, r.min, r.max);
    forall i | 0 <= i < |q.rows| && !(first <= i <= last)
      ensures q.Accepts(q.rows[i])
    {
      RowOutside(q, t, id, k, i);
    }
    if first > 0 {
      assert q.Accepts(q.rows[0]);
    }
    if last < |q.rows| - 1 {
      assert q.Accepts(q.rows[|q.rows| - 1]);
    }
    SpanCompleteIff(q, first, last);
    SpanWholeIff(vals, r.min, r.max);
  }

  /** A row whose value lies outside the derived range fails the predicate. */
  lemma RowOutside(q: Query, t: seq<string>, id: nat, k: nat, i: nat)
    requires q.Valid() && q.inverse && Covers(t, ClauseNames(q.clause)) && |t| == LVM_MAX_VARIABLE_ID
    requires id < |t| && k < |q.names| && t[id] == q.names[k] && i < |q.rows|
    requires var p := ClauseTree(t, q.clause);
             Derivable(p) && Sound(p) && Ranges(p)[id].derived
    requires var r := Ranges(ClauseTree(t, q.clause))[id];
             !(r.min <= Values(q, k)[i] <= r.max)
    ensures q.Accepts(q.rows[i])
  {
    hide ClauseTree, DeriveTree, ClauseTruth, Sound, Covers, ClauseNames, Query.Truth;
    assert q.rows[i] in q.rows;
    assert Values(q, k)[i] == q.rows[i][k];
    NoRowError(q, t, q.rows[i]);
    if q.Truth(q.rows[i]) == TRUE {
      DerivedRangeHolds(q, t, id, k, q.rows[i]);
    }
  }

  /** The comparison `name rel l`. */
  function Compared(name: string, rel: Operator, l: long): Comparison {
    Comparison(Chain(Ident(name), Done), rel, Chain(Num(l), Done))
  }

  lemma ComparedMeans(t: seq<string>, env: Env, name: string, rel: Operator, l: long)
    ensures var c := Compared(name, rel, l);
            && Cmp(rel, ChainTree(t, c.lhs), ChainTree(t, c.rhs))
                == Cmp(rel, Leaf(Variable(Lookup(t, name))), Leaf(Long(l)))
            && ComparisonTruth(env, c) == Compare(rel, env(name), l)
  {
    var c := Compared(name, rel, l);
    assert ChainTree(t, c.lhs) == OpsTree(t, Done, Leaf(Variable(Lookup(t, name))));
    assert ChainTree(t, c.rhs) == OpsTree(t, Done, Leaf(Long(l)));
    assert ChainValue(env, c.lhs) == OpsValue(env, Done, (TRUE, env(name)));
    assert ChainValue(env, c.rhs) == OpsValue(env, Done, (TRUE, l));
  }

  /** Of the rows 1 to 4 those with a >= 3 AND a <= 4 are to be removed. */
  function RemoveQuery(): Query {
    var clause := Link(Compared("a", GEQ, 3), AND, Last(Compared("a", LEQ, 4)));
    Query(["a"], [[1], [2], [3], [4]], [Mapped("a", 0, true)], clause, true)
  }

  lemma RemoveRange()
    ensures Ranges(ClauseTree(["a", "", "", ""], RemoveQuery().clause))[0] == Range(true, 3, 4)
  {
    var t := ["a", "", "", ""];
    var env: Env := _ => 0;
    ComparedMeans(t, env, "a", GEQ, 3);
    ComparedMeans(t, env, "a", LEQ, 4);
  }

  lemma RemoveQueryOk()
    ensures RemoveQuery().Valid()
    ensures Values(RemoveQuery(), 0) == [1, 2, 3, 4]
  {
    hide ClauseNames, Values;
    var q := RemoveQuery();
    RemoveNames();
    RemoveValues();
    assert q.attrMap[0].name == "a";
  }

  lemma RemoveNames()
    ensures ClauseNames(RemoveQuery().clause) == ["a", "a"]
  {
    var lower, upper := Compared("a", GEQ, 3), Compared("a", LEQ, 4);
    assert ChainNames(lower.lhs) == ["a"] && ChainNames(lower.rhs) == [];
    assert ChainNames(upper.lhs) == ["a"] && ChainNames(upper.rhs) == [];
  }

  lemma RemoveValues()
    requires RemoveQuery().Valid()
    ensures Values(RemoveQuery(), 0) == [1, 2, 3, 4]
  {
    hide ClauseNames, ValidClause;
  }

  lemma RemoveAccepts(id: nat)
    requires id < 4
    ensures RemoveQuery().Accepts(RemoveQuery().rows[id]) <==> id < 2
  {
    var q := RemoveQuery();
    var env := RowEnv(q.names, q.rows[id]);
    ComparedMeans([], env, "a", GEQ, 3);
    ComparedMeans([], env, "a", LEQ, 4);
    assert env("a") == id + 1;
  }

  /** Such a REMOVE: the search for the rows to go visits none of the rows to keep. */
  lemma RemoveLosesRows()
    ensures var q, t := RemoveQuery(), ["a", "", "", ""];
            && q.Valid()
            && Ranges(ClauseTree(t, q.clause))[0] == Range(true, 3, 4)
            && Values(q, 0) == [1, 2, 3, 4] && Span([1, 2, 3, 4], 3, 4) == (2, 3)
            && q.InRange(Ids(2, 3)) && q.Output(Ids(2, 3)) == []
            && q.ScanOutput() == [[1], [2]]
  {
    hide Query.Accepts, Query.Valid, Query.Output, Query.ScanOutput, Query.Project, ClauseTree, DeriveTree, Values,
      Ids, Search;
    var q := RemoveQuery();
    RemoveQueryOk();
    RemoveRange();
    RemoveOutput(2);
    RemoveOutput(0);
    RemoveSpan();
    assert q.ScanOutput() == q.Output(Ids(0, 3)) by { ScanIsOutput(q); }
    assert Ids(0, 3) == [0, 1, 2, 3] && Ids(2, 3) == [2, 3] by {
      IdsStep(3, 3);
      IdsStep(2, 3);
      IdsStep(1, 3);
      IdsStep(0, 3);
    }
  }

  lemma RemoveSpan()
    ensures Span([1, 2, 3, 4], 3, 4) == (2, 3)
  {
    var vals: Column := [1, 2, 3, 4];
    ProbeExact(vals, 3);
    ProbeExact(vals, 4);
    assert vals[2] == 3 && vals[3] == 4;
  }

  /** What the rows from `from` on contribute. */
  lemma RemoveOutput(from: nat)
    requires from <= 4
    ensures RemoveQuery().Valid() && RemoveQuery().InRange(Ids(from, 3))
    ensures RemoveQuery().Output(Ids(from, 3)) == if from == 0 then [[1], [2]] else if from == 1 then [[2]] else []
    decreases 4 - from
  {
    hide Query.Accepts, Query.Valid, Query.Output, Query.Project, Ids;
    var q := RemoveQuery();
    RemoveQueryOk();
    IdsBound(from, 3);
    IdsStep(from, 3);
    OutputStep(q, Ids(from, 3));
    if from < 4 {
      RemoveOutput(from + 1);
      RemoveAccepts(from);
      RemoveProject(from);
    }
  }

  lemma RemoveProject(id: nat)
    requires id < 4
    ensures RemoveQuery().Valid() && RemoveQuery().Project(RemoveQuery().rows[id]) == [id + 1]
  {
    RemoveQueryOk();
    var q := RemoveQuery();
    assert q.ProjectFrom(q.rows[id], 1) == [];
  }

  /** A derivable predicate cannot fail at run time. */
  lemma NoRowError(q: Query, t: seq<string>, row: Row)
    requires q.Valid() && Covers(t, ClauseNames(q.clause)) && |t| == LVM_MAX_VARIABLE_ID
    requires Derivable(ClauseTree(t, q.clause))
    ensures q.Truth(row) == TRUE || q.Truth(row) == FALSE
  {
    hide ClauseTruth, ClauseTree, DeriveTree;
    RowTruth(q, t, row);
    ClauseOk(q);
    ClauseTreeValid(t, q.clause);
    ClauseTreeFilled(t, q.clause);
    PlainMeaning(ClauseTree(t, q.clause));
    assert !Lvm.Truth(RowVals(t, RowEnv(q.names, row)), ClauseTree(t, q.clause)).IsError();
  }

  /** Deriving from the compiled clause gives the ranges of its tree. */
  lemma DeriveResult(q: Query, t: seq<string>, code: seq<Cell>)
    requires q.Valid() && Encode(ClauseTree(t, q.clause)) <= code
    ensures var r := Derive(code, 0, NO_RANGES);
            var p := ClauseTree(t, q.clause);
            (r.0, r.1) == DeriveTree(p, NO_RANGES)
            && (!r.0.IsError() ==> Derivable(p) && Ranges(p) == r.1)
  {
    hide ClauseTree, Encode, Derive, DeriveTree;
    var p := ClauseTree(t, q.clause);
    ClauseTreeValid(t, q.clause);
    assert Has(code, 0, Encode(p));
    DeriveMeaning(code, 0, p, NO_RANGES);
    DeriveStatus(p, NO_RANGES);
  }

  /** The trees of clauses compare values and variables. */
  lemma {:induction false} ClauseTreeFilled(t: seq<string>, w: Clause)
    ensures Filled(ClauseTree(t, w))
    decreases w
  {
    hide OpsTree;
    OpsTreeFilled(t, w.c.lhs.ops, Leaf(AtomOperand(t, w.c.lhs.first)));
    OpsTreeFilled(t, w.c.rhs.ops, Leaf(AtomOperand(t, w.c.rhs.first)));
    if w.Link? {
      ClauseTreeFilled(t, w.rest);
    }
  }

  lemma {:induction false} OpsTreeFilled(t: seq<string>, ops: Ops, left: Expr)
    requires left.Leaf? ==> !left.x.NoOperand?
    ensures var e := OpsTree(t, ops, left); e.Leaf? ==> !e.x.NoOperand?
    decreases ops
  {
    if ops.Step? {
      OpsTreeFilled(t, ops.more, Bin(ops.op, left, ArgTree(t, ops.arg)));
    }
  }

  lemma DeriveStatus(p: Pred, d: seq<Range>)
    requires Table(d)
    ensures var s := DeriveTree(p, d).0; s == TRUE || s == DERIVATION_ERROR
  {
  }

  /** The ids that a search of the derived range returns are enough, also when an equality
      search finds its value absent and returns none. */
  lemma IndexedRest(q: Query, t: seq<string>, id: nat, k: nat)
    requires q.Valid() && !q.inverse && Covers(t, ClauseNames(q.clause)) && |t| == LVM_MAX_VARIABLE_ID
    requires id < |t| && k < |q.names| && t[id] == q.names[k]
    requires var p := ClauseTree(t, q.clause);
             Derivable(p) && Sound(p) && Ranges(p)[id].derived
    requires var r := Ranges(ClauseTree(t, q.clause))[id];
             var vals := Values(q, k);
             Populated(vals) && Increasing(vals) && vals[0] <= r.min && vals[0] <= r.max
    ensures var r := Ranges(ClauseTree(t, q.clause))[id];
            var vals := Values(q, k);
            var ids := if r.min == r.max && r.min !in vals then []
                       else Ids(Span(vals, r.min, r.max).0, Span(vals, r.min, r.max).1);
            q.InRange(ids) && q.Output(ids) == q.ScanOutput()
  {
    hide ClauseTree, DeriveTree, Span, ClauseTruth, Increasing, Query.Valid, Covers, Sound,
      Query.ScanOutput;
    var r := Ranges(ClauseTree(t, q.clause))[id];
    var vals := Values(q, k);
    if r.min == r.max && r.min !in vals {
      AbsentValue(q, t, id, k);
    } else {
      IndexedScanComplete(q, t, id, k);
    }
  }

  lemma ScanIsOutput(q: Query)
    requires q.Valid()
    ensures q.InRange(Ids(0, |q.rows| - 1)) && q.ScanOutput() == q.Output(Ids(0, |q.rows| - 1))
  {
    IdsBound(0, |q.rows| - 1);
  }

  /** Where the derived range is a single value that no row has, no row is wanted. */
  lemma AbsentValue(q: Query, t: seq<string>, id: nat, k: nat)
    requires q.Valid() && !q.inverse && Covers(t, ClauseNames(q.clause)) && |t| == LVM_MAX_VARIABLE_ID
    requires id < |t| && k < |q.names| && t[id] == q.names[k]
    requires var p := ClauseTree(t, q.clause);
             Derivable(p) && Sound(p) && Ranges(p)[id].derived
    requires var r := Ranges(ClauseTree(t, q.clause))[id];
             r.min == r.max && r.min !in Values(q, k)
    ensures q.ScanOutput() == []
  {
    hide ClauseTree, DeriveTree, ClauseTruth, Sound, Covers, ClauseNames, Query.ScanOutput;
    hide Query.Accepts, Query.Output, Values, Derivable;
    forall i | 0 <= i < |q.rows|
      ensures !q.Accepts(q.rows[i])
    {
      AbsentRow(q, t, id, k, i);
    }
    NoneWanted(q, 0, |q.rows| - 1);
    assert q.ScanOutput() == [] by { ScanIsOutput(q); }
  }

  lemma AbsentRow(q: Query, t: seq<string>, id: nat, k: nat, i: nat)
    requires q.Valid() && !q.inverse && Covers(t, ClauseNames(q.clause)) && |t| == LVM_MAX_VARIABLE_ID
    requires id < |t| && k < |q.names| && t[id] == q.names[k] && i < |q.rows|
    requires var p := ClauseTree(t, q.clause);
             Derivable(p) && Sound(p) && Ranges(p)[id].derived
    requires var r := Ranges(ClauseTree(t, q.clause))[id];
             r.min == r.max && r.min !in Values(q, k)
    ensures !q.Accepts(q.rows[i])
  {
    hide ClauseTree, DeriveTree, ClauseTruth, Sound, Covers, ClauseNames, Values, Derivable, Ranges,
      Query.Valid, Query.Truth;
    RowValue(q, k, i);
    if q.Truth(q.rows[i]) == TRUE {
      DerivedRangeHolds(q, t, id, k, q.rows[i]);
    }
  }

  lemma RowValue(q: Query, k: nat, i: nat)
    requires q.Valid() && k < |q.names| && i < |q.rows|
    ensures |q.rows[i]| == |q.names| && q.rows[i][k] in Values(q, k)
  {
    hide ClauseNames;
    assert q.rows[i] in q.rows;
    assert Values(q, k)[i] == q.rows[i][k];
  }

  // ----- which index is chosen ------------------------------------------------------------------

  const NO_RANGE: Range := Range(false, 0, 0)

  /** The range of a name in the table of derivations: that of its first slot. */
  function RangeOf(t: seq<string>, d: seq<Range>, name: string): (r: Range)
    requires |t| == |d|
    ensures name !in t ==> r == NO_RANGE
    ensures forall i :: 0 <= i < |t| && t[i] == name && name !in t[..i] ==> r == d[i]
  {
    var c := ColumnOf(t, name);
    assert c < |t| ==> forall i :: c < i < |t| ==> t[..i][c] == name;
    if c < |t| then d[c] else NO_RANGE
  }

  /** What select_index looks at: for every attribute with an index its derived range. */
  function Offers(names: seq<string>, indexed: seq<bool>, t: seq<string>, d: seq<Range>): (r: seq<Range>)
    requires |indexed| == |names| && |t| == |d|
    ensures |r| == |names|
  {
    seq(|names|, k requires 0 <= k < |names| => if indexed[k] then RangeOf(t, d, names[k]) else NO_RANGE)
  }

  /** The choice among the first `n` attributes, -1 for none. */
  function LastOffer(offers: seq<Range>, n: nat): (k: int)
    requires n <= |offers|
    ensures -1 <= k < n
    ensures k >= 0 ==> offers[k].derived
    ensures forall j :: k < j < n ==> !offers[j].derived
  {
    if n == 0 || offers[n - 1].derived then n - 1 else LastOffer(offers, n - 1)
  }

  lemma LastOfferStep(offers: seq<Range>, n: nat)
    requires n < |offers|
    ensures LastOffer(offers, n + 1) == if offers[n].derived then n else LastOffer(offers, n)
    ensures LastOffer(offers, 0) == -1
  {
  }

  /** The number of values behind the first one, as the source subtracts: without sign. */
  function Width(r: Range): nat { ((r.max as int) - r.min) % 0x1_0000_0000 }

  /** The choice has the smallest range iff no offer before it has a smaller one. */
  lemma SmallestChosenIff(offers: seq<Range>)
    requires LastOffer(offers, |offers|) >= 0
    ensures var k := LastOffer(offers, |offers|);
            (forall j :: 0 <= j < |offers| && offers[j].derived ==> Width(offers[k]) <= Width(offers[j])) <==>
            (forall j :: 0 <= j < k && offers[j].derived ==> Width(offers[k]) <= Width(offers[j]))
  {
  }

  /** The tree of `a = 5 AND b >= 0`. */
  lemma WiderTree()
    ensures ClauseTree(["a", "b", "", ""], Link(Compared("a", EQ, 5), AND, Last(Compared("b", GEQ, 0))))
         == Both(AND, Cmp(EQ, Leaf(Variable(0)), Leaf(Long(5))), Cmp(GEQ, Leaf(Variable(1)), Leaf(Long(0))))
  {
    hide Compared, Lookup, ChainTree;
    var t, env: Env := ["a", "b", "", ""], _ => 0;
    WiderSlots();
    ComparedMeans(t, env, "a", EQ, 5);
    ComparedMeans(t, env, "b", GEQ, 0);
    assert Compared("a", EQ, 5).rel == EQ && Compared("b", GEQ, 0).rel == GEQ by {
      CompareRel("a", EQ, 5);
      CompareRel("b", GEQ, 0);
    }
  }

  lemma WiderSlots()
    ensures Lookup(["a", "b", "", ""], "a") == 0 && Lookup(["a", "b", "", ""], "b") == 1
  {
    var t := ["a", "b", "", ""];
    assert t[0] != "b" && t[1] == "b";
  }

  lemma CompareRel(name: string, rel: Operator, l: long)
    ensures Compared(name, rel, l).rel == rel
  {
  }

  /** For it and an index on both attributes the search goes through the range of b, though that
      of a is a single value. */
  lemma WiderRangeChosen()
    ensures var t := ["a", "b", "", ""];
            var p := ClauseTree(t, Link(Compared("a", EQ, 5), AND, Last(Compared("b", GEQ, 0))));
            var offers := Offers(["a", "b"], [true, true], t, Ranges(p));
            && Derivable(p) && offers == [Range(true, 5, 5), Range(true, 0, LONG_MAX)]
            && LastOffer(offers, 2) == 1 && Width(offers[0]) < Width(offers[1])
  {
    hide ClauseTree, Compared;
    WiderTree();
    var p := ClauseTree(["a", "b", "", ""], Link(Compared("a", EQ, 5), AND, Last(Compared("b", GEQ, 0))));
    assert Ranges(p) == [Range(true, 5, 5), Range(true, 0, LONG_MAX), NO_RANGE, NO_RANGE];
  }

  /** The variable slot that an offer comes from. */
  lemma OfferSlot(names: seq<string>, indexed: seq<bool>, t: seq<string>, d: seq<Range>, k: nat) returns (i: nat)
    requires |indexed| == |names| && |t| == |d| && k < |names| && Offers(names, indexed, t, d)[k].derived
    ensures i < |t| && t[i] == names[k] && d[i] == Offers(names, indexed, t, d)[k] && indexed[k]
  {
    i := ColumnOf(t, names[k]);
  }

  lemma RangeFound(t: seq<string>, d: seq<Range>, name: string, found: bool, min: long, max: long)
    requires |t| == |d|
    requires found <==> exists i :: 0 <= i < |t| && t[i] == name && name !in t[..i] && d[i].derived
    requires found ==> exists i :: 0 <= i < |t| && t[i] == name && name !in t[..i] && d[i] == Range(true, min, max)
    ensures found <==> RangeOf(t, d, name).derived
    ensures found ==> RangeOf(t, d, name) == Range(true, min, max)
  {
    var c := ColumnOf(t, name);
    if c < |t| {
      assert RangeOf(t, d, name) == d[c];
    }
  }

  function Indexed(indexes: seq<InlineIndex.Index?>): (r: seq<bool>)
    ensures |r| == |indexes|
  {
    seq(|indexes|, k requires 0 <= k < |indexes| => indexes[k] != null)
  }

  /** Every index is an index on its attribute. */
  ghost predicate IndexesOf(q: Query, indexes: seq<InlineIndex.Index?>)
    requires q.Valid()
  {
    && |indexes| == |q.names|
    && forall k :: 0 <= k < |indexes| && indexes[k] != null ==> indexes[k].vals == Values(q, k)
  }

  lemma IndexesMatch(q: Query, indexes: seq<InlineIndex.Index?>)
    requires q.Valid() && IndexesOf(q, indexes)
    ensures |indexes| == |q.names|
  {
  }

  /** One of the first `n` attributes that a row loads is looked up to the slot behind the declared
      table. */
  predicate StoresBehind(q: Query, t: seq<string>, n: nat)
    requires n <= |q.attrMap|
  {
    exists k :: 0 <= k < n && Lookup(t, q.attrMap[k].name) == DECLARED_VARIABLES
  }

  // ----- the query in progress ----------------------------------------------------------------

  class Handle {
    const query: Query
    const vm: LvmMachine.Instance
    const indexes: seq<InlineIndex.Index?>   // the index of every attribute, if it has one
    var searchIndex: bool                    // DB_HANDLE_FLAG_SEARCH_INDEX
    var index: InlineIndex.Index?
    var iteration: InlineIndex.Iteration?
    var tupleId: nat
    var currentRow: nat
    var resultRow: Row

    /** relation_select, for a machine that holds the compiled clause of the query. */
    constructor (query: Query, vm: LvmMachine.Instance, indexes: seq<InlineIndex.Index?>)
      requires query.Valid() && vm.Valid() && IndexesOf(query, indexes)
      requires Encode(ClauseTree(vm.names[..], query.clause)) <= vm.code[..]
      requires Covers(vm.names[..], ClauseNames(query.clause))
      ensures this.query == query && this.vm == vm && this.indexes == indexes
      ensures Valid() && !searchIndex
    {
      this.query, this.vm, this.indexes := query, vm, indexes;
      searchIndex, index, iteration, tupleId, currentRow, resultRow := false, null, null, 0, 0, [];
    }

    /** The machine holds the compiled clause, and the indexes are those of the relation. */
    ghost predicate Valid()
      reads this`searchIndex, this`index, this`iteration, vm.code, vm.names
    {
      && query.Valid() && vm.Valid()
      && Encode(ClauseTree(vm.names[..], query.clause)) <= vm.code[..]
      && Covers(vm.names[..], ClauseNames(query.clause))
      && IndexesOf(query, indexes)
      && (if searchIndex then
            index != null && iteration != null && exists k :: 0 <= k < |indexes| && indexes[k] == index
          else index == null && iteration == null)
    }

    /** A search of the chosen index is defined and names rows of the relation only. */
    ghost predicate Ready()
      reads this`searchIndex, this`index, this`iteration, this`tupleId, vm.code, vm.names, index, iteration
    {
      && Valid()
      && (searchIndex ==> index.Defined(iteration) && query.InRange(index.Rest(iteration)))
    }

    /** The result rows still to come. */
    ghost function Remaining(): seq<Row>
      requires Ready()
      reads this`searchIndex, this`index, this`iteration, this`tupleId, vm.code, vm.names, index, iteration
    {
      if searchIndex then query.Output(index.Rest(iteration))
      else
        IdsBound(tupleId, |query.rows| - 1);
        query.Output(Ids(tupleId, |query.rows| - 1))
    }

    /** How many rows the scan can still look at. */
    ghost function Left(): nat
      requires Ready()
      reads this`searchIndex, this`index, this`iteration, this`tupleId, vm.code, vm.names, index, iteration
    {
      if searchIndex then |index.Rest(iteration)|
      else if tupleId < |query.rows| then |query.rows| - tupleId else 0
    }

    /** What select_index looks at. */
    ghost function Offered(): (r: seq<Range>)
      requires vm.Valid() && |indexes| == |query.names|
      reads vm.names, vm.derivations
      ensures |r| == |query.names|
    {
      Offers(query.names, Indexed(indexes), vm.names[..], vm.derivations[..])
    }

    /** The index of the last offer is being searched, for the offered range. */
    ghost predicate Selected()
      requires Valid()
      reads this`searchIndex, this`index, this`iteration, iteration, vm.code, vm.names, vm.derivations
    {
      var k := LastOffer(Offered(), |indexes|);
      && (searchIndex <==> k >= 0)
      && (searchIndex ==> index == indexes[k] && Range(true, iteration.min, iteration.max) == Offered()[k])
    }

    /** select_index: the last attribute with an index and a derived range wins. */
    method SelectIndex()
      requires Valid() && !searchIndex
      modifies this`searchIndex, this`index, this`iteration
      ensures Valid() && Selected()
      ensures searchIndex ==> fresh(iteration) && iteration.nextItemNo == 0
    {
      hide Query.Valid, ClauseTree, Encode, Covers, Values, RangeOf, ClauseNames, IndexesOf, LastOffer;
      IndexesMatch(query, indexes);
      var chosen: InlineIndex.Index? := null;
      var low: long, high: long := 0, 0;
      ghost var offers := Offered();
      assert LastOffer(offers, 0) == -1;
      for a := 0 to |indexes|
        invariant !searchIndex && Valid()
        invariant var k := LastOffer(offers, a);
                  if k < 0 then chosen == null
                  else chosen != null && chosen == indexes[k] && Range(true, low, high) == offers[k]
      {
        var found, min, max := vm.GetDerivedRange(query.names[a]);
        RangeFound(vm.names[..], vm.derivations[..], query.names[a], found, min, max);
        LastOfferStep(offers, a);
        if indexes[a] != null && found {
          chosen, low, high := indexes[a], min, max;
        }
      }
      if chosen != null {
        index := chosen;
        iteration := new InlineIndex.Iteration(low, high);
        searchIndex := true;
      }
    }

    /**
      generate_selection_result: derives the ranges of the compiled predicate and chooses an
      index.  A chosen index changes nothing about the rows to come, provided the derivation is
      sound for the predicate and the bounds do not lie below the first value of the column.
     */
    method Begin()
      requires Valid() && !searchIndex && vm.ip == 0 && vm.derivations[..] == NO_RANGES
      modifies this, vm`ip, vm`overrun, vm.derivations
      ensures Valid() && currentRow == 0 && tupleId == 0
      ensures vm.derivations[..] == DeriveTree(ClauseTree(vm.names[..], query.clause), NO_RANGES).1
      ensures vm.overrun <==> old(vm.overrun) || vm.derivations[DECLARED_VARIABLES] != NO_RANGE
      ensures !searchIndex ==> Ready() && Remaining() == query.ScanOutput()
      ensures var p := ClauseTree(vm.names[..], query.clause);
              if Derivable(p) then Selected() && vm.derivations[..] == Ranges(p) else !searchIndex
      ensures searchIndex ==>
                var p := ClauseTree(vm.names[..], query.clause);
                && fresh(iteration) && iteration.nextItemNo == 0
                && (!query.inverse && Sound(p) && index.Defined(iteration) ==>
                      Ready() && Remaining() == query.ScanOutput())
    {
      hide Query.Valid, ClauseTree, Encode, Covers, Values, ClauseNames, Sound, DeriveTree, Derive;
      hide RangeOf, LastOffer;
      currentRow, tupleId := 0, 0;
      ghost var t := vm.names[..];
      ghost var p := ClauseTree(t, query.clause);
      var status := vm.Derive();
      DeriveResult(query, t, vm.code[..]);
      IdsBound(0, |query.rows| - 1);
      if !status.IsError() {
        SelectIndex();
        if searchIndex {
          ghost var k := LastOffer(Offered(), |indexes|);
          ghost var i := OfferSlot(query.names, Indexed(indexes), t, vm.derivations[..], k);
          if !query.inverse && Sound(p) && index.Defined(iteration) {
            IndexedRest(query, t, i, k);
          }
        }
      }
    }

    /** The loop over attr_map in relation_process_select. */
    method LoadRow(row: Row)
      requires Valid() && row in query.rows
      modifies this`resultRow, vm`overrun, vm.values
      ensures resultRow == query.Project(row) && IsResult(query, row, resultRow)
      ensures vm.overrun <==> old(vm.overrun) || StoresBehind(query, vm.names[..], |query.attrMap|)
      ensures Agree(vm.names[..], vm.values[..], RowEnv(query.names, row), ClauseNames(query.clause))
    {
      hide Query.Valid, ClauseTree, Encode, Covers, Values, ClauseNames, RowEnv, Stored, AllStored, Agree,
           Query.ProjectFrom, Lookup, ColumnOf, IsResult;
      var names := vm.names[..];
      MapOk(query, row);
      resultRow := [];
      NoneStored(query, names, vm.values[..], row);
      assert resultRow + query.ProjectFrom(row, 0) == query.Project(row);
      for k := 0 to |query.attrMap|
        invariant Valid()
        invariant resultRow + query.ProjectFrom(row, k) == query.Project(row)
        invariant AllStored(query, names, vm.values[..], row, k)
        invariant vm.overrun <==> old(vm.overrun) || StoresBehind(query, names, k)
      {
        var a := query.attrMap[k];
        assert a in query.attrMap;
        ProjectStep(query, row, k, resultRow);
        ghost var before := vm.values[..];
        var known := vm.SetVariableValue(a.name, row[a.column]);
        if a.store {
          resultRow := resultRow + [row[a.column]];
        }
        StoreOne(query, names, before, vm.values[..], row, k);
      }
      ProjectEnd(query, row);
      ProjectIs(query, row);
      AllStoredAgree(query, names, vm.values[..], row);
    }

    /** The row is copied and the predicate executed on it. */
    method TestRow(row: Row) returns (status: Status)
      requires Valid() && row in query.rows
      modifies this`resultRow, vm`ip, vm`overrun, vm.values
      ensures resultRow == query.Project(row) && status == query.Truth(row)
      ensures vm.overrun <==> old(vm.overrun) || StoresBehind(query, vm.names[..], |query.attrMap|)
    {
      hide Query.Valid, ClauseTree, Encode, Covers, Values, ClauseNames, RowEnv, ClauseTruth, Run;
      MapOk(query, row);
      LoadRow(row);
      status := vm.Execute();
      ClauseOk(query);
      ClauseTreeValid(vm.names[..], query.clause);
      ExecuteMeaning(vm.code[..], vm.values[..], ClauseTree(vm.names[..], query.clause));
      ClauseTreeTruth(vm.names[..], vm.values[..], RowEnv(query.names, row), query.clause);
    }

    /** The index is searched for a single value that no row has, and has not been asked yet. */
    predicate Absent()
      requires searchIndex ==> index != null && iteration != null
      reads this`searchIndex, this`index, this`iteration, iteration
    {
      searchIndex && iteration.nextItemNo == 0 && iteration.min == iteration.max && iteration.min !in index.vals
    }

    /** The index part of relation_process_select: DB_OK with the next id, or the end. */
    method NextFromIndex() returns (result: DbResult)
      requires Ready() && searchIndex
      modifies this`tupleId, index, iteration`nextItemNo
      ensures Ready()
      ensures var rest := old(index.Rest(iteration));
              match result
              case DB_OK => rest != [] && tupleId == rest[0] < |query.rows| && index.Rest(iteration) == rest[1..]
              case DB_FINISHED => rest == [] && index.Rest(iteration) == []
              case DB_INDEX_ERROR => rest == [] && index.Rest(iteration) == []
              case DB_GOT_ROW => false
      ensures result.DB_INDEX_ERROR? <==> old(Absent())
      ensures result.DB_OK? ==> !Absent()
    {
      hide Query.Valid, ClauseTree, Encode, Covers, ClauseNames, Increasing, Span;
      ghost var rest := index.Rest(iteration);
      ghost var k :| 0 <= k < |indexes| && indexes[k] == index;
      assert |index.vals| == |query.rows|;
      assert rest != [] ==> rest[0] in rest;
      assert rest != [] ==> forall id <- rest[1..] :: id in rest;
      RestEmpty(index, iteration);
      tupleId := index.GetNext(iteration);
      if tupleId == INVALID_TUPLE {
        if iteration.nextItemNo == 0 {
          return DB_INDEX_ERROR;
        }
        return DB_FINISHED;
      }
      return DB_OK;
    }

    /** relation_process_select, without aggregation. */
    method Process() returns (result: DbResult)
      requires Ready()
      modifies this`tupleId, this`currentRow, this`resultRow, vm`ip, vm`overrun, vm.values, index, iteration
      ensures Ready()
      ensures match result
              case DB_GOT_ROW => old(Remaining()) == [resultRow] + Remaining() && currentRow == old(currentRow) + 1
              case DB_OK => old(Remaining()) == Remaining() && currentRow == old(currentRow)
              case DB_FINISHED => old(Remaining()) == [] && Remaining() == [] && currentRow == old(currentRow)
              case DB_INDEX_ERROR => old(Remaining()) == [] && Remaining() == [] && currentRow == old(currentRow)
      ensures result.DB_INDEX_ERROR? <==> old(Absent())
      ensures result.DB_GOT_ROW? || result.DB_OK? <==> old(Left()) > 0
      ensures old(Left()) > 0 ==> Left() < old(Left()) && !Absent()
      ensures vm.overrun <==>
                old(vm.overrun) || (old(Left()) > 0 && StoresBehind(query, vm.names[..], |query.attrMap|))
    {
      hide Query.Valid, Query.Output, Query.Accepts, Query.InRange, ClauseTree, Encode, Covers, Values, ClauseNames,
        Run, Ids, IndexesOf, Query.Truth, Query.ProjectFrom, InlineIndex.Index.Rest, InlineIndex.Index.Defined;
      ghost var ids := if searchIndex then index.Rest(iteration) else Ids(tupleId, |query.rows| - 1);
      IdsStep(tupleId, |query.rows| - 1);
      IdsInRange(query, tupleId);
      IdsInRange(query, tupleId + 1);
      OutputStep(query, ids);
      if searchIndex {
        result := NextFromIndex();
        if result != DB_OK {
          return;
        }
      }
      if tupleId >= |query.rows| {
        tupleId := tupleId + 1;
        return DB_FINISHED;
      }
      var row := query.rows[tupleId];
      tupleId := tupleId + 1;
      var status := TestRow(row);
      AcceptsIs(query, row);
      if status == if query.inverse then FALSE else TRUE {
        currentRow := currentRow + 1;
        return DB_GOT_ROW;
      }
      return DB_OK;
    }

    /** The loop of a caller: rows are taken until neither DB_OK nor DB_GOT_ROW is returned. */
    method RunToEnd() returns (rows: seq<Row>, result: DbResult)
      requires Ready()
      modifies this`tupleId, this`currentRow, this`resultRow, vm`ip, vm`overrun, vm.values, index, iteration
      ensures Ready() && Remaining() == []
      ensures rows == old(Remaining()) && currentRow == old(currentRow) + |rows|
      ensures result == if old(Absent()) then DB_INDEX_ERROR else DB_FINISHED
      ensures vm.overrun <==>
                old(vm.overrun) || (old(Left()) > 0 && StoresBehind(query, vm.names[..], |query.attrMap|))
    {
      hide Query.Valid, Query.Output, Query.InRange, ClauseTree, Encode, Covers, Values, ClauseNames, Ids, IndexesOf,
        StoresBehind, InlineIndex.Index.Rest, InlineIndex.Index.Defined;
      rows := [];
      while true
        invariant Ready()
        invariant rows + Remaining() == old(Remaining()) && currentRow == old(currentRow) + |rows|
        invariant Absent() == old(Absent())
        invariant Left() <= old(Left())
        invariant vm.overrun <==>
                    old(vm.overrun) || (Left() < old(Left()) && StoresBehind(query, vm.names[..], |query.attrMap|))
        decreases Left()
      {
        result := Process();
        if result == DB_GOT_ROW {
          rows := rows + [resultRow];
        } else if result != DB_OK {
          return;
        }
      }
    }
  }

  // ----- a whole SELECT -------------------------------------------------------------------------

  /** The variable table that the parser leaves. */
  function Slots(q: Query): (t: seq<string>)
    ensures |t| == LVM_MAX_VARIABLE_ID
  {
    RegisterAll(EMPTY_TABLE, ClauseNames(q.clause))
  }

  /** The attribute whose index is searched for the query, and for which range; -1 for a scan. */
  function Choice(q: Query, indexed: seq<bool>): (r: (int, Range))
    requires |indexed| == |q.names|
    ensures -1 <= r.0 < |q.names|
  {
    var p := ClauseTree(Slots(q), q.clause);
    if !Derivable(p) then (-1, NO_RANGE) else
    var offers := Offers(q.names, indexed, Slots(q), Ranges(p));
    var k := LastOffer(offers, |offers|);
    (k, if k < 0 then NO_RANGE else offers[k])
  }

  /** A search, if there is one, is for the rows to return, through ranges that hold for them
      (`SoundIff` says when), and its bounds do not lie below the first value of the column. */
  ghost predicate Served(q: Query, indexed: seq<bool>)
    requires q.Valid() && |indexed| == |q.names|
  {
    var (k, r) := Choice(q, indexed);
    k >= 0 ==>
      var p, vals := ClauseTree(Slots(q), q.clause), Values(q, k);
      && !q.inverse && Sound(p)
      && Populated(vals) && Increasing(vals) && vals[0] <= r.min && vals[0] <= r.max
  }

  /** The search is for a single value that no row has. */
  ghost predicate SearchFails(q: Query, indexed: seq<bool>)
    requires q.Valid() && |indexed| == |q.names|
  {
    var (k, r) := Choice(q, indexed);
    k >= 0 && r.min == r.max && r.min !in Values(q, k)
  }

  /** a = 2 over the rows 1 and 3. */
  function AbsentQuery(): Query {
    Query(["a"], [[1], [3]], [Mapped("a", 0, true)], Last(Compared("a", EQ, 2)), false)
  }

  lemma AbsentTree()
    ensures Slots(AbsentQuery()) == ["a", "", "", ""]
    ensures ClauseTree(["a", "", "", ""], AbsentQuery().clause) == Cmp(EQ, Leaf(Variable(0)), Leaf(Long(2)))
  {
    var env: Env := _ => 0;
    ComparedMeans(["a", "", "", ""], env, "a", EQ, 2);
    assert ChainNames(Compared("a", EQ, 2).lhs) == ["a"] && ChainNames(Compared("a", EQ, 2).rhs) == [];
    assert ClauseNames(AbsentQuery().clause) == ["a"];
    assert RegisterAll(Register(EMPTY_TABLE, "a"), []) == ["a", "", "", ""];
  }

  lemma AbsentQueryOk()
    ensures AbsentQuery().Valid() && Values(AbsentQuery(), 0) == [1, 3]
  {
    var q := AbsentQuery();
    assert ChainNames(Compared("a", EQ, 2).lhs) == ["a"] && ChainNames(Compared("a", EQ, 2).rhs) == [];
    assert ClauseNames(q.clause) == ["a"];
    assert q.attrMap[0].name == "a";
  }

  /** Such a query: an index on a is searched, and the query ends in DB_INDEX_ERROR. */
  lemma AbsentValueFails()
    ensures var q := AbsentQuery();
            q.Valid() && Choice(q, [true]) == (0, Range(true, 2, 2)) && Served(q, [true]) && SearchFails(q, [true])
  {
    hide ClauseTree, Values, Slots, Query.Valid, Truth;
    var q := AbsentQuery();
    var p := Cmp(EQ, Leaf(Variable(0)), Leaf(Long(2)));
    AbsentTree();
    AbsentQueryOk();
    assert Ranges(p) == [Range(true, 2, 2), NO_RANGE, NO_RANGE, NO_RANGE];
    assert Offers(q.names, [true], Slots(q), Ranges(p)) == [Range(true, 2, 2)];
    assert Choice(q, [true]) == (0, Range(true, 2, 2));
    assert Sound(p) by {
      forall vals: seq<long> | LvmDerive.Row(vals) && Lvm.Truth(vals, p) == TRUE
        ensures InRanges(vals, Ranges(p))
      {
        ComparisonSound(p, vals);
      }
    }
  }

  /** Some row is looked at. */
  ghost predicate Visits(q: Query, indexed: seq<bool>)
    requires q.Valid() && |indexed| == |q.names|
  {
    if Choice(q, indexed).0 >= 0 then !SearchFails(q, indexed) else q.rows != []
  }

  /** Processing the query puts something behind the declared tables: a name, a range or a value. */
  ghost predicate LeavesTables(q: Query, indexed: seq<bool>)
    requires q.Valid() && |indexed| == |q.names|
  {
    || Overruns(Slots(q))
    || DeriveTree(ClauseTree(Slots(q), q.clause), NO_RANGES).1[DECLARED_VARIABLES] != NO_RANGE
    || (Visits(q, indexed) && StoresBehind(q, Slots(q), |q.attrMap|))
  }

  /**
    The tables are left iff the clause has more distinct names than they have entries, or a range
    is derived behind them, or the names fill the table and a row is looked at for a result with
    another attribute.
   */
  lemma LeavesTablesIff(q: Query, indexed: seq<bool>)
    requires q.Valid() && |indexed| == |q.names| && NamesFit(ClauseNames(q.clause))
    ensures var l := ClauseNames(q.clause);
            LeavesTables(q, indexed) <==>
              || |Distinct(l)| > DECLARED_VARIABLES
              || DeriveTree(ClauseTree(Slots(q), q.clause), NO_RANGES).1[DECLARED_VARIABLES] != NO_RANGE
              || (|Distinct(l)| == DECLARED_VARIABLES && Visits(q, indexed) && exists a <- q.attrMap :: a.name !in l)
  {
    hide Query.Valid, ClauseNames, ClauseTree, DeriveTree, RegisterAll, Visits;
    var l := ClauseNames(q.clause);
    TableOverrunIff(l);
    if !Overruns(Slots(q)) {
      forall k | 0 <= k < |q.attrMap|
        ensures Lookup(Slots(q), q.attrMap[k].name) == DECLARED_VARIABLES <==>
                  q.attrMap[k].name !in l && |Distinct(l)| == DECLARED_VARIABLES
      {
        OtherName(l, q.attrMap[k].name);
      }
    }
  }

  /** a = 1 AND b = 1 AND c = 1 AND d = 1. */
  function FourNames(): Clause {
    var last := Last(Compared("d", EQ, 1));
    Link(Compared("a", EQ, 1), AND, Link(Compared("b", EQ, 1), AND, Link(Compared("c", EQ, 1), AND, last)))
  }

  lemma ComparedNames(name: string, l: long)
    ensures ChainNames(Compared(name, EQ, l).lhs) + ChainNames(Compared(name, EQ, l).rhs) == [name]
  {
  }

  /** Such a clause: the name d is written behind the declared table. */
  lemma FourNamesLeave()
    ensures NamesFit(ClauseNames(FourNames())) && Overruns(RegisterAll(EMPTY_TABLE, ClauseNames(FourNames())))
  {
    hide RegisterAll, ClauseNames, FourNames;
    var l := ["a", "b", "c", "d"];
    TheFourNames();
    DistinctSize(l);
    TableOverrunIff(l);
  }

  lemma TheFourNames()
    ensures ClauseNames(FourNames()) == ["a", "b", "c", "d"]
  {
    hide Compared, ChainNames;
    ComparedNames("a", 1);
    ComparedNames("b", 1);
    ComparedNames("c", 1);
    ComparedNames("d", 1);
  }

  /** No comparison of one number with another. */
  predicate NoNumberPairs(w: Clause) {
    && (w.c.lhs.ops.Done? && w.c.rhs.ops.Done? ==> w.c.lhs.first.Ident? || w.c.rhs.first.Ident?)
    && (w.Link? ==> NoNumberPairs(w.rest))
  }

  lemma {:induction false} ClauseWithin(t: seq<string>, w: Clause, n: nat)
    requires NoNumberPairs(w) && forall m <- ClauseNames(w) :: Lookup(t, m) < n
    ensures Within(ClauseTree(t, w), n)
    decreases w
  {
    hide OpsTree, Lookup;
    ChainOperand(t, w.c.lhs);
    ChainOperand(t, w.c.rhs);
    assert forall m <- ChainNames(w.c.lhs) :: m in ClauseNames(w);
    assert forall m <- ChainNames(w.c.rhs) :: m in ClauseNames(w);
    if w.Link? {
      assert forall m <- ClauseNames(w.rest) :: m in ClauseNames(w);
      ClauseWithin(t, w.rest, n);
    }
  }

  lemma ChainOperand(t: seq<string>, c: Chain)
    ensures ChainTree(t, c).Leaf? <==> c.ops.Done?
    ensures c.ops.Done? && c.first.Ident? ==>
              c.first.name in ChainNames(c) && ChainTree(t, c) == Leaf(Variable(Lookup(t, c.first.name)))
    ensures c.ops.Done? && c.first.Num? ==> ChainTree(t, c) == Leaf(Long(c.first.l))
  {
    if c.ops.Step? {
      OpsNoLeaf(t, c.ops, Leaf(AtomOperand(t, c.first)));
    }
  }

  lemma {:induction false} OpsNoLeaf(t: seq<string>, ops: Ops, left: Expr)
    requires ops.Step? || !left.Leaf?
    ensures !OpsTree(t, ops, left).Leaf?
    decreases ops
  {
    if ops.Step? {
      OpsNoLeaf(t, ops.more, Bin(ops.op, left, ArgTree(t, ops.arg)));
    }
  }

  /** A clause without comparisons of numbers, with at most three names, and with three of them for
      a result of no other attributes: everything stays in the declared tables. */
  lemma ThreeNamesSuffice(q: Query, indexed: seq<bool>)
    requires q.Valid() && |indexed| == |q.names| && NamesFit(ClauseNames(q.clause)) && NoNumberPairs(q.clause)
    requires |Distinct(ClauseNames(q.clause))| <= DECLARED_VARIABLES
    requires |Distinct(ClauseNames(q.clause))| == DECLARED_VARIABLES ==>
               forall a <- q.attrMap :: a.name in ClauseNames(q.clause)
    ensures !LeavesTables(q, indexed)
  {
    hide Query.Valid, ClauseNames, ClauseTree, DeriveTree, Visits, Lookup;
    var l, t := ClauseNames(q.clause), Slots(q);
    LeavesTablesIff(q, indexed);
    TableOverrunIff(l);
    forall m <- l
      ensures Lookup(t, m) < DECLARED_VARIABLES
    {
      NameInside(l, m);
    }
    ClauseWithin(t, q.clause, DECLARED_VARIABLES);
    DerivesWithin(ClauseTree(t, q.clause), DECLARED_VARIABLES, NO_RANGES);
  }

  lemma NameInside(l: seq<string>, m: string)
    requires (forall n <- l :: ValidName(n)) && m in l && !Overruns(RegisterAll(EMPTY_TABLE, l))
    ensures Lookup(RegisterAll(EMPTY_TABLE, l), m) < DECLARED_VARIABLES
  {
    var t := RegisterAll(EMPTY_TABLE, l);
    RegisteredExactly(EMPTY_TABLE, l);
    RegisterAllExtends(EMPTY_TABLE, l);
    LookupStable(t, t, m);
    var k :| 0 <= k < |t| && t[k] == m;
  }

  /** What the parser leaves in the machine for the clause of a query. */
  lemma ParsedClause(q: Query, ts: seq<Token>, size: nat)
    requires q.Valid() && OneOpClause(q.clause) && NamesFit(ClauseNames(q.clause))
    requires Has(ts, 0, ClauseTokens(q.clause)) && Ends(ts, |ClauseTokens(q.clause)|)
    requires |EmitClause(EMPTY_TABLE, q.clause)| < size
    ensures var (status, s) := ParseWhere(ts, Fresh(0, size));
            && status.OK? && s.names == Slots(q) && Covers(Slots(q), ClauseNames(q.clause))
            && Encode(ClauseTree(Slots(q), q.clause)) <= s.buf.code
  {
    hide Has, Ends, ParseWhere, ClauseNames, EmitClause, Encode, ClauseTree, OneOpClause, Covers, NamesFit, RegisterAll,
      Query.Valid;
    ClauseOk(q);
    SmallClauseReaches(q.clause);
    ClauseCodeExact(Slots(q), q.clause);
    CodeLengthTable(Slots(q), EMPTY_TABLE, q.clause);
    WhereParse(ts, Fresh(0, size), q.clause, Slots(q));
  }

  /** aql_parse for the clause: a machine that holds its code and its names. */
  method Compile(query: Query, tokens: seq<Token>, size: nat) returns (vm: LvmMachine.Instance)
    requires query.Valid() && OneOpClause(query.clause) && NamesFit(ClauseNames(query.clause))
    requires Has(tokens, 0, ClauseTokens(query.clause)) && Ends(tokens, |ClauseTokens(query.clause)|)
    requires |EmitClause(EMPTY_TABLE, query.clause)| < size
    ensures fresh(vm) && fresh(vm.code) && fresh(vm.names) && fresh(vm.values) && fresh(vm.derivations)
    ensures vm.Valid() && vm.names[..] == Slots(query) && Covers(Slots(query), ClauseNames(query.clause))
    ensures Encode(ClauseTree(Slots(query), query.clause)) <= vm.code[..]
    ensures vm.ip == 0 && vm.derivations[..] == NO_RANGES && (vm.overrun <==> Overruns(Slots(query)))
  {
    hide Query.Valid, ClauseTree, Encode, EmitClause, Covers, ClauseNames, Has, Ends, ParseWhere, OneOpClause,
      RegisterAll, NamesFit;
    vm := new LvmMachine.Instance(size);
    var parser := new AqlParser.Parser(tokens, vm);
    ParsedClause(query, tokens, size);
    var status := parser.Where();
  }

  /**
    db_query for a SELECT and the loop of its caller: the clause is compiled, an index chosen, and
    rows are taken until the end.  They are the rows of a plain scan.  `overrun` says that the
    tables of the machine have been left, with the slot behind them empty before.
   */
  method Select(query: Query, tokens: seq<Token>, size: nat, indexes: seq<InlineIndex.Index?>)
    returns (rows: seq<Row>, result: DbResult, overrun: bool)
    requires query.Valid() && IndexesOf(query, indexes) && Served(query, Indexed(indexes))
    requires OneOpClause(query.clause) && NamesFit(ClauseNames(query.clause))
    requires Has(tokens, 0, ClauseTokens(query.clause)) && Ends(tokens, |ClauseTokens(query.clause)|)
    requires |EmitClause(EMPTY_TABLE, query.clause)| < size
    modifies indexes
    ensures rows == query.ScanOutput() && ExactlyWanted(query, rows)
    ensures result == if SearchFails(query, Indexed(indexes)) then DB_INDEX_ERROR else DB_FINISHED
    ensures overrun <==> LeavesTables(query, Indexed(indexes))
  {
    hide Query.Valid, Query.ScanOutput, Query.InRange, Query.Output, ClauseTree, Encode, EmitClause, Covers, Values,
      ClauseNames, Has, Ends, ParseWhere, OneOpClause, Sound, Derivable, Ranges, Offers,
      LastOffer, Increasing, StoresBehind, DeriveTree, RegisterAll, Overruns, NamesFit,
      ExactlyWanted;
    var vm := Compile(query, tokens, size);
    var handle := new Handle(query, vm, indexes);
    handle.Begin();
    if handle.searchIndex {
      RestEmpty(handle.index, handle.iteration);
    }
    rows, result := handle.RunToEnd();
    ScanExact(query);
    overrun := vm.overrun;
  }

  /** An iteration at its start has nothing to return iff it looks for a value that no row has. */
  lemma RestEmpty(index: InlineIndex.Index, it: InlineIndex.Iteration)
    requires index.Defined(it)
    ensures it.nextItemNo == 0 ==> (index.Rest(it) == [] <==> it.min == it.max && it.min !in index.vals)
  {
    if it.min != it.max || it.min in index.vals {
      SpanCovers(index.vals, it.min, it.max);
    }
  }

  lemma IdsInRange(q: Query, from: nat)
    ensures q.InRange(Ids(from, |q.rows| - 1))
  {
    IdsBound(from, |q.rows| - 1);
  }

  lemma AcceptsIs(q: Query, row: Row)
    ensures q.Accepts(row) <==> q.Truth(row) == if q.inverse then FALSE else TRUE
  {
  }

  /** The variable of a name of the table has its value. */
  predicate Stored(t: seq<string>, vals: seq<long>, n: string, env: Env) {
    Lookup(t, n) < |vals| && vals[Lookup(t, n)] == env(n)
  }

  lemma ClauseOk(q: Query)
    requires q.Valid()
    ensures ValidClause(q.clause)
  {
  }

  lemma MapOk(q: Query, row: Row)
    requires q.Valid() && row in q.rows
    ensures |row| == |q.names|
    ensures forall a <- q.attrMap :: a.column == ColumnOf(q.names, a.name) < |row|
  {
  }

  /** The first `n` entries of attr_map have been stored. */
  ghost predicate AllStored(q: Query, t: seq<string>, vals: seq<long>, row: Row, n: nat)
    requires n <= |q.attrMap|
  {
    forall j :: 0 <= j < n && q.attrMap[j].name in ClauseNames(q.clause) ==>
      Stored(t, vals, q.attrMap[j].name, RowEnv(q.names, row))
  }

  lemma NoneStored(q: Query, t: seq<string>, vals: seq<long>, row: Row)
    ensures AllStored(q, t, vals, row, 0)
  {
  }

  lemma ProjectStep(q: Query, row: Row, k: nat, r: Row)
    requires k < |q.attrMap| && forall a <- q.attrMap :: a.column < |row|
    ensures var a := q.attrMap[k];
            q.attrMap[k].column < |row|
            && r + q.ProjectFrom(row, k) == (if a.store then r + [row[a.column]] else r) + q.ProjectFrom(row, k + 1)
  {
    assert q.attrMap[k] in q.attrMap;
  }

  lemma ProjectEnd(q: Query, row: Row)
    requires forall a <- q.attrMap :: a.column < |row|
    ensures q.ProjectFrom(row, |q.attrMap|) == []
  {
  }

  lemma StoreOne(q: Query, t: seq<string>, before: seq<long>, after: seq<long>, row: Row, n: nat)
    requires q.Valid() && row in q.rows && Covers(t, ClauseNames(q.clause)) && |before| == |after| == |t|
    requires n < |q.attrMap| && AllStored(q, t, before, row, n)
    requires var a := q.attrMap[n];
             && a.column < |row|
             && after == if Lookup(t, a.name) < |t| then before[Lookup(t, a.name) := row[a.column]] else before
    ensures AllStored(q, t, after, row, n + 1)
  {
    hide ClauseNames;
    MapOk(q, row);
    var a := q.attrMap[n];
    assert a in q.attrMap;
    forall m <- ClauseNames(q.clause)
      ensures Lookup(t, m) < |t| && t[Lookup(t, m)] == m
    {
      LookupStable(t, t, m);
      var i :| 0 <= i < |t| && t[i] == m;
    }
    forall j | 0 <= j < n + 1 && q.attrMap[j].name in ClauseNames(q.clause)
      ensures Stored(t, after, q.attrMap[j].name, RowEnv(q.names, row))
    {
    }
  }

  lemma AllStoredAgree(q: Query, t: seq<string>, vals: seq<long>, row: Row)
    requires q.Valid() && AllStored(q, t, vals, row, |q.attrMap|)
    ensures Agree(t, vals, RowEnv(q.names, row), ClauseNames(q.clause))
  {
    hide ClauseNames;
    forall n <- ClauseNames(q.clause)
      ensures Stored(t, vals, n, RowEnv(q.names, row))
    {
      var k :| 0 <= k < |q.attrMap| && q.attrMap[k].name == n;
    }
  }
}
