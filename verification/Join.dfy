/**
  Processing a JOIN (apps/antelope/relation.c): a nested loop over the left relation
  and the index of the right one that returns to its caller in the middle of the inner
  loop after every row, and resumes there in the next call.
 */
module Join {

  type Row = seq<int>

  const INVALID_TUPLE: nat := 0xFFFF_FFFF

  datatype DbResult = DB_GOT_ROW | DB_FINISHED

  /** Where an attribute of the result comes from (struct source_map). */
  datatype Source = FromLeft(column: nat) | FromRight(column: nat)

  /** The two relations, the attributes joined on, and the attributes of the result. */
  datatype Query = Query(left: seq<Row>, right: seq<Row>, leftColumn: nat, rightColumn: nat, sources: seq<Source>,
                         lookup: int -> seq<nat>)
  {
    ghost predicate Valid() {
      && (forall l <- left :: leftColumn < |l| && forall s <- sources :: s.FromLeft? ==> s.column < |l|)
      && (forall r <- right :: forall s <- sources :: s.FromRight? ==> s.column < |r|)
      && |right| < INVALID_TUPLE
      && IndexExact()
    }

    /** Row `id` of the right relation has the value `v`. */
    predicate Matches(v: int, id: nat) {
      id < |right| && rightColumn < |right[id]| && right[id][rightColumn] == v
    }

    /** The index on the right attribute finds exactly the rows with a value, each once. */
    ghost predicate IndexExact() {
      && (forall v, id :: id in lookup(v) <==> Matches(v, id))
      && (forall v :: Distinct(lookup(v)))
    }

    /** The result attributes exist in the rows that they are taken from. */
    predicate Fits(l: Row, r: Row) {
      forall s <- sources :: if s.FromLeft? then s.column < |l| else s.column < |r|
    }

    function Key(i: nat): int
      requires i < |left| && leftColumn < |left[i]|
    {
      left[i][leftColumn]
    }

    /** The pairs of row numbers for one left row and some right rows. */
    function PairsWith(i: nat, ids: seq<nat>): seq<(nat, nat)> {
      if ids == [] then [] else [(i, ids[0])] + PairsWith(i, ids[1..])
    }

    /** The equi-join from left row `i` on: left rows in order, for each the index order. */
    ghost function PairsFrom(i: nat): seq<(nat, nat)>
      requires Valid()
      decreases |left| - i
    {
      if i >= |left| then [] else
      assert left[i] in left;
      PairsWith(i, lookup(Key(i))) + PairsFrom(i + 1)
    }

    ghost predicate PairOk(p: (nat, nat)) {
      p.0 < |left| && p.1 < |right|
    }

    /** The projection of a pair of rows to the attributes of the result. */
    function JoinRow(l: Row, r: Row, k: nat): Row
      requires k <= |sources|
      requires Fits(l, r)
      decreases |sources| - k
    {
      if k == |sources| then [] else
      assert sources[k] in sources;
      [if sources[k].FromLeft? then l[sources[k].column] else r[sources[k].column]] + JoinRow(l, r, k + 1)
    }
  }

  predicate Distinct(ids: seq<nat>) {
    forall i, j :: 0 <= i < j < |ids| ==> ids[i] != ids[j]
  }

  lemma LeftRowOk(q: Query, i: nat)
    requires q.Valid() && i < |q.left|
    ensures q.leftColumn < |q.left[i]|
    ensures forall id <- q.lookup(q.Key(i)) :: q.Matches(q.Key(i), id)
    ensures Distinct(q.lookup(q.Key(i)))
    ensures q.PairsFrom(i) == q.PairsWith(i, q.lookup(q.Key(i))) + q.PairsFrom(i + 1)
  {
    assert q.left[i] in q.left;
  }

  lemma PairFits(q: Query, i: nat, j: nat)
    requires q.Valid() && i < |q.left| && j < |q.right|
    ensures q.Fits(q.left[i], q.right[j])
  {
    assert q.left[i] in q.left && q.right[j] in q.right;
  }

  /** `row` has for every attribute of the result its value, taken from the left or the right row. */
  ghost predicate Joined(q: Query, l: Row, r: Row, row: Row) {
    && |row| == |q.sources|
    && forall k :: 0 <= k < |q.sources| ==>
         match q.sources[k]
         case FromLeft(column) => column < |l| && row[k] == l[column]
         case FromRight(column) => column < |r| && row[k] == r[column]
  }

  lemma {:induction false} JoinRowIs(q: Query, l: Row, r: Row, i: nat)
    requires i <= |q.sources| && q.Fits(l, r)
    ensures |q.JoinRow(l, r, i)| == |q.sources| - i
    ensures forall k :: i <= k < |q.sources| ==>
              match q.sources[k]
              case FromLeft(column) => column < |l| && q.JoinRow(l, r, i)[k - i] == l[column]
              case FromRight(column) => column < |r| && q.JoinRow(l, r, i)[k - i] == r[column]
    decreases |q.sources| - i
  {
    if i < |q.sources| {
      JoinRowIs(q, l, r, i + 1);
      assert q.sources[i] in q.sources;
    }
  }

  lemma JoinRowJoined(q: Query, l: Row, r: Row)
    requires q.Fits(l, r)
    ensures Joined(q, l, r, q.JoinRow(l, r, 0))
  {
    JoinRowIs(q, l, r, 0);
  }

  /** A pair occurs once in the join when its join attributes are equal, and else not at all. */
  lemma {:induction false} PairsExact(q: Query, n: nat, i: nat, j: nat)
    requires q.Valid() && i < |q.left| && j < |q.right|
    ensures q.leftColumn < |q.left[i]|
    ensures multiset(q.PairsFrom(n))[(i, j)] == if n <= i && q.Matches(q.Key(i), j) then 1 else 0
    decreases |q.left| - n
  {
    hide Query.PairsWith, Distinct;
    LeftRowOk(q, i);
    if n < |q.left| {
      LeftRowOk(q, n);
      var ids := q.lookup(q.Key(n));
      PairsWithCount(q, n, ids, i, j);
      PairsExact(q, n + 1, i, j);
      if n == i {
        DistinctCount(ids, j);
      }
    }
  }

  lemma {:induction false} PairsWithCount(q: Query, n: nat, ids: seq<nat>, i: nat, j: nat)
    ensures multiset(q.PairsWith(n, ids))[(i, j)] == if n == i then multiset(ids)[j] else 0
    decreases ids
  {
    if ids != [] {
      PairsWithCount(q, n, ids[1..], i, j);
      assert ids == [ids[0]] + ids[1..];
    }
  }

  lemma {:induction false} DistinctCount(ids: seq<nat>, j: nat)
    requires Distinct(ids)
    ensures multiset(ids)[j] == if j in ids then 1 else 0
    decreases ids
  {
    if ids != [] {
      DistinctCount(ids[1..], j);
      assert ids == [ids[0]] + ids[1..];
    }
  }

  /** The pairs come in the order of the left rows. */
  lemma {:induction false} PairsOrdered(q: Query, n: nat)
    requires q.Valid()
    ensures forall a, b :: 0 <= a < b < |q.PairsFrom(n)| ==> q.PairsFrom(n)[a].0 <= q.PairsFrom(n)[b].0
    ensures forall a :: 0 <= a < |q.PairsFrom(n)| ==> q.PairsFrom(n)[a].0 >= n
    decreases |q.left| - n
  {
    if n < |q.left| {
      LeftRowOk(q, n);
      PairsWithLeft(q, n, q.lookup(q.Key(n)));
      PairsOrdered(q, n + 1);
    }
  }

  lemma {:induction false} PairsWithLeft(q: Query, n: nat, ids: seq<nat>)
    ensures |q.PairsWith(n, ids)| == |ids|
    ensures forall a :: 0 <= a < |ids| ==> q.PairsWith(n, ids)[a] == (n, ids[a])
    decreases ids
  {
    if ids != [] {
      PairsWithLeft(q, n, ids[1..]);
    }
  }

  /** The joined row of a pair of rows. */
  ghost predicate RowOf(q: Query, p: (nat, nat), row: Row) {
    q.PairOk(p) && Joined(q, q.left[p.0], q.right[p.1], row)
  }

  /** The rows are those of the pairs, one by one. */
  ghost predicate AreJoined(q: Query, pairs: seq<(nat, nat)>, rows: seq<Row>) {
    && |rows| == |pairs|
    && forall k :: 0 <= k < |pairs| ==> RowOf(q, pairs[k], rows[k])
  }

  /** Every pair of rows with equal join attributes once and no other, in the order of the left rows. */
  ghost predicate AllPairs(q: Query, pairs: seq<(nat, nat)>) {
    && (forall a, b :: 0 <= a < b < |pairs| ==> pairs[a].0 <= pairs[b].0)
    && (forall i: nat, j: nat :: i < |q.left| && j < |q.right| ==>
          multiset(pairs)[(i, j)] == if Equal(q, i, j) then 1 else 0)
  }

  predicate Equal(q: Query, i: nat, j: nat)
    requires i < |q.left| && j < |q.right|
  {
    q.leftColumn < |q.left[i]| && q.rightColumn < |q.right[j]| && q.left[i][q.leftColumn] == q.right[j][q.rightColumn]
  }

  /** The equi-join. */
  ghost predicate EquiJoin(q: Query, rows: seq<Row>) {
    exists pairs: seq<(nat, nat)> :: AreJoined(q, pairs, rows) && AllPairs(q, pairs)
  }

  lemma PairsAll(q: Query)
    requires q.Valid()
    ensures AllPairs(q, q.PairsFrom(0))
  {
    hide Query.PairsFrom, Query.Valid;
    PairsOrdered(q, 0);
    forall i: nat, j: nat | i < |q.left| && j < |q.right|
      ensures multiset(q.PairsFrom(0))[(i, j)] == if Equal(q, i, j) then 1 else 0
    {
      PairsExact(q, 0, i, j);
    }
  }

  // ----- the query in progress -------------------------------------------------------------

  /** An index iterator for one value: index_get_iterator and index_get_next. */
  class Iteration {
    var pending: seq<nat>

    constructor ()
      ensures pending == []
    {
      pending := [];
    }

    method Start(ids: seq<nat>)
      modifies this
      ensures pending == ids
    {
      pending := ids;
    }

    method Next() returns (id: nat)
      modifies this
      ensures old(pending) == [] ==> id == INVALID_TUPLE && pending == []
      ensures old(pending) != [] ==> id == old(pending)[0] && pending == old(pending)[1..]
    {
      if pending == [] {
        return INVALID_TUPLE;
      }
      id := pending[0];
      pending := pending[1..];
    }
  }

  class Handle {
    const query: Query
    const iteration: Iteration
    var indexStep: bool       // DB_HANDLE_FLAG_INDEX_STEP
    var tupleId: nat
    var leftRow: Row
    var rightRow: Row
    var joinRow: Row
    var currentRow: nat

    /** relation_join leaves the handle before the first left row. */
    constructor (query: Query)
      requires query.Valid()
      ensures Valid() && indexStep && this.query == query && currentRow == 0 && fresh(iteration)
    {
      this.query := query;
      iteration := new Iteration();
      indexStep, tupleId, leftRow, rightRow, joinRow, currentRow := true, 0, [], [], [], 0;
    }

    /** Between two calls the handle is before the first left row, or inside the inner loop. */
    ghost predicate Valid()
      reads this, iteration
    {
      && query.Valid()
      && (!indexStep ==>
            && tupleId < |query.left| && leftRow == query.left[tupleId]
            && forall id <- iteration.pending :: id < |query.right|)
    }

    /** The pairs that are still to be joined. */
    ghost function Remaining(): seq<(nat, nat)>
      requires Valid()
      reads this, iteration
    {
      if indexStep then query.PairsFrom(0)
      else query.PairsWith(tupleId, iteration.pending) + query.PairsFrom(tupleId + 1)
    }

    /** relation_process_join: the next pair, projected, or the end.  After the end the handle
        is where it was before the first call. */
    method Process() returns (result: DbResult)
      requires Valid()
      modifies this, iteration
      ensures Valid()
      ensures var todo := old(Remaining());
              if todo == [] then result == DB_FINISHED && indexStep && currentRow == old(currentRow)
              else
                && result == DB_GOT_ROW && !indexStep && Remaining() == todo[1..]
                && currentRow == old(currentRow) + 1 && RowOf(query, todo[0], joinRow)
    {
      hide Query.Valid, Query.PairsFrom, RowOf;
      ghost var todo := Remaining();
      if !indexStep {
        result := Inner(todo);
        if result == DB_GOT_ROW {
          return;
        }
        tupleId := tupleId + 1;
      } else {
        tupleId := 0;
      }
      while true
        invariant Valid() && indexStep && todo == query.PairsFrom(tupleId)
        invariant currentRow == old(currentRow)
        decreases |query.left| - tupleId
      {
        if tupleId >= |query.left| {
          NoPairs(query, tupleId);
          return DB_FINISHED;
        }
        LeftRowOk(query, tupleId);
        leftRow := query.left[tupleId];
        iteration.Start(query.lookup(leftRow[query.leftColumn]));
        indexStep := false;
        result := Inner(todo);
        if result == DB_GOT_ROW {
          return;
        }
        tupleId := tupleId + 1;
      }
    }

    /** The loop of a caller: the rows of all pairs that are left, and the end. */
    method RunToEnd() returns (rows: seq<Row>)
      requires Valid()
      modifies this, iteration
      ensures Valid() && indexStep && AreJoined(query, old(Remaining()), rows)
    {
      hide Query.Valid, Query.PairsFrom, Query.PairsWith, RowOf;
      ghost var todo, n := Remaining(), 0;
      rows := [];
      var result := Process();
      assert todo[0..] == todo;
      while result == DB_GOT_ROW
        invariant Valid() && n <= |todo| && AreJoined(query, todo[..n], rows)
        invariant result == DB_FINISHED ==> indexStep && n == |todo|
        invariant result == DB_GOT_ROW ==>
                    n < |todo| && Remaining() == todo[n + 1..] && RowOf(query, todo[n], joinRow)
        decreases |todo| - n, result == DB_GOT_ROW
      {
        rows := rows + [joinRow];
        assert todo[..n + 1] == todo[..n] + [todo[n]];
        n := n + 1;
        ghost var rest := Remaining();
        result := Process();
        assert rest != [] ==> rest[0] == todo[n] && rest[1..] == todo[n + 1..];
      }
      assert todo[..n] == todo;
    }

    /** The inner loop, from the label inner_loop on. */
    method Inner(ghost todo: seq<(nat, nat)>) returns (result: DbResult)
      requires Valid() && !indexStep && todo == Remaining()
      modifies this`indexStep, this`rightRow, this`joinRow, this`currentRow, iteration
      ensures Valid()
      ensures result == DB_FINISHED ==>
                indexStep && todo == query.PairsFrom(tupleId + 1) && currentRow == old(currentRow)
      ensures result == DB_GOT_ROW ==>
                && !indexStep && todo != [] && Remaining() == todo[1..]
                && currentRow == old(currentRow) + 1 && RowOf(query, todo[0], joinRow)
    {
      hide Query.Valid, Query.PairsFrom, Query.PairsWith, Query.Fits, Query.JoinRow, Joined;
      ghost var ids := iteration.pending;
      assert ids != [] ==> ids[0] in ids;
      PairsWithStep(query, tupleId, ids);
      SmallRight(query);
      var id := iteration.Next();
      if id == INVALID_TUPLE {
        indexStep := true;
        return DB_FINISHED;
      }
      PairFits(query, tupleId, id);
      rightRow := query.right[id];
      joinRow := BuildRow();
      currentRow := currentRow + 1;
      assert forall m <- ids[1..] :: m in ids;
      return DB_GOT_ROW;
    }

    /** Fills the result tuple through the source map. */
    method BuildRow() returns (row: Row)
      requires query.Fits(leftRow, rightRow)
      ensures Joined(query, leftRow, rightRow, row)
    {
      row := [];
      for k := 0 to |query.sources|
        invariant row + query.JoinRow(leftRow, rightRow, k) == query.JoinRow(leftRow, rightRow, 0)
      {
        var s := query.sources[k];
        assert s in query.sources;
        row := row + [if s.FromLeft? then leftRow[s.column] else rightRow[s.column]];
      }
      JoinRowJoined(query, leftRow, rightRow);
    }
  }

  /** A join from its first call to its end. */
  method Execute(query: Query) returns (rows: seq<Row>)
    requires query.Valid()
    ensures EquiJoin(query, rows)
  {
    hide Query.Valid, Query.PairsFrom, AreJoined, AllPairs;
    var handle := new Handle(query);
    ghost var pairs := handle.Remaining();
    rows := handle.RunToEnd();
    PairsAll(query);
    assert AreJoined(query, pairs, rows) && AllPairs(query, pairs);
  }

  lemma PairsWithStep(q: Query, i: nat, ids: seq<nat>)
    ensures q.PairsWith(i, ids) == if ids == [] then [] else [(i, ids[0])] + q.PairsWith(i, ids[1..])
  {
  }

  lemma NoPairs(q: Query, i: nat)
    requires q.Valid() && i >= |q.left|
    ensures q.PairsFrom(i) == []
  {
  }

  lemma SmallRight(q: Query)
    requires q.Valid()
    ensures |q.right| < INVALID_TUPLE
  {
  }
}
