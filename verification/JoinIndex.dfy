/**
  Which indexes can serve a join (apps/antelope/relation.c with index-inline.c and
  index-maxheap.c): an iteration over the range from a value to itself returns the rows with
  that value, which is what `Join.Query.IndexExact` asks of an index.
 */
module JoinIndex {
  import opened Lvm
  import InlineIndex
  import Join
  import opened MaxHeap
  import MaxHeapIndex

  // ----- the inline index --------------------------------------------------------------

  /** The ids of the rows with a value. */
  function Found(vals: InlineIndex.Column, v: int): seq<nat> {
    FoundFrom(vals, v, 0)
  }

  function FoundFrom(vals: InlineIndex.Column, v: int, i: nat): seq<nat>
    requires i <= |vals|
    decreases |vals| - i
  {
    if i == |vals| then [] else (if vals[i] == v then [i] else []) + FoundFrom(vals, v, i + 1)
  }

  lemma {:induction false} FoundExact(vals: InlineIndex.Column, v: int, i: nat)
    requires i <= |vals|
    ensures forall id :: id in FoundFrom(vals, v, i) <==> i <= id < |vals| && vals[id] == v
    ensures Join.Distinct(FoundFrom(vals, v, i))
    decreases |vals| - i
  {
    if i < |vals| {
      FoundExact(vals, v, i + 1);
    }
  }

  /** A value in row `i` only is found there; `|vals|` stands for no row. */
  lemma {:induction false} FoundOnly(vals: InlineIndex.Column, v: int, i: nat, k: nat)
    requires i <= |vals| && k <= |vals| && forall j :: 0 <= j < |vals| ==> (vals[j] == v <==> j == i)
    ensures FoundFrom(vals, v, k) == if k <= i < |vals| then [i] else []
    decreases |vals| - k
  {
    if k < |vals| {
      FoundOnly(vals, v, i, k + 1);
    }
  }

  /**
    An equality search that stays inside the relation returns exactly the rows with its value;
    it stays inside iff the value is not below the first one.
   */
  lemma InlineServesIff(index: InlineIndex.Index, it: InlineIndex.Iteration)
    requires InlineIndex.Populated(index.vals) && InlineIndex.Increasing(index.vals)
    requires it.nextItemNo == 0 && it.min == it.max
    ensures index.Defined(it) <==> InlineIndex.Probe(index.vals, it.min) < |index.vals|
    ensures index.Defined(it) ==> index.Rest(it) == Found(index.vals, it.min)
  {
    hide InlineIndex.Probe;
    var vals, v := index.vals, it.min;
    InlineIndex.SearchInBoundsIff(vals, v);
    if index.Defined(it) {
      InlineIndex.ProbeExact(vals, v);
      var i := InlineIndex.Probe(vals, v);
      FoundOnly(vals, v, if v in vals then i else |vals|, 0);
      InlineIndex.IdsStep(i, i);
    }
  }

  /** A join whose lookups are those of an inline index on the right attribute. */
  lemma InlineJoin(q: Join.Query, vals: InlineIndex.Column)
    requires |vals| == |q.right|
    requires forall id :: 0 <= id < |vals| ==> q.rightColumn < |q.right[id]| && q.right[id][q.rightColumn] == vals[id]
    requires forall v :: q.lookup(v) == Found(vals, v)
    ensures q.IndexExact()
  {
    forall v
      ensures Join.Distinct(q.lookup(v))
      ensures forall id :: id in q.lookup(v) <==> q.Matches(v, id)
    {
      FoundExact(vals, v, 0);
      assert forall id :: id in Found(vals, v) <==> 0 <= id < |vals| && vals[id] == v;
    }
  }

  // ----- the maxheap index -----------------------------------------------------------------

  predicate Maps(m: map<Key, Key>, v: int, id: nat) {
    0 <= v <= KEY_MAX && (v as Key) in m && m[v as Key] == id
  }

  /** A join whose lookups are those of a maxheap index that maps every value of the right
      attribute to its row: what an iteration from `v` to `v` returns is `Listing(m, v, v)`. */
  lemma HeapJoin(q: Join.Query, m: map<Key, Key>)
    requires forall v, id :: Maps(m, v, id) <==> q.Matches(v, id)
    requires forall v :: q.lookup(v) == MaxHeapIndex.Listing(m, v, v)
    ensures q.IndexExact()
  {
    forall v
      ensures Join.Distinct(q.lookup(v))
      ensures forall id :: id in q.lookup(v) <==> q.Matches(v, id)
    {
      assert MaxHeapIndex.Listing(m, v + 1, v) == [];
      if 0 <= v <= KEY_MAX && (v as Key) in m {
        assert q.lookup(v) == [m[v as Key]];
        assert forall id :: Maps(m, v, id) <==> id in [m[v as Key]];
      } else {
        assert q.lookup(v) == [];
        assert forall id :: !Maps(m, v, id);
      }
    }
  }
}
