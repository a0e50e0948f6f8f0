/**
  The inline index of Antelope (apps/antelope/index-inline.c): a binary search in a
  relation whose rows are inserted in the order of the indexed attribute.

  Tuple ids are unsigned, so `max = center - 1` wraps around at row 0 and the next
  probe lies outside the relation; `SearchInBoundsIff` says exactly when that
  happens.  `SpanCovers` is what a range search is for.
 */
module InlineIndex {
  import opened Lvm

  const INVALID_TUPLE: nat := 0xFFFF_FFFF

  type Column = seq<long>

  predicate Increasing(vals: Column) {
    forall i, j :: 0 <= i < j < |vals| ==> vals[i] < vals[j]
  }

  /** A relation of a size for which the middle of the id range is no row. */
  predicate Sized(vals: Column) {
    |vals| < 0x7FFF_FFFF
  }

  predicate Populated(vals: Column) {
    |vals| > 0 && Sized(vals)
  }

  /** The interval of a search that is still inside the relation, or the one after a wrap-around. */
  predicate Interval(vals: Column, min: nat, max: nat) {
    min <= max < |vals| || (min == 0 && max == INVALID_TUPLE)
  }

  function Center(min: nat, max: nat): nat
    requires min <= max
  {
    min + (max - min) / 2
  }

  /** The id before the first one: tuple ids are unsigned. */
  function Before(id: nat): nat {
    if id == 0 then INVALID_TUPLE else id - 1
  }

  /** The last id probed by the loop of binary_search, or an id outside the relation. */
  function Search(vals: Column, target: long, min: nat, max: nat): (center: nat)
    requires Sized(vals) && Interval(vals, min, max)
    decreases if max < |vals| then max - min + 1 else 0
  {
    var center := Center(min, max);
    if center >= |vals| then center
    else if target > vals[center] then
      if center + 1 <= max then Search(vals, target, center + 1, max) else center
    else if target == vals[center] then center
    else if min <= Before(center) then Search(vals, target, min, Before(center))
    else center
  }

  function Probe(vals: Column, target: long): nat
    requires Sized(vals)
  {
    Search(vals, target, 0, Before(|vals|))
  }

  /** `c` is the row of the target, or a row next to the place where it would be. */
  predicate Beside(vals: Column, target: long, c: nat) {
    && c < |vals|
    && (vals[c] < target ==> forall i :: c < i < |vals| ==> vals[i] > target)
    && (vals[c] > target ==> forall i :: 0 <= i < c ==> vals[i] < target)
  }

  lemma {:induction false} SearchBeside(vals: Column, target: long, min: nat, max: nat)
    requires Populated(vals) && Increasing(vals) && min <= max < |vals| && vals[0] <= target
    requires forall i :: 0 <= i < min ==> vals[i] < target
    requires forall i :: max < i < |vals| ==> vals[i] > target
    ensures Beside(vals, target, Search(vals, target, min, max))
    decreases max - min
  {
    var center := Center(min, max);
    if target > vals[center] {
      if center + 1 <= max {
        SearchBeside(vals, target, center + 1, max);
      }
    } else if target < vals[center] {
      if min <= center - 1 {
        SearchBeside(vals, target, min, center - 1);
      }
    }
  }

  lemma {:induction false} SearchStrays(vals: Column, target: long, max: nat)
    requires Populated(vals) && Increasing(vals) && max < |vals| && target < vals[0]
    ensures Search(vals, target, 0, max) == INVALID_TUPLE / 2
    decreases max
  {
    var center := Center(0, max);
    assert vals[center] >= vals[0];
    if center > 0 {
      SearchStrays(vals, target, center - 1);
    } else {
      assert Search(vals, target, 0, INVALID_TUPLE) == Center(0, INVALID_TUPLE);
    }
  }

  /** The search stays inside the relation iff there is a first value and the target is not
      below it. */
  lemma SearchInBoundsIff(vals: Column, target: long)
    requires Sized(vals) && Increasing(vals)
    ensures Probe(vals, target) < |vals| <==> |vals| > 0 && vals[0] <= target
    ensures |vals| > 0 && vals[0] <= target ==> Beside(vals, target, Probe(vals, target))
  {
    if vals == [] {
      assert Center(0, INVALID_TUPLE) > |vals|;
    } else if vals[0] <= target {
      SearchBeside(vals, target, 0, |vals| - 1);
    } else {
      SearchStrays(vals, target, |vals| - 1);
    }
  }

  /** The target is found exactly when it is there. */
  lemma ProbeExact(vals: Column, target: long)
    requires Populated(vals) && Increasing(vals) && vals[0] <= target
    ensures Probe(vals, target) < |vals| && (vals[Probe(vals, target)] == target <==> target in vals)
  {
    SearchInBoundsIff(vals, target);
    if target in vals {
      var i :| 0 <= i < |vals| && vals[i] == target;
      var c := Probe(vals, target);
      assert vals[c] == target || i < c || i > c;
    }
  }

  // ----- the rows of a range search ---------------------------------------------------

  /** The bounds lie where the search is defined, and an equality search will succeed. */
  predicate Searchable(vals: Column, low: long, high: long) {
    && Populated(vals) && Increasing(vals) && vals[0] <= low && vals[0] <= high
    && (low == high ==> low in vals)
  }

  function Ids(from: nat, upto: int): seq<nat>
    decreases upto - from
  {
    if from > upto then [] else [from] + Ids(from + 1, upto)
  }

  lemma IdsStep(from: nat, upto: int)
    ensures from <= upto ==> Ids(from, upto) == [from] + Ids(from + 1, upto)
    ensures from > upto ==> Ids(from, upto) == Ids(from + 1, upto) == []
    ensures Ids(from, from) == [from]
  {
  }

  /** The ids that a range search returns: from the first bound's row on, at least that one. */
  function Span(vals: Column, low: long, high: long): (nat, nat)
    requires Populated(vals)
  {
    var first := Probe(vals, low);
    var last := Probe(vals, high);
    (first, if last < first then first else last)
  }

  /** A range search covers every row of the range, and nothing else but for one row at
      either end. */
  lemma SpanCovers(vals: Column, low: long, high: long)
    requires Searchable(vals, low, high)
    ensures var (first, last) := Span(vals, low, high);
            && first <= last < |vals|
            && (forall i :: 0 <= i < |vals| && low <= vals[i] <= high ==> first <= i <= last)
            && (forall i :: first < i < last ==> low <= vals[i] <= high)
  {
    SearchInBoundsIff(vals, low);
    SearchInBoundsIff(vals, high);
    var (first, last) := Span(vals, low, high);
    var c, d := Probe(vals, low), Probe(vals, high);
    forall i | first < i < last
      ensures low <= vals[i] <= high
    {
      assert vals[c] < vals[i] < vals[d];
    }
  }

  // ----- when a range search returns the whole relation --------------------------------------

  /** Halving the ids from 0 to `m` and staying below the middle every time ends at 0. */
  predicate HalvesToZero(m: nat) {
    if m <= 1 then m == 0 else HalvesToZero(m / 2 - 1)
  }

  lemma {:induction false} SearchFirst(vals: Column, target: long, max: nat)
    requires Populated(vals) && Increasing(vals) && max < |vals| && vals[0] < target
    requires forall i :: max < i < |vals| ==> vals[i] > target
    ensures Search(vals, target, 0, max) == 0 <==> (|vals| > 1 ==> target < vals[1]) && HalvesToZero(max)
    decreases max
  {
    var center := Center(0, max);
    SearchBeside(vals, target, 0, max);
    if center > 0 {
      if target < vals[center] {
        SearchFirst(vals, target, center - 1);
      } else {
        assert vals[1] <= target;
      }
    } else if max == 1 {
      assert Search(vals, target, 1, 1) >= 1;
    }
  }

  /** The search for a value ends in the first row iff that row has it, or it lies below the
      second row and the row count is one of those for which halving ends there. */
  lemma ProbeFirst(vals: Column, target: long)
    requires Populated(vals) && Increasing(vals) && vals[0] <= target
    ensures Probe(vals, target) == 0 <==>
              target == vals[0] || ((|vals| > 1 ==> target < vals[1]) && HalvesToZero(|vals| - 1))
  {
    hide Search;
    if target == vals[0] {
      ProbeExact(vals, target);
    } else {
      SearchFirst(vals, target, |vals| - 1);
    }
  }

  lemma {:induction false} SearchLast(vals: Column, target: long, min: nat)
    requires Populated(vals) && Increasing(vals) && min < |vals|
    requires |vals| > 1 ==> vals[|vals| - 2] < target
    ensures |vals| > 1 || vals[0] <= target ==> Search(vals, target, min, |vals| - 1) == |vals| - 1
    decreases |vals| - min
  {
    var center := Center(min, |vals| - 1);
    if center < |vals| - 1 {
      assert vals[center] <= vals[|vals| - 2] < target;
      SearchLast(vals, target, center + 1);
    }
  }

  /** It ends in the last row iff the value lies above the row before. */
  lemma ProbeLast(vals: Column, target: long)
    requires Populated(vals) && Increasing(vals) && vals[0] <= target
    ensures Probe(vals, target) == |vals| - 1 <==> (|vals| > 1 ==> vals[|vals| - 2] < target)
  {
    hide Search;
    SearchInBoundsIff(vals, target);
    if |vals| > 1 ==> vals[|vals| - 2] < target {
      SearchLast(vals, target, 0);
    }
  }

  /** The bounds for which a range search returns every row. */
  predicate Whole(vals: Column, low: long, high: long)
    requires Populated(vals)
  {
    || |vals| == 1
    || (vals[|vals| - 2] < high && (low == vals[0] || (low < vals[1] && HalvesToZero(|vals| - 1))))
  }

  lemma SpanWholeIff(vals: Column, low: long, high: long)
    requires Searchable(vals, low, high)
    ensures Span(vals, low, high) == (0, |vals| - 1) <==> Whole(vals, low, high)
  {
    hide Search, HalvesToZero;
    SearchInBoundsIff(vals, low);
    SearchInBoundsIff(vals, high);
    ProbeFirst(vals, low);
    ProbeLast(vals, high);
  }

  // ----- the index ------------------------------------------------------------------------

  /** An index iterator (struct index_iterator in apps/antelope/index.h). */
  class Iteration {
    var min: long
    var max: long
    var nextItemNo: nat

    constructor (min: long, max: long)
      ensures this.min == min && this.max == max && nextItemNo == 0
    {
      this.min, this.max, nextItemNo := min, max, 0;
    }
  }

  class Index {
    const vals: Column       // the indexed attribute of the rows of the relation
    var cachedStart: nat
    var cachedEnd: nat

    constructor (vals: Column)
      ensures this.vals == vals
    {
      this.vals := vals;
      cachedStart, cachedEnd := 0, 0;
    }

    /** binary_search; `stray` says that a row outside the relation was read. */
    method BinarySearch(target: long, exactMatch: bool) returns (id: nat, stray: bool)
      requires Sized(vals)
      ensures stray == (Probe(vals, target) >= |vals|)
      ensures !stray ==>
                var c := Probe(vals, target);
                id == if exactMatch && vals[c] != target then INVALID_TUPLE else c
    {
      var min: nat, max: nat := 0, Before(|vals|);
      var center: nat, cmpValue: long := 0, 0;
      while true
        invariant Interval(vals, min, max)
        invariant Probe(vals, target) == Search(vals, target, min, max)
        decreases if max < |vals| then max - min + 1 else 0
      {
        center := min + (max - min) / 2;
        if center >= |vals| {
          return INVALID_TUPLE, true;
        }
        cmpValue := vals[center];
        if target > cmpValue {
          min := center + 1;
        } else {
          max := Before(center);
        }
        if !(min <= max && target != cmpValue) {
          break;
        }
      }
      if exactMatch && target != cmpValue {
        return INVALID_TUPLE, false;
      }
      return center, false;
    }

    /** The ids that the iteration still has to return; an equality search for an absent
        value has none. */
    ghost function Rest(it: Iteration): seq<nat>
      requires Defined(it)
      reads this, it
    {
      if it.nextItemNo > 0 then Ids(cachedStart + it.nextItemNo, cachedEnd)
      else if it.min == it.max && it.min !in vals then []
      else
        var (first, last) := Span(vals, it.min, it.max);
        Ids(first, last)
    }

    /** The bounds of the iteration lie where the binary search is defined. */
    predicate Defined(it: Iteration)
      reads it
    {
      Populated(vals) && Increasing(vals) && vals[0] <= it.min && vals[0] <= it.max
    }

    /** get_next, with a range search in its first call: the ids of the span one by one, then
        INVALID_TUPLE for ever.  Only a failed equality search leaves `nextItemNo` at 0. */
    method GetNext(it: Iteration) returns (id: nat)
      requires Defined(it)
      modifies this, it`nextItemNo
      ensures var rest := old(Rest(it));
              if rest == [] then id == INVALID_TUPLE && Rest(it) == [] && it.nextItemNo == old(it.nextItemNo)
              else id == rest[0] && Rest(it) == rest[1..] && it.nextItemNo == old(it.nextItemNo) + 1
    {
      hide Search, Increasing;
      if it.nextItemNo == 0 {
        var exactMatch := it.min == it.max;
        SearchInBoundsIff(vals, it.min);
        SearchInBoundsIff(vals, it.max);
        ProbeExact(vals, it.min);
        var stray;
        cachedStart, stray := BinarySearch(it.min, exactMatch);
        if cachedStart != INVALID_TUPLE {
          cachedEnd, stray := BinarySearch(it.max, exactMatch);
        }
        if cachedStart == INVALID_TUPLE || cachedEnd == INVALID_TUPLE {
          cachedStart, cachedEnd := 0, 0;
          return INVALID_TUPLE;
        }
        it.nextItemNo := it.nextItemNo + 1;
        IdsStep(cachedStart, cachedEnd);
        IdsStep(cachedStart, cachedStart);
        return cachedStart;
      } else if cachedStart + it.nextItemNo <= cachedEnd {
        id := cachedStart + it.nextItemNo;
        it.nextItemNo := it.nextItemNo + 1;
      } else {
        id := INVALID_TUPLE;
      }
    }
  }
}
