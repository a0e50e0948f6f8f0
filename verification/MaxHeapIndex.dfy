/**
  The bucket tree index in operation (apps/antelope/index-maxheap.c): the files and
  the caches as arrays that the operations change in place, proved against module
  MaxHeap, and what an iteration over a key range returns.
 */
module MaxHeapIndex {
  import opened MaxHeap

  const INVALID_TUPLE: nat := 0xFFFF_FFFF

  // ----- what a store represents ------------------------------------------------------

  /** No key is stored twice. */
  ghost predicate Distinct(s: Store)
    requires Shape(s)
  {
    forall b, k, c, l :: IsSlot(s, b, k) && IsSlot(s, c, l) && Slot(s, b, k).key == Slot(s, c, l).key ==>
      b == c && k == l
  }

  ghost predicate StoredAt(s: Store, key: Key, value: Key, b: int, k: int)
    requires Shape(s)
  {
    IsSlot(s, b, k) && Slot(s, b, k) == Pair(key, value)
  }

  /** The store holds the pairs of `m`, each once. */
  ghost predicate Represents(s: Store, m: map<Key, Key>)
    requires Shape(s)
  {
    && Distinct(s)
    && (forall b, k :: IsSlot(s, b, k) ==> Slot(s, b, k).key in m && m[Slot(s, b, k).key] == Slot(s, b, k).value)
    && (forall key :: key in m ==> exists b, k :: StoredAt(s, key, m[key], b, k))
  }

  /** The values of the keys from lo to hi, in key order. */
  function Listing(m: map<Key, Key>, lo: int, hi: int): seq<Key>
    decreases hi - lo
  {
    if lo > hi then []
    else (if 0 <= lo <= KEY_MAX && lo in m then [m[lo as Key]] else []) + Listing(m, lo + 1, hi)
  }

  lemma ListingStep(m: map<Key, Key>, key: Key, hi: int)
    requires key <= hi
    ensures Listing(m, key, hi) == (if key in m then [m[key]] else []) + Listing(m, key + 1, hi)
    ensures key == hi ==> Listing(m, key + 1, hi) == []
  {
  }

  /** The keys of `m` from lo to hi, each once and ascending. */
  ghost predicate KeysBetween(m: map<Key, Key>, lo: int, hi: int, keys: seq<Key>) {
    Ascending(keys) && OnlyKeys(m, lo, hi, keys) && EveryKey(m, lo, hi, keys)
  }

  predicate Ascending(keys: seq<Key>) { forall i, j :: 0 <= i < j < |keys| ==> keys[i] < keys[j] }

  predicate OnlyKeys(m: map<Key, Key>, lo: int, hi: int, keys: seq<Key>) {
    forall k :: 0 <= k < |keys| ==> lo <= keys[k] <= hi && keys[k] in m
  }

  predicate EveryKey(m: map<Key, Key>, lo: int, hi: int, keys: seq<Key>) {
    forall key <- m :: lo <= key <= hi ==> key in keys
  }

  /** The values are those of these keys. */
  ghost predicate ValuesBetween(m: map<Key, Key>, lo: int, hi: int, values: seq<nat>) {
    exists keys: seq<Key> ::
      && KeysBetween(m, lo, hi, keys) && |values| == |keys|
      && forall k :: 0 <= k < |keys| ==> keys[k] in m && values[k] == m[keys[k]]
  }

  lemma {:induction false} ListingKeys(m: map<Key, Key>, lo: int, hi: int) returns (keys: seq<Key>)
    ensures KeysBetween(m, lo, hi, keys) && |Listing(m, lo, hi)| == |keys|
    ensures forall k :: 0 <= k < |keys| ==> keys[k] in m && Listing(m, lo, hi)[k] == m[keys[k]]
    decreases hi - lo
  {
    hide KeysBetween, Listing;
    if lo <= hi {
      var rest := ListingKeys(m, lo + 1, hi);
      ListingFirst(m, lo, hi);
      keys := KeysFirst(m, lo, hi, rest);
    } else {
      keys := [];
      NoKeys(m, lo, hi);
    }
  }

  lemma ListingFirst(m: map<Key, Key>, lo: int, hi: int)
    requires lo <= hi
    ensures Listing(m, lo, hi)
         == (if 0 <= lo <= KEY_MAX && lo in m then [m[lo as Key]] else []) + Listing(m, lo + 1, hi)
  {
  }

  lemma KeysFirst(m: map<Key, Key>, lo: int, hi: int, rest: seq<Key>) returns (keys: seq<Key>)
    requires lo <= hi && KeysBetween(m, lo + 1, hi, rest)
    ensures keys == (if 0 <= lo <= KEY_MAX && lo in m then [lo as Key] else []) + rest
    ensures KeysBetween(m, lo, hi, keys)
  {
    hide Ascending, OnlyKeys, EveryKey;
    if 0 <= lo <= KEY_MAX && lo in m {
      keys := [lo as Key] + rest;
      AscendingFirst(m, lo as Key, hi, rest);
      OnlyFirst(m, lo as Key, hi, rest);
      EveryFirst(m, lo as Key, hi, rest);
    } else {
      keys := rest;
      assert [] + rest == rest;
      NotFirst(m, lo, hi, rest);
    }
  }

  lemma NotFirst(m: map<Key, Key>, lo: int, hi: int, rest: seq<Key>)
    requires OnlyKeys(m, lo + 1, hi, rest) && EveryKey(m, lo + 1, hi, rest)
    requires !(0 <= lo <= KEY_MAX && lo in m)
    ensures OnlyKeys(m, lo, hi, rest) && EveryKey(m, lo, hi, rest)
  {
    forall key <- m | lo <= key <= hi
      ensures key in rest
    {
      assert key != lo;
    }
  }

  lemma AscendingFirst(m: map<Key, Key>, first: Key, hi: int, rest: seq<Key>)
    requires Ascending(rest) && OnlyKeys(m, first + 1, hi, rest)
    ensures Ascending([first] + rest)
  {
  }

  lemma OnlyFirst(m: map<Key, Key>, first: Key, hi: int, rest: seq<Key>)
    requires OnlyKeys(m, first + 1, hi, rest) && first in m && first <= hi
    ensures OnlyKeys(m, first, hi, [first] + rest)
  {
  }

  lemma EveryFirst(m: map<Key, Key>, first: Key, hi: int, rest: seq<Key>)
    requires EveryKey(m, first + 1, hi, rest)
    ensures EveryKey(m, first, hi, [first] + rest)
  {
    forall key <- m | first <= key <= hi
      ensures key in [first] + rest
    {
      assert key != first ==> key in rest;
    }
  }

  lemma NoKeys(m: map<Key, Key>, lo: int, hi: int)
    requires lo > hi
    ensures KeysBetween(m, lo, hi, []) && Listing(m, lo, hi) == []
  {
  }

  lemma ListingExact(m: map<Key, Key>, lo: int, hi: int)
    ensures ValuesBetween(m, lo, hi, Listing(m, lo, hi))
  {
    var keys := ListingKeys(m, lo, hi);
    assert KeysBetween(m, lo, hi, keys);
  }

  // ----- a build phase ------------------------------------------------------------------

  /** A run of inserts: the final store and the pairs that were accepted. */
  function Build(s: Store, items: seq<Pair>, hash: Key -> Key): (r: (Store, seq<Pair>))
    requires Shape(s)
    ensures Shape(r.0)
    decreases items
  {
    if items == [] then (s, []) else
    var (ok, t) := InsertItem(s, items[0], hash(items[0].key));
    var (u, rest) := Build(t, items[1..], hash);
    (u, (if ok then [items[0]] else []) + rest)
  }

  /** Every run of inserts keeps the invariant, and stores exactly the accepted pairs. */
  lemma {:induction false} BuildKeeps(s: Store, items: seq<Pair>, hash: Key -> Key)
    requires Inv(s, hash)
    ensures Bounded(s)
    ensures var (t, accepted) := Build(s, items, hash);
            Inv(t, hash) && Bounded(t) && Contents(t) == Contents(s) + multiset(accepted)
    decreases items
  {
    hide Inv, Contents, InsertItem, Refused;
    InvBounded(s, hash);
    if items != [] {
      var p := items[0];
      InsertKeeps(s, p, hash);
      InsertAddsOne(s, p, hash);
      var (ok, t) := InsertItem(s, p, hash(p.key));
      BuildKeeps(t, items[1..], hash);
      var rest := Build(t, items[1..], hash).1;
      assert multiset([p] + rest) == multiset{p} + multiset(rest);
      assert [] + rest == rest;
    }
  }

  function MapOf(m: map<Key, Key>, accepted: seq<Pair>): map<Key, Key>
    decreases accepted
  {
    if accepted == [] then m else MapOf(m[accepted[0].key := accepted[0].value], accepted[1..])
  }

  lemma AppendSlots(s: Store, b: nat, p: Pair)
    requires Bounded(s) && b < NODE_LIMIT && s.count[b] < BUCKET_SIZE
    ensures var t := Append(s, b, p).1;
            && (forall c, k :: IsSlot(t, c, k) <==> IsSlot(s, c, k) || (c, k) == (b, s.count[b]))
            && (forall c, k :: IsSlot(s, c, k) ==> Slot(t, c, k) == Slot(s, c, k))
            && Slot(t, b, s.count[b]) == p
  {
    var t := Append(s, b, p).1;
    forall c, k | IsSlot(s, c, k)
      ensures Slot(t, c, k) == Slot(s, c, k)
    {
    }
  }

  lemma AppendRepresents(s: Store, b: nat, p: Pair, m: map<Key, Key>)
    requires Bounded(s) && Represents(s, m) && b < NODE_LIMIT && s.count[b] < BUCKET_SIZE && p.key !in m
    ensures Represents(Append(s, b, p).1, m[p.key := p.value])
  {
    hide IsSlot, Slot, Append;
    AppendSlots(s, b, p);
    var t := Append(s, b, p).1;
    var m1 := m[p.key := p.value];
    forall key | key in m1
      ensures exists c, k :: StoredAt(t, key, m1[key], c, k)
    {
      if key == p.key {
        assert StoredAt(t, key, m1[key], b, s.count[b]);
      } else {
        var c, k :| StoredAt(s, key, m[key], c, k);
        assert StoredAt(t, key, m1[key], c, k);
      }
    }
  }

  lemma NodesRepresent(s: Store, nodes: seq<Node>, m: map<Key, Key>)
    requires Shape(s) && Represents(s, m) && |nodes| == NODE_LIMIT
    ensures Represents(s.(nodes := nodes), m)
  {
    var t := s.(nodes := nodes);
    assert forall b, k :: IsSlot(t, b, k) ==> IsSlot(s, b, k) && Slot(t, b, k) == Slot(s, b, k);
    forall key | key in m
      ensures exists b, k :: StoredAt(t, key, m[key], b, k)
    {
      var b, k :| StoredAt(s, key, m[key], b, k);
      assert StoredAt(t, key, m[key], b, k);
    }
  }

  lemma InsertRepresents(s: Store, p: Pair, hash: Key -> Key, m: map<Key, Key>)
    requires Inv(s, hash) && Represents(s, m) && p.key !in m
    ensures var (ok, t) := InsertItem(s, p, hash(p.key));
            Represents(t, if ok then m[p.key := p.value] else m)
  {
    hide Tree, Placed, InsertItem, Refused, Represents;
    var nodes, b := InsertCases(s, p, hash(p.key));
    InvBounded(s, hash);
    SameFiles(s, s.(nodes := nodes));
    NodesRepresent(s, nodes, m);
    if InsertItem(s, p, hash(p.key)).0 {
      AppendRepresents(s.(nodes := nodes), b, p, m);
    }
  }

  predicate FreshKeys(items: seq<Pair>, m: map<Key, Key>) {
    && (forall i :: 0 <= i < |items| ==> items[i].key !in m)
    && (forall i, j :: 0 <= i < j < |items| ==> items[i].key != items[j].key)
  }

  /** After a build phase with distinct keys the store represents the accepted pairs. */
  lemma {:induction false} BuildRepresents(s: Store, items: seq<Pair>, hash: Key -> Key, m: map<Key, Key>)
    requires Inv(s, hash) && Represents(s, m) && FreshKeys(items, m)
    ensures var (t, accepted) := Build(s, items, hash);
            Inv(t, hash) && Represents(t, MapOf(m, accepted))
    decreases items
  {
    hide Tree, Placed, Represents, InsertItem;
    if items != [] {
      var p := items[0];
      InsertKeeps(s, p, hash);
      InsertRepresents(s, p, hash, m);
      var (ok, t) := InsertItem(s, p, hash(p.key));
      BuildRepresents(t, items[1..], hash, if ok then m[p.key := p.value] else m);
      var rest := Build(t, items[1..], hash).1;
      assert ([p] + rest)[1..] == rest && [] + rest == rest;
    }
  }

  lemma CreatedRepresents()
    ensures Represents(Created(), map[])
  {
  }

  // ----- where a key can be ----------------------------------------------------------------

  /** A path has at most 8 nodes and visits none twice. */
  lemma PathShape(nodes: seq<Node>, h: Key, path: seq<nat>)
    requires |nodes| == NODE_LIMIT && Chain(nodes, h, path) && |path| > 0 && path[0] == 0
    ensures |path| <= NODE_DEPTH - 1
    ensures forall i, j :: 0 <= i < j < |path| ==> path[i] < path[j]
  {
    PathGrows(nodes, h, path, |path| - 1);
  }

  lemma PathSize(nodes: seq<Node>, count: seq<nat>, h: Key)
    requires Tree(nodes, count)
    ensures 0 < |Path(nodes, h, 0)| <= NODE_DEPTH - 1
  {
    PathExact(nodes, count, h);
    PathShape(nodes, h, Path(nodes, h, 0));
  }

  lemma {:induction false} PathGrows(nodes: seq<Node>, h: Key, path: seq<nat>, n: nat)
    requires |nodes| == NODE_LIMIT && Chain(nodes, h, path) && n < |path| && path[0] == 0
    ensures forall i, j :: 0 <= i < j <= n ==> path[i] < path[j]
    ensures path[n] >= (if n == 0 then 0 else if n == 1 then 1 else if n == 2 then 3 else if n == 3 then 7
                        else if n == 4 then 15 else if n == 5 then 31 else if n == 6 then 63
                        else if n == 7 then 127 else 255)
    decreases n
  {
    if n > 0 {
      PathGrows(nodes, h, path, n - 1);
    }
  }

  /** A stored key lies in a bucket of its own path. */
  lemma SlotOnPath(s: Store, hash: Key -> Key, b: int, k: int)
    requires Inv(s, hash) && IsSlot(s, b, k)
    ensures b in Path(s.nodes, hash(Slot(s, b, k).key), 0)
  {
    PathExact(s.nodes, s.count, hash(Slot(s, b, k).key));
  }

  /** Following heap_find to the end of the path, keeping the last node. */
  function Walk(nodes: seq<Node>, h: Key, cursor: nat, last: int): (int, nat)
    requires |nodes| == NODE_LIMIT
    decreases NODE_LIMIT - cursor
  {
    var (b, next) := HeapFind(nodes, h, cursor, cursor);
    if b < 0 then (last, cursor) else Walk(nodes, h, next, b)
  }

  lemma {:induction false} WalkPath(nodes: seq<Node>, h: Key, cursor: nat, last: int)
    requires |nodes| == NODE_LIMIT
    ensures var path := Path(nodes, h, cursor);
            Walk(nodes, h, cursor, last) ==
              if path == [] then (last, cursor) else (path[|path| - 1], BRANCH_FACTOR * path[|path| - 1] + 1)
    decreases NODE_LIMIT - cursor
  {
    var (b, next) := HeapFind(nodes, h, cursor, cursor);
    if b >= 0 {
      WalkPath(nodes, h, next, b);
    }
  }

  lemma PathStep(nodes: seq<Node>, h: Key, cursor: nat)
    requires |nodes| == NODE_LIMIT
    ensures var (b, next) := HeapFind(nodes, h, cursor, cursor);
            Path(nodes, h, cursor) == if b < 0 then [] else [b] + Path(nodes, h, next)
  {
  }

  lemma NodeRange(nodes: seq<Node>, count: seq<nat>, b: nat)
    requires Tree(nodes, count) && b < NODE_LIMIT
    ensures nodes[b].min <= nodes[b].max
  {
    assert NodeOk(nodes, count, b);
  }

  // ----- a search along a path -------------------------------------------------------------

  /** The buckets up to the cursor are different buckets. */
  predicate PathLeft(v: seq<int>, cursor: int) {
    && -1 <= cursor < |v|
    && (forall j :: 0 <= j <= cursor ==> 0 <= v[j] < NODE_LIMIT)
    && (forall j, l :: 0 <= j < l <= cursor ==> v[j] != v[l])
  }

  /** Slot `k` of the `j`th bucket is still to be searched, from slot `from` of the last bucket on. */
  predicate Ahead(j: int, k: int, cursor: int, from: nat) {
    0 <= j <= cursor && (j < cursor || from <= k)
  }

  ghost predicate NoMatch(s: Store, v: seq<int>, key: int, cursor: int, from: nat)
    requires Shape(s) && PathLeft(v, cursor)
  {
    forall j, k :: Ahead(j, k, cursor, from) && IsSlot(s, v[j], k) ==> Slot(s, v[j], k).key != key
  }

  ghost predicate MatchAhead(s: Store, v: seq<int>, key: Key, value: Key, cursor: int, from: nat)
    requires Shape(s) && PathLeft(v, cursor)
  {
    exists j, k :: Ahead(j, k, cursor, from) && StoredAt(s, key, value, v[j], k)
  }

  /** Either the search has not met the key, which then lies ahead if it is stored at all, or
      it has met it, and does not meet it again.  `found` matches were counted, and the caller
      has been given `next` of them. */
  ghost predicate Searching(s: Store, v: seq<int>, m: map<Key, Key>, key: Key, next: nat, found: nat,
                            cursor: int, from: nat)
    requires Shape(s) && PathLeft(v, cursor)
  {
    || (found == 0 && (key in m ==> MatchAhead(s, v, key, m[key], cursor, from)))
    || (found == 1 && next == 1 && NoMatch(s, v, key, cursor, from))
  }

  lemma SearchMiss(s: Store, v: seq<int>, m: map<Key, Key>, key: Key, next: nat, found: nat, cursor: nat, i: nat)
    requires Shape(s) && PathLeft(v, cursor) && Searching(s, v, m, key, next, found, cursor, i)
    requires IsSlot(s, v[cursor], i) && Slot(s, v[cursor], i).key != key
    ensures Searching(s, v, m, key, next, found, cursor, i + 1)
  {
    if found == 0 && key in m {
      var j, k :| Ahead(j, k, cursor, i) && StoredAt(s, key, m[key], v[j], k);
      assert Ahead(j, k, cursor, i + 1) && StoredAt(s, key, m[key], v[j], k);
    }
  }

  /** The first match is the stored value, and there is no other. */
  lemma SearchHit(s: Store, v: seq<int>, m: map<Key, Key>, key: Key, next: nat, found: nat, cursor: nat, i: nat)
    requires Shape(s) && PathLeft(v, cursor) && Searching(s, v, m, key, next, found, cursor, i)
    requires Represents(s, m)
    requires IsSlot(s, v[cursor], i) && Slot(s, v[cursor], i).key == key
    ensures found == 0 && key in m && Slot(s, v[cursor], i).value == m[key]
    ensures NoMatch(s, v, key, cursor, i + 1)
  {
    assert Ahead(cursor, i, cursor, i);
    forall j, k | Ahead(j, k, cursor, i + 1) && IsSlot(s, v[j], k)
      ensures Slot(s, v[j], k).key != key
    {
    }
  }

  /** When nothing is left to search, a key that was not met is not stored. */
  lemma SearchOver(s: Store, v: seq<int>, m: map<Key, Key>, key: Key, next: nat, found: nat, from: nat)
    requires Shape(s) && PathLeft(v, -1) && Searching(s, v, m, key, next, found, -1, from)
    ensures next == 0 ==> key !in m
    ensures NoMatch(s, v, key, -1, from)
    ensures key in m ==> found == 1
  {
  }

  lemma SearchSkip(s: Store, v: seq<int>, m: map<Key, Key>, key: Key, next: nat, cursor: int, i: nat)
    requires Shape(s) && PathLeft(v, cursor) && next == 1 && NoMatch(s, v, key, cursor, i)
    ensures cursor >= -1 && Searching(s, v, m, key, next, 1, cursor, i)
  {
  }

  lemma BucketBound(s: Store, hash: Key -> Key, b: nat)
    requires Inv(s, hash) && b < NODE_LIMIT
    ensures s.count[b] <= BUCKET_SIZE
  {
    assert NodeOk(s.nodes, s.count, b);
  }

  lemma SearchEnd(s: Store, v: seq<int>, m: map<Key, Key>, key: Key, next: nat, found: nat,
                  cursor: nat, i: nat, start: nat)
    requires Shape(s) && PathLeft(v, cursor) && Searching(s, v, m, key, next, found, cursor, i)
    requires i >= s.count[v[cursor]] && (found == 0 ==> start == 0)
    ensures Searching(s, v, m, key, next, found, cursor - 1, start)
  {
    if found == 0 && key in m {
      var j, k :| Ahead(j, k, cursor, i) && StoredAt(s, key, m[key], v[j], k);
      assert Ahead(j, k, cursor - 1, start) && StoredAt(s, key, m[key], v[j], k);
    }
  }

  /** A search that starts at the end of the path of a key. */
  lemma SearchStart(s: Store, v: seq<int>, hash: Key -> Key, m: map<Key, Key>, key: Key, next: nat)
    requires Inv(s, hash) && Represents(s, m) && |v| == NODE_DEPTH
    requires var path := Path(s.nodes, hash(key), 0);
             |path| <= |v| && forall j :: 0 <= j < |path| ==> v[j] == path[j]
    ensures var last := |Path(s.nodes, hash(key), 0)| - 1;
            PathLeft(v, last) && Searching(s, v, m, key, next, 0, last, 0)
  {
    var path := Path(s.nodes, hash(key), 0);
    PathExact(s.nodes, s.count, hash(key));
    PathShape(s.nodes, hash(key), path);
    if key in m {
      var b, k :| StoredAt(s, key, m[key], b, k);
      SlotOnPath(s, hash, b, k);
      var j :| 0 <= j < |path| && path[j] == b;
      assert Ahead(j, k, |path| - 1, 0) && StoredAt(s, key, m[key], v[j], k);
    }
  }

  // ----- the index ------------------------------------------------------------------------------

  /** An index iterator (struct index_iterator); its bounds are stored as integers. */
  class Iteration {
    var min: int
    var max: int
    var nextItemNo: nat

    constructor (lo: int, hi: int)
      ensures min == lo && max == hi && nextItemNo == 0
    {
      min, max, nextItemNo := lo, hi, 0;
    }
  }

  class Index {
    const hash: Key -> Key             // transform_key
    const nodes: array<Node>
    const count: array<nat>            // next_free_slot
    const file: array<Pair>
    // The bucket cache has one entry.
    var cacheUsed: bool
    var cacheId: nat
    const cached: array<Pair>
    // The state that get_next keeps between calls.
    var owner: Iteration?
    var heapCursor: int
    var foundItems: nat
    var start: nat
    const visited: array<int>
    var end: int

    ghost function Files(): Store
      reads nodes, count, file
    {
      Store(nodes[..], count[..], file[..])
    }

    ghost predicate Valid()
      reads this, nodes, count, file
    {
      && cached.Length == BUCKET_SIZE && visited.Length == NODE_DEPTH
      && file != cached && (count as object) != visited
      && Inv(Files(), hash)
    }

    /** The cached bucket agrees with the file as far as it is filled. */
    ghost predicate CacheFresh()
      requires Valid()
      reads this, nodes, count, file, cached
    {
      cacheUsed ==>
        && cacheId < NODE_LIMIT
        && forall k :: 0 <= k < count[cacheId] && k < BUCKET_SIZE ==> cached[k] == Slot(Files(), cacheId, k)
    }

    constructor (hash: Key -> Key)
      ensures Valid() && !cacheUsed && owner == null && this.hash == hash
      ensures Files() == Created()
    {
      this.hash := hash;
      nodes := new Node[NODE_LIMIT](_ => NO_NODE);
      count := new nat[NODE_LIMIT](_ => 0);
      file := new Pair[NODE_LIMIT * BUCKET_SIZE](_ => NO_PAIR);
      cached := new Pair[BUCKET_SIZE](_ => NO_PAIR);
      visited := new int[NODE_DEPTH](_ => 0);
      cacheUsed, cacheId, owner, heapCursor, foundItems, start, end := false, 0, null, 0, 0, 0, 0;
      new;
      CreatedInv(hash);
      assert nodes[..] == seq(NODE_LIMIT, _ => NO_NODE);
      var _ := InsertNode(0, KEY_MAX);
      assert Files() == Created();
    }

    /** heap_insert. */
    method InsertNode(min: Key, max: Key) returns (id: int)
      requires nodes.Length == NODE_LIMIT
      modifies nodes
      ensures (nodes[..], id) == HeapInsert(old(nodes[..]), min, max, 0)
    {
      if min > max {
        return -1;
      }
      var i := 0;
      while i < NODE_LIMIT
        invariant nodes[..] == old(nodes[..])
        invariant HeapInsert(nodes[..], min, max, 0) == HeapInsert(nodes[..], min, max, i)
        decreases NODE_LIMIT - i
      {
        var node := nodes[i];
        if node.Empty() {
          nodes[i] := Node(min, max);
          return i;
        } else if node.min <= min && max <= node.max {
          i := BRANCH_FACTOR * i + 1;
        } else {
          i := i + 1;
        }
      }
      return -1;
    }

    /** heap_find, with the iterator passed in and out. */
    method FindNode(key: Key, cursor: nat) returns (id: int, next: nat)
      requires nodes.Length == NODE_LIMIT
      ensures (id, next) == HeapFind(nodes[..], hash(key), cursor, cursor)
    {
      var hashedKey := hash(key);
      var i := cursor;
      while i < NODE_LIMIT
        invariant HeapFind(nodes[..], hashedKey, cursor, cursor) == HeapFind(nodes[..], hashedKey, i, cursor)
        decreases NODE_LIMIT - i
      {
        var node := nodes[i];
        if node.Empty() {
          break;
        } else if node.min <= hashedKey <= node.max {
          var firstChild := BRANCH_FACTOR * i + 1;
          if firstChild >= NODE_LIMIT {
            break;
          }
          return i, firstChild;
        } else {
          i := i + 1;
        }
      }
      return -1, cursor;
    }

    /** bucket_split. */
    method SplitBucket(b: nat) returns (ok: bool)
      requires nodes.Length == NODE_LIMIT && b < NODE_LIMIT && nodes[b].min <= nodes[b].max
      modifies nodes
      ensures (ok, nodes[..]) == Split(old(nodes[..]), b)
    {
      var node := nodes[b];
      var mean := node.min + (node.max - node.min) / 2;
      var small := InsertNode(node.min, mean);
      if small < 0 {
        return false;
      }
      var large := InsertNode(if mean < KEY_MAX then mean + 1 else 0, node.max);
      return large >= 0;
    }

    /** bucket_append. */
    method AppendPair(b: nat, pair: Pair) returns (ok: bool)
      requires Shape(Files()) && b < NODE_LIMIT && file != cached && (count as object) != visited
      modifies count, file
      ensures (ok, Files()) == Append(old(Files()), b, pair)
    {
      if count[b] >= BUCKET_SIZE {
        return false;
      }
      file[b * BUCKET_SIZE + count[b]] := pair;
      count[b] := count[b] + 1;
      return true;
    }

    /** The loop of insert_item: the last bucket that heap_find gives, and where it stopped. */
    method FindBucket(key: Key) returns (lastGood: int, cursor: nat)
      requires nodes.Length == NODE_LIMIT
      ensures (lastGood, cursor) == Walk(nodes[..], hash(key), 0, -1)
      ensures -1 <= lastGood < NODE_LIMIT
    {
      lastGood, cursor := -1, 0;
      while true
        invariant Walk(nodes[..], hash(key), 0, -1) == Walk(nodes[..], hash(key), cursor, lastGood)
        invariant -1 <= lastGood < NODE_LIMIT
        decreases NODE_LIMIT - cursor
      {
        var bucket;
        bucket, cursor := FindNode(key, cursor);
        if bucket < 0 {
          break;
        }
        lastGood := bucket;
      }
    }

    /** insert_item.  A bucket held in the cache is not refreshed. */
    method Insert(key: Key, value: Key) returns (ok: bool)
      requires Valid()
      modifies nodes, count, file
      ensures Valid()
      ensures (ok, Files()) == InsertItem(old(Files()), Pair(key, value), hash(key))
    {
      hide Tree, Placed, HeapFind, Split, Append, Path;
      ghost var s := Files();
      InsertKeeps(s, Pair(key, value), hash);
      WalkPath(s.nodes, hash(key), 0, -1);
      var bucket, cursor := FindBucket(key);
      if bucket < 0 {
        return false;
      }
      var pair := Pair(key, value);
      if count[bucket] == BUCKET_SIZE {
        NodeRange(s.nodes, s.count, bucket);
        var split := SplitBucket(bucket);
        if !split {
          return false;
        }
        bucket, cursor := FindNode(key, cursor);
        if bucket < 0 {
          return false;
        }
      }
      ok := AppendPair(bucket, pair);
    }

    /** bucket_load: brings a bucket into the cache. */
    method LoadBucket(b: nat)
      requires Valid() && CacheFresh() && b < NODE_LIMIT
      modifies this`cacheUsed, this`cacheId, cached, count
      ensures Valid() && CacheFresh() && cacheUsed && cacheId == b
      ensures Files() == old(Files())
    {
      if cacheUsed && cacheId == b {
        return;
      }
      assert NodeOk(Files().nodes, Files().count, b);
      var size := if count[b] == 0 then BUCKET_SIZE else count[b];
      forall k | 0 <= k < size {
        cached[k] := file[b * BUCKET_SIZE + k];
      }
      cacheUsed, cacheId := true, b;
      if count[b] == 0 {
        var i := 0;
        while i < BUCKET_SIZE && !(cached[i].key == 0 && cached[i].value == 0)
          invariant i <= BUCKET_SIZE && forall j :: 0 <= j < i ==> cached[j] != NO_PAIR
        {
          i := i + 1;
        }
        assert cached[0] == Slot(Files(), b, 0) == NO_PAIR;
        assert i == 0;
        assert old(count[..])[b := 0] == old(count[..]);
        count[b] := i;
        assert count[..] == old(count[..]);
      }
      assert forall k :: 0 <= k < count[b] ==> cached[k] == Slot(Files(), b, k);
    }

    // ----- iterating --------------------------------------------------------------------------

    /** An iteration over the store that represents `m`; a key counted as found is in `m`. */
    ghost predicate Iterating(it: Iteration, m: map<Key, Key>)
      reads this, nodes, count, file, cached, it
    {
      && Valid() && CacheFresh() && Represents(Files(), m)
      && 0 <= it.min <= it.max <= KEY_MAX
      && it.nextItemNo <= 1
      && (it.nextItemNo == 1 ==> it.min in m)
    }

    /** The iteration stands between two calls of get_next. */
    ghost predicate Resumable(it: Iteration, m: map<Key, Key>)
      reads this, nodes, count, file, cached, visited, it
    {
      && Iterating(it, m)
      && (it.nextItemNo == 1 && owner == it ==>
            && visited.Length == NODE_DEPTH && PathLeft(visited[..], heapCursor) && foundItems == 1
            && NoMatch(Files(), visited[..], it.min, heapCursor, start))
    }

    /** What the iteration still has to return. */
    ghost function Rest(it: Iteration, m: map<Key, Key>): seq<Key>
      reads it
    {
      Listing(m, if it.nextItemNo == 0 then it.min else it.min + 1, it.max)
    }

    /** The first part of get_next: collects the path of the key. */
    method CollectPath(key: Key)
      requires visited.Length == NODE_DEPTH && nodes.Length == NODE_LIMIT
      requires Tree(nodes[..], count[..])
      modifies this`end, this`heapCursor, visited
      ensures var path := Path(nodes[..], hash(key), 0);
              && heapCursor == |path| - 1 < NODE_DEPTH
              && forall j :: 0 <= j < |path| ==> visited[j] == path[j]
    {
      hide Tree, HeapFind, Chain, Path;
      ghost var tree := nodes[..];
      ghost var path := Path(tree, hash(key), 0);
      PathSize(tree, count[..], hash(key));
      end := NODE_DEPTH - 1;
      var i, cursor := 0, 0;
      while i < NODE_DEPTH
        invariant i <= |path| && end == NODE_DEPTH - 1
        invariant Path(tree, hash(key), cursor) == path[i..]
        invariant forall j :: 0 <= j < i ==> visited[j] == path[j]
      {
        PathStep(tree, hash(key), cursor);
        var b;
        b, cursor := FindNode(key, cursor);
        visited[i] := b;
        if b < 0 {
          end := i - 1;
          break;
        }
        i := i + 1;
      }
      heapCursor := end;
    }

    /** The inner loop of get_next, over the bucket at the cursor. */
    method ScanBucket(it: Iteration, ghost m: map<Key, Key>) returns (r: nat)
      requires Iterating(it, m) && visited.Length == NODE_DEPTH
      requires heapCursor >= 0 && PathLeft(visited[..], heapCursor) && (foundItems == 0 ==> start == 0)
      requires Searching(Files(), visited[..], m, it.min, it.nextItemNo, foundItems, heapCursor, start)
      modifies this`cacheUsed, this`cacheId, this`foundItems, this`start, it`nextItemNo, cached, count
      ensures Files() == old(Files()) && Iterating(it, m) && visited[..] == old(visited[..])
      ensures r == INVALID_TUPLE ==>
                && it.nextItemNo == old(it.nextItemNo) && (foundItems == 0 ==> start == 0)
                && PathLeft(visited[..], heapCursor - 1)
                && Searching(Files(), visited[..], m, it.min, it.nextItemNo, foundItems, heapCursor - 1, start)
      ensures r != INVALID_TUPLE ==>
                && old(it.nextItemNo) == 0 && it.nextItemNo == 1 && it.min in m && r == m[it.min]
                && foundItems == 1 && NoMatch(Files(), visited[..], it.min, heapCursor, start)
    {
      hide Tree, Placed, Represents, Searching, NoMatch;
      ghost var s, v := Files(), visited[..];
      var b := visited[heapCursor];
      LoadBucket(b);
      var nextFreeSlot := count[b];
      BucketBound(s, hash, b);
      var i := start;
      while i < nextFreeSlot
        invariant Files() == s && visited[..] == v && cacheUsed && cacheId == b && CacheFresh()
        invariant it.nextItemNo == old(it.nextItemNo) && (foundItems == 0 ==> start == 0)
        invariant Searching(s, v, m, it.min, it.nextItemNo, foundItems, heapCursor, i)
        decreases nextFreeSlot - i
      {
        assert cached[i] == Slot(s, b, i);
        if cached[i].key == it.min {
          SearchHit(s, v, m, it.min, it.nextItemNo, foundItems, heapCursor, i);
          foundItems := foundItems + 1;
          if foundItems - 1 == it.nextItemNo {
            it.nextItemNo := it.nextItemNo + 1;
            start := i + 1;
            return cached[i].value;
          }
          SearchSkip(s, v, m, it.min, it.nextItemNo, heapCursor, i + 1);
        } else {
          SearchMiss(s, v, m, it.min, it.nextItemNo, foundItems, heapCursor, i);
        }
        i := i + 1;
      }
      SearchEnd(s, v, m, it.min, it.nextItemNo, foundItems, heapCursor, i, start);
      return INVALID_TUPLE;
    }

    /** get_next up to the point where the current key is done with. */
    method SearchKey(it: Iteration, ghost m: map<Key, Key>) returns (r: nat)
      requires Resumable(it, m)
      modifies this`cacheUsed, this`cacheId, this`owner, this`heapCursor, this`foundItems, this`start, this`end
      modifies it`nextItemNo, cached, count, visited
      ensures Files() == old(Files()) && Resumable(it, m) && owner == it
      ensures r == INVALID_TUPLE ==> it.nextItemNo == old(it.nextItemNo) && (it.nextItemNo == 0 ==> it.min !in m)
      ensures r != INVALID_TUPLE ==> old(it.nextItemNo) == 0 && it.nextItemNo == 1 && it.min in m && r == m[it.min]
    {
      hide Tree, Placed, Represents, Searching, NoMatch, Path, PathLeft;
      ghost var s := Files();
      var key: Key := it.min;
      if owner != it || it.nextItemNo == 0 {
        foundItems, start := 0, 0;
        owner := it;
        CollectPath(key);
        SearchStart(s, visited[..], hash, m, key, it.nextItemNo);
      } else {
        SearchSkip(s, visited[..], m, key, 1, heapCursor, start);
      }
      while heapCursor >= 0
        invariant Files() == s && Iterating(it, m) && it.nextItemNo == old(it.nextItemNo) && owner == it
        invariant -1 <= heapCursor && PathLeft(visited[..], heapCursor)
        invariant foundItems == 0 ==> start == 0
        invariant Searching(s, visited[..], m, key, it.nextItemNo, foundItems, heapCursor, start)
        decreases heapCursor
      {
        r := ScanBucket(it, m);
        if r != INVALID_TUPLE {
          return;
        }
        heapCursor := heapCursor - 1;
      }
      SearchOver(s, visited[..], m, key, it.nextItemNo, foundItems, start);
      return INVALID_TUPLE;
    }

    /**
      get_next.  On a store that represents `m`, successive calls return the values of the
      keys of `m` in the range of the iteration, each once and in key order, and then
      INVALID_TUPLE for ever.  Nothing is assumed about other iterations that took place
      in between: a cache that belongs to another iteration is rebuilt.
     */
    method GetNext(it: Iteration, ghost m: map<Key, Key>) returns (r: nat)
      requires Resumable(it, m)
      modifies this`cacheUsed, this`cacheId, this`owner, this`heapCursor, this`foundItems, this`start, this`end
      modifies it, cached, count, visited
      ensures Files() == old(Files()) && Resumable(it, m) && it.max == old(it.max)
      ensures var rest := old(Rest(it, m));
              if rest == [] then r == INVALID_TUPLE && Rest(it, m) == []
              else r == rest[0] && Rest(it, m) == rest[1..]
      decreases it.max - it.min
    {
      hide Tree, Placed, Represents, Searching, NoMatch, Path, PathLeft, Listing;
      ListingStep(m, it.min, it.max);
      r := SearchKey(it, m);
      if r != INVALID_TUPLE || it.min == it.max {
        return;
      }
      it.nextItemNo := 0;
      it.min := it.min + 1;
      r := GetNext(it, m);
    }

    /** The loop of a caller over one iteration, from its first call to the end. */
    method Search(lo: int, hi: int, ghost m: map<Key, Key>) returns (values: seq<nat>)
      requires Valid() && CacheFresh() && Represents(Files(), m) && 0 <= lo <= hi <= KEY_MAX
      modifies this`cacheUsed, this`cacheId, this`owner, this`heapCursor, this`foundItems, this`start, this`end
      modifies cached, count, visited
      ensures Valid() && CacheFresh() && Files() == old(Files())
      ensures ValuesBetween(m, lo, hi, values)
    {
      hide Tree, Placed, Represents, Searching, NoMatch, Path, PathLeft, Listing, ValuesBetween, Valid, CacheFresh;
      var it := new Iteration(lo, hi);
      ghost var all := Listing(m, lo, hi);
      assert Rest(it, m) == all;
      values := [];
      var r := GetNext(it, m);
      assert all[..0] == [];
      while r != INVALID_TUPLE
        invariant Resumable(it, m) && it.max == hi && Files() == old(Files())
        invariant |values| <= |all| && values == all[..|values|]
        invariant r == INVALID_TUPLE ==> |values| == |all|
        invariant r != INVALID_TUPLE ==>
                    |values| < |all| && r == all[|values|] && Rest(it, m) == all[|values| + 1..]
        decreases |all| - |values|, r != INVALID_TUPLE
      {
        values := values + [r];
        ghost var rest := Rest(it, m);
        r := GetNext(it, m);
        assert rest != [] ==> rest[0] == all[|values|] && rest[1..] == all[|values| + 1..];
      }
      assert values == all;
      ListingExact(m, lo, hi);
    }
  }
}
