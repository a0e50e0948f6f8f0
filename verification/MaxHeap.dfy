/**
  The bucket tree index of Antelope (apps/antelope/index-maxheap.c), as functions on
  the contents of its two files.

  A node accepts a range of hashed keys and owns a bucket of key-value pairs.  The
  buckets of a node fill up one slot after the other; a full node gets two children
  that split its range, and later pairs go to those.  (The comment that opens the
  source file says that a split moves the old entries into the new buckets; the
  code leaves them where they are, and so does this model.)

  `Inv` is what every run of inserts keeps.  `PathExact` characterises the search
  path, `InsertKeeps` and `InsertAddsOne` are about insert_item.
 */
module MaxHeap {

  type Key = x: int | 0 <= x <= 65535

  const BRANCH_FACTOR: nat := 2
  const BUCKET_SIZE: nat := 128
  const NODE_LIMIT: nat := 511
  const NODE_DEPTH: nat := 9
  const KEY_MAX: Key := 65535

  datatype Node = Node(min: Key, max: Key) {
    predicate Empty() { min == 0 && max == 0 }
    predicate Holds(h: Key) { !Empty() && min <= h <= max }
  }

  datatype Pair = Pair(key: Key, value: Key)

  const NO_NODE: Node := Node(0, 0)
  const NO_PAIR: Pair := Pair(0, 0)

  /** The heap file, the slot counters and the bucket file. */
  datatype Store = Store(nodes: seq<Node>, count: seq<nat>, file: seq<Pair>)

  predicate Shape(s: Store) {
    |s.nodes| == NODE_LIMIT && |s.count| == NODE_LIMIT && |s.file| == NODE_LIMIT * BUCKET_SIZE
  }

  predicate IsSlot(s: Store, b: int, k: int)
    requires Shape(s)
  {
    0 <= b < NODE_LIMIT && 0 <= k < s.count[b] <= BUCKET_SIZE
  }

  function Slot(s: Store, b: int, k: int): Pair
    requires Shape(s) && 0 <= b < NODE_LIMIT && 0 <= k < BUCKET_SIZE
  {
    s.file[b * BUCKET_SIZE + k]
  }

  // ----- the operations ---------------------------------------------------------------

  /** heap_insert from node `i` on: the first free place below the nodes that contain the range. */
  function HeapInsert(nodes: seq<Node>, min: Key, max: Key, i: nat): (r: (seq<Node>, int))
    requires |nodes| == NODE_LIMIT
    ensures |r.0| == NODE_LIMIT && -1 <= r.1 < NODE_LIMIT
    decreases NODE_LIMIT - i
  {
    if min > max || i >= NODE_LIMIT then (nodes, -1)
    else if nodes[i].Empty() then (nodes[i := Node(min, max)], i)
    else if nodes[i].min <= min && max <= nodes[i].max then HeapInsert(nodes, min, max, BRANCH_FACTOR * i + 1)
    else HeapInsert(nodes, min, max, i + 1)
  }

  /** heap_find: the first node from the iterator on that holds the hash, and the new iterator. */
  function HeapFind(nodes: seq<Node>, h: Key, i: nat, cursor: nat): (r: (int, nat))
    requires |nodes| == NODE_LIMIT
    ensures -1 <= r.0 < NODE_LIMIT
    ensures r.0 >= 0 ==> i <= r.0 && r.1 == BRANCH_FACTOR * r.0 + 1 < NODE_LIMIT
    ensures r.0 < 0 ==> r.1 == cursor
    decreases NODE_LIMIT - i
  {
    if i >= NODE_LIMIT || nodes[i].Empty() then (-1, cursor)
    else if nodes[i].min <= h <= nodes[i].max then
      var firstChild := BRANCH_FACTOR * i + 1;
      if firstChild >= NODE_LIMIT then (-1, cursor) else (i, firstChild)
    else HeapFind(nodes, h, i + 1, cursor)
  }

  /** The nodes that repeated heap_find calls return. */
  function Path(nodes: seq<Node>, h: Key, cursor: nat): (r: seq<nat>)
    requires |nodes| == NODE_LIMIT
    decreases NODE_LIMIT - cursor
  {
    var (b, next) := HeapFind(nodes, h, cursor, cursor);
    if b < 0 then [] else [b] + Path(nodes, h, next)
  }

  function Mean(n: Node): int { n.min + (n.max - n.min) / 2 }

  /** bucket_split: both children, or failure with what was written so far. */
  function Split(nodes: seq<Node>, b: nat): (r: (bool, seq<Node>))
    requires |nodes| == NODE_LIMIT && b < NODE_LIMIT
    ensures |r.1| == NODE_LIMIT
  {
    var n := nodes[b];
    var mean := if n.min <= n.max then Mean(n) else 0;
    var (nodes1, small) := HeapInsert(nodes, n.min, mean, 0);
    if small < 0 then (false, nodes1) else
    var (nodes2, large) := HeapInsert(nodes1, if mean < KEY_MAX then mean + 1 else 0, n.max, 0);
    (large >= 0, nodes2)
  }

  function Append(s: Store, b: nat, p: Pair): (r: (bool, Store))
    requires Shape(s) && b < NODE_LIMIT
    ensures Shape(r.1)
  {
    if s.count[b] >= BUCKET_SIZE then (false, s)
    else (true, s.(file := s.file[b * BUCKET_SIZE + s.count[b] := p], count := s.count[b := s.count[b] + 1]))
  }

  /** insert_item for a key whose hash is `h`. */
  function InsertItem(s: Store, p: Pair, h: Key): (r: (bool, Store))
    requires Shape(s)
    ensures Shape(r.1)
  {
    var path := Path(s.nodes, h, 0);
    if path == [] then (false, s) else
    var b := path[|path| - 1];
    PathBound(s.nodes, h, 0, |path| - 1);
    if s.count[b] != BUCKET_SIZE then Append(s, b, p) else
    var (ok, nodes) := Split(s.nodes, b);
    var s1 := s.(nodes := nodes);
    if !ok then (false, s1) else
    var (b1, _) := HeapFind(nodes, h, BRANCH_FACTOR * b + 1, BRANCH_FACTOR * b + 1);
    if b1 < 0 then (false, s1) else Append(s1, b1, p)
  }

  lemma {:induction false} PathBound(nodes: seq<Node>, h: Key, cursor: nat, k: nat)
    requires |nodes| == NODE_LIMIT && k < |Path(nodes, h, cursor)|
    ensures BRANCH_FACTOR * Path(nodes, h, cursor)[k] + 1 < NODE_LIMIT
    decreases k
  {
    var (b, next) := HeapFind(nodes, h, cursor, cursor);
    if k > 0 {
      PathBound(nodes, h, next, k - 1);
    }
  }

  // ----- the invariant -------------------------------------------------------------------

  /** How many hashes a node of that index covers: 2^16 at the root, half of it one level down. */
  function Size(i: nat): nat {
    if i == 0 then 65536 else if i < 3 then 32768 else if i < 7 then 16384
    else if i < 15 then 8192 else if i < 31 then 4096 else if i < 63 then 2048
    else if i < 127 then 1024 else if i < 255 then 512 else 256
  }

  /** Children come in pairs that split a full parent at its mean. */
  predicate PairOk(nodes: seq<Node>, count: seq<nat>, i: nat)
    requires |nodes| == NODE_LIMIT && |count| == NODE_LIMIT && i < 255
  {
    var l, r := nodes[2 * i + 1], nodes[2 * i + 2];
    && (l.Empty() <==> r.Empty())
    && (!l.Empty() ==>
          && !nodes[i].Empty() && count[i] == BUCKET_SIZE
          && l.min == nodes[i].min && l.max == Mean(nodes[i])
          && r.min == Mean(nodes[i]) + 1 && r.max == nodes[i].max)
  }

  predicate NodeOk(nodes: seq<Node>, count: seq<nat>, i: nat)
    requires |nodes| == NODE_LIMIT && |count| == NODE_LIMIT && i < NODE_LIMIT
  {
    && (!nodes[i].Empty() ==> nodes[i].max - nodes[i].min + 1 == Size(i))
    && (nodes[i].Empty() ==> count[i] == 0)
    && count[i] <= BUCKET_SIZE
  }

  /** Non-empty nodes form a tree rooted at the whole key range. */
  predicate Tree(nodes: seq<Node>, count: seq<nat>) {
    && |nodes| == NODE_LIMIT && |count| == NODE_LIMIT
    && nodes[0] == Node(0, KEY_MAX)
    && (forall i: nat :: i < 255 ==> PairOk(nodes, count, i))
    && (forall i: nat :: i < NODE_LIMIT ==> NodeOk(nodes, count, i))
  }

  /** Every stored pair lies in a node that heap_find can return for its key. */
  ghost predicate Placed(s: Store, hash: Key -> Key)
    requires Shape(s)
  {
    && (forall b, k :: IsSlot(s, b, k) ==> b < 255 && s.nodes[b].Holds(hash(Slot(s, b, k).key)))
    && (forall b, k :: 0 <= b < NODE_LIMIT && s.count[b] <= k < BUCKET_SIZE ==> Slot(s, b, k) == NO_PAIR)
  }

  ghost predicate Inv(s: Store, hash: Key -> Key) {
    Shape(s) && Tree(s.nodes, s.count) && Placed(s, hash)
  }

  /** The files after create: the root alone. */
  function Created(): (s: Store)
    ensures Shape(s)
  {
    Store(seq(NODE_LIMIT, i => if i == 0 then Node(0, KEY_MAX) else NO_NODE),
          seq(NODE_LIMIT, _ => 0), seq(NODE_LIMIT * BUCKET_SIZE, _ => NO_PAIR))
  }

  lemma CreatedInv(hash: Key -> Key)
    ensures Inv(Created(), hash)
    ensures (Created().nodes, 0) == HeapInsert(seq(NODE_LIMIT, _ => NO_NODE), 0, KEY_MAX, 0)
  {
    var s := Created();
    var empty: seq<Node> := seq(NODE_LIMIT, _ => NO_NODE);
    assert empty[0 := Node(0, KEY_MAX)] == s.nodes;
    forall b, k | 0 <= b < NODE_LIMIT && s.count[b] <= k < BUCKET_SIZE
      ensures Slot(s, b, k) == NO_PAIR
    {
    }
  }

  // ----- ranges along the tree ---------------------------------------------------------------

  function Parent(i: nat): nat
    requires i > 0
  {
    (i - 1) / 2
  }

  predicate Ancestor(a: nat, b: nat)
    decreases b
  {
    a == b || (b > 0 && Ancestor(a, Parent(b)))
  }

  lemma {:induction false} AncestorOrder(a: nat, b: nat)
    requires Ancestor(a, b)
    ensures a <= b
    decreases b
  {
    if a != b {
      AncestorOrder(a, Parent(b));
    }
  }

  /** The way down from an ancestor goes through one of its children. */
  lemma {:induction false} AncestorChild(a: nat, b: nat)
    requires Ancestor(a, b) && a != b
    ensures Ancestor(2 * a + 1, b) || Ancestor(2 * a + 2, b)
    decreases b
  {
    if Parent(b) == a {
      assert b == 2 * a + 1 || b == 2 * a + 2;
    } else {
      AncestorChild(a, Parent(b));
    }
  }

  predicate Within(inner: Node, outer: Node) {
    !inner.Empty() && !outer.Empty() && outer.min <= inner.min <= inner.max <= outer.max
  }

  /** A child's range lies in its parent's, on its own side of the mean. */
  lemma ChildRange(nodes: seq<Node>, count: seq<nat>, i: nat)
    requires Tree(nodes, count) && 0 < i < NODE_LIMIT && !nodes[i].Empty()
    ensures Within(nodes[i], nodes[Parent(i)])
    ensures i == 2 * Parent(i) + 1 ==> nodes[i].max == Mean(nodes[Parent(i)]) && nodes[i].min == nodes[Parent(i)].min
    ensures i == 2 * Parent(i) + 2 ==>
              nodes[i].min == Mean(nodes[Parent(i)]) + 1 && nodes[i].max == nodes[Parent(i)].max
  {
    var p := Parent(i);
    assert PairOk(nodes, count, p);
    assert NodeOk(nodes, count, p) && NodeOk(nodes, count, i);
  }

  lemma {:induction false} AncestorRange(nodes: seq<Node>, count: seq<nat>, a: nat, b: nat)
    requires Tree(nodes, count) && Ancestor(a, b) && b < NODE_LIMIT && !nodes[b].Empty()
    ensures a < NODE_LIMIT && Within(nodes[b], nodes[a])
    decreases b
  {
    AncestorOrder(a, b);
    assert NodeOk(nodes, count, b);
    if a != b {
      ChildRange(nodes, count, b);
      AncestorRange(nodes, count, a, Parent(b));
    }
  }

  // ----- the search path ------------------------------------------------------------------------

  /** Two children of a node never hold the same hash. */
  lemma SiblingsDisjoint(nodes: seq<Node>, count: seq<nat>, p: nat, h: Key)
    requires Tree(nodes, count) && p < 255
    requires nodes[p].Holds(h) && !nodes[2 * p + 1].Empty()
    ensures nodes[2 * p + 1].Holds(h) <==> !nodes[2 * p + 2].Holds(h)
  {
    assert PairOk(nodes, count, p);
  }

  /** One heap_find call below a node that holds the hash, or at the root. */
  lemma FindStep(nodes: seq<Node>, count: seq<nat>, h: Key, p: nat)
    requires Tree(nodes, count) && p < 255 && nodes[p].Holds(h)
    ensures var (b, _) := HeapFind(nodes, h, 2 * p + 1, 2 * p + 1);
            if nodes[2 * p + 1].Empty() || p >= 127 then b < 0
            else (b == 2 * p + 1 || b == 2 * p + 2) && nodes[b].Holds(h)
  {
    if !nodes[2 * p + 1].Empty() {
      SiblingsDisjoint(nodes, count, p, h);
      assert PairOk(nodes, count, p);
    }
  }

  /** The path is a chain of children, each holding the hash. */
  ghost predicate Chain(nodes: seq<Node>, h: Key, path: seq<nat>)
    requires |nodes| == NODE_LIMIT
  {
    && (forall k :: 0 <= k < |path| ==> path[k] < 255 && nodes[path[k]].Holds(h))
    && (forall k :: 0 < k < |path| ==> path[k] == 2 * path[k - 1] + 1 || path[k] == 2 * path[k - 1] + 2)
  }

  lemma TreeSize(nodes: seq<Node>, count: seq<nat>)
    requires Tree(nodes, count)
    ensures |nodes| == NODE_LIMIT
  {
  }

  lemma {:induction false} PathBelow(nodes: seq<Node>, count: seq<nat>, h: Key, p: nat)
    requires Tree(nodes, count) && p < 255 && nodes[p].Holds(h)
    ensures Chain(nodes, h, [p] + Path(nodes, h, 2 * p + 1))
    ensures var last := ([p] + Path(nodes, h, 2 * p + 1))[|Path(nodes, h, 2 * p + 1)|];
            last >= 127 || nodes[2 * last + 1].Empty()
    decreases 255 - p
  {
    hide Tree, HeapFind, Node.Holds, Node.Empty;
    TreeSize(nodes, count);
    FindStep(nodes, count, h, p);
    var (b, next) := HeapFind(nodes, h, 2 * p + 1, 2 * p + 1);
    if b >= 0 {
      PathBelow(nodes, count, h, b);
      var rest := Path(nodes, h, 2 * b + 1);
      assert Path(nodes, h, 2 * p + 1) == [b] + rest;
    }
  }

  /** The path misses no node of depth 0 to 7 that holds the hash. */
  lemma {:induction false} PathCovers(nodes: seq<Node>, count: seq<nat>, h: Key, p: nat, i: nat)
    requires Tree(nodes, count) && p < i < 255 && Ancestor(p, i) && nodes[p].Holds(h) && nodes[i].Holds(h)
    ensures i in Path(nodes, h, 2 * p + 1)
    decreases 255 - p
  {
    hide Tree, HeapFind, Node.Holds, Node.Empty, Ancestor;
    TreeSize(nodes, count);
    HolderChild(nodes, count, h, p, i);
    FindStep(nodes, count, h, p);
    SiblingsDisjoint(nodes, count, p, h);
    var (b, next) := HeapFind(nodes, h, 2 * p + 1, 2 * p + 1);
    assert Ancestor(b, i);
    AncestorOrder(b, i);
    assert Path(nodes, h, 2 * p + 1) == [b] + Path(nodes, h, 2 * b + 1);
    if b < i {
      PathCovers(nodes, count, h, b, i);
    }
  }

  /** Below `p`, a node that holds the hash is reached through a child that holds it. */
  lemma HolderChild(nodes: seq<Node>, count: seq<nat>, h: Key, p: nat, i: nat)
    requires Tree(nodes, count) && p < i < 255 && Ancestor(p, i) && nodes[p].Holds(h) && nodes[i].Holds(h)
    ensures p < 127 && !nodes[2 * p + 1].Empty()
    ensures || (Ancestor(2 * p + 1, i) && nodes[2 * p + 1].Holds(h))
            || (Ancestor(2 * p + 2, i) && nodes[2 * p + 2].Holds(h))
  {
    AncestorChild(p, i);
    var c := if Ancestor(2 * p + 1, i) then 2 * p + 1 else 2 * p + 2;
    AncestorOrder(c, i);
    AncestorRange(nodes, count, c, i);
    assert PairOk(nodes, count, p);
  }

  lemma {:induction false} RootAncestor(i: nat)
    ensures Ancestor(0, i)
    decreases i
  {
    if i > 0 {
      RootAncestor(Parent(i));
    }
  }

  /**
    Iterating heap_find from the root returns exactly the nodes of depths 0 to 7
    whose range holds the hash, from the root downwards, and ends at a node that
    has no children it could go to.
   */
  lemma PathExact(nodes: seq<Node>, count: seq<nat>, h: Key)
    requires Tree(nodes, count)
    ensures var path := Path(nodes, h, 0);
            && |path| > 0 && path[0] == 0
            && Chain(nodes, h, path)
            && (forall i: nat :: i in path <==> i < 255 && nodes[i].Holds(h))
            && (path[|path| - 1] >= 127 || nodes[2 * path[|path| - 1] + 1].Empty())
  {
    hide Tree, Path, HeapFind, Node.Holds;
    RootPath(nodes, count, h);
    PathBelow(nodes, count, h, 0);
    forall i: nat | i < 255 && nodes[i].Holds(h)
      ensures i in Path(nodes, h, 0)
    {
      PathComplete(nodes, count, h, i);
    }
  }

  lemma RootPath(nodes: seq<Node>, count: seq<nat>, h: Key)
    requires Tree(nodes, count)
    ensures |nodes| == NODE_LIMIT && nodes[0].Holds(h) && Path(nodes, h, 0) == [0] + Path(nodes, h, 1)
  {
  }

  lemma PathComplete(nodes: seq<Node>, count: seq<nat>, h: Key, i: nat)
    requires Tree(nodes, count) && i < 255 && nodes[i].Holds(h)
    ensures i in Path(nodes, h, 0)
  {
    hide Tree, Path, Node.Holds;
    RootPath(nodes, count, h);
    RootAncestor(i);
    if i > 0 {
      PathCovers(nodes, count, h, 0, i);
    }
  }

  // ----- splitting a full node ----------------------------------------------------------------------

  /** heap_insert of a part of a node's range goes down to that node and then looks among its
      children.  Only nodes up to `b` matter on the way. */
  lemma {:induction false} InsertDescends(nodes: seq<Node>, count: seq<nat>, now: seq<Node>,
                                          min: Key, max: Key, b: nat, a: nat)
    requires Tree(nodes, count) && |now| == NODE_LIMIT
    requires b < 255 && !nodes[b].Empty() && nodes[b].min <= min <= max <= nodes[b].max
    requires forall i :: 0 <= i <= b ==> now[i] == nodes[i]
    requires Ancestor(a, b)
    ensures HeapInsert(now, min, max, a) == HeapInsert(now, min, max, 2 * b + 1)
    decreases b - a
  {
    AncestorOrder(a, b);
    AncestorRange(nodes, count, a, b);
    if a != b {
      AncestorChild(a, b);
      var c := if Ancestor(2 * a + 1, b) then 2 * a + 1 else 2 * a + 2;
      AncestorOrder(c, b);
      AncestorRange(nodes, count, c, b);
      assert PairOk(nodes, count, a);
      InsertDescends(nodes, count, now, min, max, b, c);
    }
  }

  function SplitNodes(nodes: seq<Node>, b: nat): (r: seq<Node>)
    requires |nodes| == NODE_LIMIT && b < 255 && nodes[b].min < nodes[b].max
    ensures |r| == NODE_LIMIT
  {
    nodes[2 * b + 1 := Node(nodes[b].min, Mean(nodes[b]))][2 * b + 2 := Node(Mean(nodes[b]) + 1, nodes[b].max)]
  }

  /** Splitting a leaf writes its two halves side by side below it. */
  lemma SplitLeaf(nodes: seq<Node>, count: seq<nat>, b: nat)
    requires Tree(nodes, count) && b < 255 && !nodes[b].Empty() && nodes[2 * b + 1].Empty()
    ensures nodes[b].min < nodes[b].max
    ensures Split(nodes, b) == (true, SplitNodes(nodes, b))
  {
    var n := nodes[b];
    var mean := Mean(n);
    assert NodeOk(nodes, count, b);
    assert PairOk(nodes, count, b);
    RootAncestor(b);
    InsertDescends(nodes, count, nodes, n.min, mean, b, 0);
    var nodes1 := nodes[2 * b + 1 := Node(n.min, mean)];
    assert HeapInsert(nodes, n.min, mean, 0) == (nodes1, 2 * b + 1);
    InsertDescends(nodes, count, nodes1, mean + 1, n.max, b, 0);
    assert HeapInsert(nodes1, mean + 1, n.max, 2 * b + 1) == HeapInsert(nodes1, mean + 1, n.max, 2 * b + 2);
  }

  /** A node of depth 7 that was split before cannot be split again; nothing is written. */
  lemma SplitBottom(nodes: seq<Node>, count: seq<nat>, b: nat)
    requires Tree(nodes, count) && 127 <= b < 255 && !nodes[b].Empty() && !nodes[2 * b + 1].Empty()
    ensures Split(nodes, b) == (false, nodes)
  {
    var n := nodes[b];
    assert NodeOk(nodes, count, b);
    assert PairOk(nodes, count, b);
    RootAncestor(b);
    InsertDescends(nodes, count, nodes, n.min, Mean(n), b, 0);
  }

  lemma SplitKeepsTree(nodes: seq<Node>, count: seq<nat>, b: nat)
    requires Tree(nodes, count) && b < 255 && !nodes[b].Empty() && nodes[2 * b + 1].Empty()
    requires count[b] == BUCKET_SIZE && nodes[b].min < nodes[b].max
    ensures Tree(SplitNodes(nodes, b), count)
    ensures forall i: nat :: i < NODE_LIMIT && !nodes[i].Empty() ==> SplitNodes(nodes, b)[i] == nodes[i]
  {
    var after := SplitNodes(nodes, b);
    assert PairOk(nodes, count, b) && NodeOk(nodes, count, b);
    forall i: nat | i < NODE_LIMIT
      ensures NodeOk(after, count, i)
    {
      assert NodeOk(nodes, count, i);
    }
    forall i: nat | i < 255
      ensures PairOk(after, count, i)
    {
      assert PairOk(nodes, count, i);
    }
  }

  // ----- one insert -------------------------------------------------------------------------------------

  /** Where a pair with hash `h` goes, and the nodes after a split that this may take. */
  function LastOnPath(nodes: seq<Node>, h: Key): (r: int)
    requires |nodes| == NODE_LIMIT
    ensures -1 <= r < 255
  {
    var path := Path(nodes, h, 0);
    if path == [] then -1 else
    PathBound(nodes, h, 0, |path| - 1);
    path[|path| - 1]
  }

  /** The insert is refused exactly when the path ends at depth 7 in a full bucket. */
  predicate Refused(s: Store, h: Key)
    requires Shape(s)
  {
    var b := LastOnPath(s.nodes, h);
    b >= 127 && s.count[b] == BUCKET_SIZE
  }

  lemma InsertCases(s: Store, p: Pair, h: Key) returns (nodes: seq<Node>, b: nat)
    requires Shape(s) && Tree(s.nodes, s.count)
    ensures Tree(nodes, s.count) && b < 255 && nodes[b].Holds(h)
    ensures forall i: nat :: i < NODE_LIMIT && !s.nodes[i].Empty() ==> nodes[i] == s.nodes[i]
    ensures var (ok, s1) := InsertItem(s, p, h);
            && (ok <==> !Refused(s, h))
            && (ok ==> s.count[b] < BUCKET_SIZE && (ok, s1) == Append(s.(nodes := nodes), b, p))
            && (!ok ==> s1 == s.(nodes := nodes))
  {
    hide Path, HeapFind, Split, SplitNodes;
    PathExact(s.nodes, s.count, h);
    var last := LastOnPath(s.nodes, h);
    var path := Path(s.nodes, h, 0);
    assert path[|path| - 1] in path;
    assert NodeOk(s.nodes, s.count, last);
    nodes, b := s.nodes, last;
    if s.count[last] == BUCKET_SIZE {
      if s.nodes[2 * last + 1].Empty() {
        SplitLeaf(s.nodes, s.count, last);
        SplitKeepsTree(s.nodes, s.count, last);
        nodes := SplitNodes(s.nodes, last);
        SplitChild(s.nodes, last);
        FindStep(nodes, s.count, h, last);
        if last < 127 {
          b := HeapFind(nodes, h, 2 * last + 1, 2 * last + 1).0;
          assert PairOk(s.nodes, s.count, last) && NodeOk(s.nodes, s.count, b);
        }
      } else {
        SplitBottom(s.nodes, s.count, last);
      }
    }
  }

  lemma SplitChild(nodes: seq<Node>, b: nat)
    requires |nodes| == NODE_LIMIT && b < 255 && nodes[b].min < nodes[b].max
    ensures !SplitNodes(nodes, b)[2 * b + 1].Empty() || Mean(nodes[b]) == 0
    ensures SplitNodes(nodes, b)[b] == nodes[b]
  {
  }

  lemma AppendKeepsTree(nodes: seq<Node>, count: seq<nat>, b: nat)
    requires Tree(nodes, count) && b < NODE_LIMIT && !nodes[b].Empty() && count[b] < BUCKET_SIZE
    ensures Tree(nodes, count[b := count[b] + 1])
  {
    var after := count[b := count[b] + 1];
    forall i: nat | i < NODE_LIMIT
      ensures NodeOk(nodes, after, i)
    {
      assert NodeOk(nodes, count, i);
    }
    forall i: nat | i < 255
      ensures PairOk(nodes, after, i)
    {
      assert PairOk(nodes, count, i);
    }
  }

  lemma AppendKeepsPlaced(s: Store, b: nat, p: Pair, hash: Key -> Key)
    requires Shape(s) && Placed(s, hash) && b < 255 && s.nodes[b].Holds(hash(p.key))
    requires s.count[b] < BUCKET_SIZE
    ensures Placed(Append(s, b, p).1, hash)
  {
    var t := Append(s, b, p).1;
    forall c, k | 0 <= c < NODE_LIMIT && 0 <= k < BUCKET_SIZE
      ensures Slot(t, c, k) == if (c, k) == (b, s.count[b]) then p else Slot(s, c, k)
    {
    }
    forall c, k | IsSlot(t, c, k)
      ensures c < 255 && t.nodes[c].Holds(hash(Slot(t, c, k).key))
    {
      if (c, k) != (b, s.count[b]) {
        assert IsSlot(s, c, k);
      }
    }
  }

  lemma NodesKeepPlaced(s: Store, nodes: seq<Node>, hash: Key -> Key)
    requires Shape(s) && Placed(s, hash) && |nodes| == NODE_LIMIT
    requires forall i: nat :: i < NODE_LIMIT && !s.nodes[i].Empty() ==> nodes[i] == s.nodes[i]
    ensures Placed(s.(nodes := nodes), hash)
  {
    var t := s.(nodes := nodes);
    forall c, k | IsSlot(t, c, k)
      ensures c < 255 && t.nodes[c].Holds(hash(Slot(t, c, k).key))
    {
      assert IsSlot(s, c, k) && Slot(s, c, k) == Slot(t, c, k);
    }
    forall c, k | 0 <= c < NODE_LIMIT && t.count[c] <= k < BUCKET_SIZE
      ensures Slot(t, c, k) == NO_PAIR
    {
      assert Slot(s, c, k) == NO_PAIR;
    }
  }

  /** Every insert, successful or not, keeps the invariant. */
  lemma InsertKeeps(s: Store, p: Pair, hash: Key -> Key)
    requires Inv(s, hash)
    ensures Inv(InsertItem(s, p, hash(p.key)).1, hash)
  {
    hide Tree, Placed, InsertItem;
    var h := hash(p.key);
    var nodes, b := InsertCases(s, p, h);
    var t := s.(nodes := nodes);
    NodesKeepPlaced(s, nodes, hash);
    if InsertItem(s, p, h).0 {
      AppendKeepsTree(nodes, s.count, b);
      AppendKeepsPlaced(t, b, p, hash);
    }
  }

  // ----- what is stored ------------------------------------------------------------------------------------

  predicate Bounded(s: Store) {
    Shape(s) && forall b :: 0 <= b < NODE_LIMIT ==> s.count[b] <= BUCKET_SIZE
  }

  function Bucket(s: Store, b: nat): seq<Pair>
    requires Bounded(s) && b < NODE_LIMIT
  {
    s.file[b * BUCKET_SIZE..b * BUCKET_SIZE + s.count[b]]
  }

  function ContentsOf(s: Store, n: nat): multiset<Pair>
    requires Bounded(s) && n <= NODE_LIMIT
  {
    if n == 0 then multiset{} else ContentsOf(s, n - 1) + multiset(Bucket(s, n - 1))
  }

  /** All pairs in all buckets. */
  function Contents(s: Store): multiset<Pair>
    requires Bounded(s)
  {
    ContentsOf(s, NODE_LIMIT)
  }

  lemma {:induction false} ContentsSame(s: Store, t: Store, n: nat)
    requires Bounded(s) && Bounded(t) && n <= NODE_LIMIT
    requires forall b :: 0 <= b < n ==> Bucket(s, b) == Bucket(t, b)
    ensures ContentsOf(s, n) == ContentsOf(t, n)
    decreases n
  {
    hide Bucket;
    if n > 0 {
      ContentsSame(s, t, n - 1);
    }
  }

  lemma {:induction false} ContentsMore(s: Store, t: Store, c: nat, p: Pair, n: nat)
    requires Bounded(s) && Bounded(t) && c < n <= NODE_LIMIT
    requires forall b :: 0 <= b < NODE_LIMIT && b != c ==> Bucket(s, b) == Bucket(t, b)
    requires Bucket(t, c) == Bucket(s, c) + [p]
    ensures ContentsOf(t, n) == ContentsOf(s, n) + multiset{p}
    decreases n
  {
    hide Bucket;
    if n == c + 1 {
      ContentsSame(s, t, c);
    } else {
      ContentsMore(s, t, c, p, n - 1);
    }
  }

  lemma AppendBuckets(s: Store, c: nat, p: Pair)
    requires Bounded(s) && c < NODE_LIMIT && s.count[c] < BUCKET_SIZE
    ensures var t := Append(s, c, p).1;
            && Bounded(t)
            && (forall b :: 0 <= b < NODE_LIMIT && b != c ==> Bucket(s, b) == Bucket(t, b))
            && Bucket(t, c) == Bucket(s, c) + [p]
  {
    var t := Append(s, c, p).1;
    forall b | 0 <= b < NODE_LIMIT && b != c
      ensures Bucket(s, b) == Bucket(t, b)
    {
      if b < c {
        assert b * BUCKET_SIZE + s.count[b] <= c * BUCKET_SIZE;
      } else {
        assert c * BUCKET_SIZE + BUCKET_SIZE <= b * BUCKET_SIZE;
      }
    }
  }

  lemma InvBounded(s: Store, hash: Key -> Key)
    requires Inv(s, hash)
    ensures Bounded(s)
  {
    forall b | 0 <= b < NODE_LIMIT
      ensures s.count[b] <= BUCKET_SIZE
    {
      assert NodeOk(s.nodes, s.count, b);
    }
  }

  /** A successful insert adds exactly one pair, a failed one adds none; it fails
      exactly when the path of the key ends at depth 7 in a full bucket. */
  lemma InsertAddsOne(s: Store, p: Pair, hash: Key -> Key)
    requires Inv(s, hash)
    ensures Bounded(s)
    ensures var (ok, t) := InsertItem(s, p, hash(p.key));
            && Bounded(t)
            && Contents(t) == Contents(s) + (if ok then multiset{p} else multiset{})
            && (ok <==> !Refused(s, hash(p.key)))
  {
    hide Tree, Placed, InsertItem, Refused, Bucket;
    var h := hash(p.key);
    InvBounded(s, hash);
    var nodes, b := InsertCases(s, p, h);
    var t := s.(nodes := nodes);
    SameFiles(s, t);
    ContentsSame(s, t, NODE_LIMIT);
    if InsertItem(s, p, h).0 {
      AppendBuckets(t, b, p);
      ContentsMore(t, Append(t, b, p).1, b, p, NODE_LIMIT);
    }
  }

  lemma SameFiles(s: Store, t: Store)
    requires Bounded(s) && Shape(t) && t.count == s.count && t.file == s.file
    ensures Bounded(t) && forall b :: 0 <= b < NODE_LIMIT ==> Bucket(s, b) == Bucket(t, b)
  {
  }
}
