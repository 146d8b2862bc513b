/**
 The max-heap index of Antelope (apps/antelope/index-maxheap.c): a binary tree of key ranges in one
 array, with a bucket of key-value pairs for every node.  A full bucket is not emptied: its range is
 split into two child nodes, and later pairs go to their buckets.

 Keys and hashed keys have 16 bits; the hash is a function of the key.  Buckets are read from
 storage, not from the cache of the original, and reading and writing do not fail.
 */
module MaxheapIndex {
  import opened Options

  const NODE_LIMIT := 511
  const BUCKET_SIZE := 128
  // The nodes of the last level have no bucket that is ever used.
  const LEAVES := 255

  datatype Node = Node(min: nat, max: nat)
  datatype Pair = Pair(key: nat, value: nat)

  predicate EmptyNode(n: Node) { n.min == 0 && n.max == 0 }

  // ---------------------------------------------------------------- ranges

  function Mean(n: Node): nat {
    if n.min <= n.max then n.min + (n.max - n.min) / 2 else n.min
  }

  // The halves of a range
  function Low(n: Node): Node { Node(n.min, Mean(n)) }
  function High(n: Node): Node { Node(Mean(n) + 1, n.max) }

  predicate Has(n: Node, hash: nat) { n.min <= hash <= n.max }

  /** The halves partition the range. */
  lemma HalvesPartition(n: Node, hash: nat)
    requires n.min < n.max
    ensures Has(n, hash) <==> Has(Low(n), hash) || Has(High(n), hash)
    ensures !(Has(Low(n), hash) && Has(High(n), hash))
  {
  }

  // The width of the ranges of a level of the tree
  function Width(i: nat): nat {
    if i == 0 then 0x1_0000 else if i <= 2 then 0x8000 else if i <= 6 then 0x4000 else if i <= 14 then 0x2000
    else if i <= 30 then 0x1000 else if i <= 62 then 0x800 else if i <= 126 then 0x400 else if i <= 254 then 0x200
    else 0x100
  }

  // ---------------------------------------------------------------- the tree

  predicate Filled(nodes: seq<Node>, i: nat) { i < |nodes| && !EmptyNode(nodes[i]) }

  // A node that exists has the width of its level.
  predicate WidthAt(nodes: seq<Node>, i: nat) {
    Filled(nodes, i) ==> nodes[i].max == nodes[i].min + Width(i) - 1 && nodes[i].max < 0x1_0000
  }

  // A node has no children, or two that halve its range.
  predicate ChildrenAt(nodes: seq<Node>, i: nat) {
    i < LEAVES && |nodes| == NODE_LIMIT ==>
      if Filled(nodes, 2 * i + 1) then
        Filled(nodes, i) && nodes[2 * i + 1] == Low(nodes[i]) && nodes[2 * i + 2] == High(nodes[i])
      else !Filled(nodes, 2 * i + 2)
  }

  // The same while the children of a node are being made, the first of them before the second
  predicate GrowingAt(nodes: seq<Node>, i: nat) {
    i < LEAVES && |nodes| == NODE_LIMIT ==>
      if Filled(nodes, 2 * i + 1) then
        Filled(nodes, i) && nodes[2 * i + 1] == Low(nodes[i]) &&
        (Filled(nodes, 2 * i + 2) ==> nodes[2 * i + 2] == High(nodes[i]))
      else !Filled(nodes, 2 * i + 2)
  }

  predicate Rooted(nodes: seq<Node>) { |nodes| == NODE_LIMIT && nodes[0] == Node(0, 0xffff) }

  ghost predicate Tree(nodes: seq<Node>) {
    Rooted(nodes) && (forall i: nat :: WidthAt(nodes, i)) && forall i: nat :: ChildrenAt(nodes, i)
  }

  ghost predicate Growing(nodes: seq<Node>) {
    Rooted(nodes) && (forall i: nat :: WidthAt(nodes, i)) && forall i: nat :: GrowingAt(nodes, i)
  }

  lemma TreeGrows(nodes: seq<Node>)
    requires Tree(nodes)
    ensures Growing(nodes)
  {
    forall i: nat
      ensures GrowingAt(nodes, i)
    {
      assert ChildrenAt(nodes, i);
    }
  }

  // The range of a node by its position alone
  function Range(i: nat): Node
    decreases i
  {
    if i == 0 then Node(0, 0xffff)
    else if i % 2 == 1 then Low(Range((i - 1) / 2))
    else High(Range((i - 1) / 2))
  }

  /** The range of a node depends only on its position. */
  lemma {:induction false} PositionDetermines(nodes: seq<Node>, i: nat)
    requires Tree(nodes) && Filled(nodes, i)
    ensures nodes[i] == Range(i)
    decreases i
  {
    if i > 0 {
      var p := (i - 1) / 2;
      assert ChildrenAt(nodes, p);
      PositionDetermines(nodes, p);
    }
  }

  // ---------------------------------------------------------------- looking for nodes

  // The loop of heap_insert from position `i` on
  function PlaceFor(nodes: seq<Node>, r: Node, i: nat): Option<nat>
    decreases NODE_LIMIT - i, |nodes|
  {
    if i >= |nodes| || i >= NODE_LIMIT then None
    else if EmptyNode(nodes[i]) then Some(i)
    else if nodes[i].min <= r.min && r.max <= nodes[i].max then PlaceFor(nodes, r, 2 * i + 1)
    else PlaceFor(nodes, r, i + 1)
  }

  // The loop of heap_find from position `i` on
  function NodeFor(nodes: seq<Node>, hash: nat, i: nat): (r: Option<nat>)
    ensures r.Some? ==> r.value < LEAVES
    decreases NODE_LIMIT - i, |nodes|
  {
    if i >= |nodes| || i >= NODE_LIMIT || EmptyNode(nodes[i]) then None
    else if Has(nodes[i], hash) then if 2 * i + 1 >= NODE_LIMIT then None else Some(i)
    else NodeFor(nodes, hash, i + 1)
  }

  predicate Inside(r: Node, n: Node) { n.min <= r.min <= r.max <= n.max }

  // From one of the children of a node to the first child of that
  lemma PlaceChild(nodes: seq<Node>, r: Node, q: nat, p: nat)
    requires Growing(nodes) && p < LEAVES && Filled(nodes, p) && Inside(r, nodes[p])
    requires (p == 2 * q + 1 || p == 2 * q + 2)
    ensures PlaceFor(nodes, r, 2 * q + 1) == PlaceFor(nodes, r, 2 * p + 1)
    ensures Filled(nodes, q) && Inside(r, nodes[q])
  {
    assert GrowingAt(nodes, q) && WidthAt(nodes, q);
  }

  // Searching for a place for a range in that of a node comes to the first child of the node.
  lemma {:induction false} PlaceBelow(nodes: seq<Node>, r: Node, p: nat)
    requires Growing(nodes) && p < LEAVES && Filled(nodes, p) && Inside(r, nodes[p])
    ensures PlaceFor(nodes, r, 0) == PlaceFor(nodes, r, 2 * p + 1)
    decreases p
  {
    if p > 0 {
      var q := (p - 1) / 2;
      PlaceChild(nodes, r, q, p);
      PlaceBelow(nodes, r, q);
    }
  }

  // The child of a node whose range has the hashed key
  function Child(nodes: seq<Node>, i: nat, hash: nat): (c: nat)
    requires i < |nodes|
    ensures c == 2 * i + 1 || c == 2 * i + 2
  {
    if hash <= Mean(nodes[i]) then 2 * i + 1 else 2 * i + 2
  }

  // Looking below a node finds its child on the path of the hashed key, if that has a bucket.
  lemma NodeBelow(nodes: seq<Node>, hash: nat, p: nat)
    requires Tree(nodes) && p < LEAVES && Filled(nodes, p) && Has(nodes[p], hash)
    ensures var c := Child(nodes, p, hash);
      && (Filled(nodes, c) ==> Has(nodes[c], hash))
      && NodeFor(nodes, hash, 2 * p + 1) == if Filled(nodes, c) && c < LEAVES then Some(c) else None
  {
    assert ChildrenAt(nodes, p) && WidthAt(nodes, p);
  }

  // ---------------------------------------------------------------- splitting a node

  // The nodes after the children of `b` have been made
  function SplitNode(nodes: seq<Node>, b: nat): seq<Node>
    requires |nodes| == NODE_LIMIT && b < LEAVES
  {
    nodes[2 * b + 1 := Low(nodes[b])][2 * b + 2 := High(nodes[b])]
  }

  lemma HalfSplit(nodes: seq<Node>, b: nat)
    requires Tree(nodes) && b < LEAVES && Filled(nodes, b) && !Filled(nodes, 2 * b + 1)
    ensures Growing(nodes[2 * b + 1 := Low(nodes[b])])
  {
    var now := nodes[2 * b + 1 := Low(nodes[b])];
    assert WidthAt(nodes, b);
    forall i: nat
      ensures WidthAt(now, i) && GrowingAt(now, i)
    {
      assert WidthAt(nodes, i) && ChildrenAt(nodes, i);
    }
  }

  /** Splitting keeps the tree, and no node that exists changes. */
  lemma SplitKeepsTree(nodes: seq<Node>, b: nat)
    requires Tree(nodes) && b < LEAVES && Filled(nodes, b) && !Filled(nodes, 2 * b + 1)
    ensures Tree(SplitNode(nodes, b))
    ensures forall i: nat | Filled(nodes, i) :: SplitNode(nodes, b)[i] == nodes[i]
  {
    var now := SplitNode(nodes, b);
    assert WidthAt(nodes, b) && ChildrenAt(nodes, b);
    forall i: nat
      ensures WidthAt(now, i) && ChildrenAt(now, i)
    {
      assert WidthAt(nodes, i) && ChildrenAt(nodes, i);
    }
  }

  // Where heap_insert puts the two halves of a range
  lemma SplitPlaces(nodes: seq<Node>, b: nat)
    requires Tree(nodes) && b < LEAVES && Filled(nodes, b) && (Filled(nodes, 2 * b + 1) ==> 2 * b + 1 >= LEAVES)
    ensures nodes[b].min < nodes[b].max
    ensures PlaceFor(nodes, Low(nodes[b]), 0) == if Filled(nodes, 2 * b + 1) then None else Some(2 * b + 1)
    ensures !Filled(nodes, 2 * b + 1) ==>
      PlaceFor(nodes[2 * b + 1 := Low(nodes[b])], High(nodes[b]), 0) == Some(2 * b + 2)
  {
    assert WidthAt(nodes, b) && ChildrenAt(nodes, b);
    TreeGrows(nodes);
    PlaceBelow(nodes, Low(nodes[b]), b);
    if !Filled(nodes, 2 * b + 1) {
      HalfSplit(nodes, b);
      PlaceBelow(nodes[2 * b + 1 := Low(nodes[b])], High(nodes[b]), b);
    }
  }

  // ---------------------------------------------------------------- buckets

  type Key = k: nat | k < 0x1_0000
  type Hash = Key -> Key

  // The deepest node below `i` that is on the path of the hashed key and has a bucket
  function Deep(nodes: seq<Node>, hash: nat, i: nat): (b: nat)
    requires i < LEAVES && |nodes| == NODE_LIMIT
    ensures i <= b < LEAVES
    decreases LEAVES - i, |nodes|
  {
    var c := Child(nodes, i, hash);
    if c < LEAVES && Filled(nodes, c) then Deep(nodes, hash, c) else i
  }

  predicate PairAt(nodes: seq<Node>, b: nat, hash: Hash, p: Pair) {
    p.key < 0x1_0000 && b < LEAVES && Filled(nodes, b) && Has(nodes[b], hash(p.key))
  }

  // Every pair of the bucket has the node on the path of its hashed key.
  ghost predicate BucketAt(nodes: seq<Node>, buckets: seq<seq<Pair>>, hash: Hash, b: nat) {
    b < |buckets| ==> |buckets[b]| <= BUCKET_SIZE && forall p | p in buckets[b] :: PairAt(nodes, b, hash, p)
  }

  ghost predicate Placed(nodes: seq<Node>, buckets: seq<seq<Pair>>, hash: Hash) {
    |buckets| == NODE_LIMIT && forall b: nat :: BucketAt(nodes, buckets, hash, b)
  }

  lemma AppendKeepsPlaced(nodes: seq<Node>, buckets: seq<seq<Pair>>, hash: Hash, b: nat, p: Pair)
    requires Placed(nodes, buckets, hash) && b < LEAVES && |buckets[b]| < BUCKET_SIZE && PairAt(nodes, b, hash, p)
    ensures Placed(nodes, buckets[b := buckets[b] + [p]], hash)
  {
    var now := buckets[b := buckets[b] + [p]];
    forall c: nat
      ensures BucketAt(nodes, now, hash, c)
    {
      assert BucketAt(nodes, buckets, hash, c);
    }
  }

  lemma SplitKeepsPlaced(nodes: seq<Node>, buckets: seq<seq<Pair>>, hash: Hash, b: nat)
    requires Tree(nodes) && Placed(nodes, buckets, hash) && b < LEAVES && Filled(nodes, b) && !Filled(nodes, 2 * b + 1)
    ensures Placed(SplitNode(nodes, b), buckets, hash)
  {
    var now := SplitNode(nodes, b);
    SplitKeepsTree(nodes, b);
    forall c: nat
      ensures BucketAt(now, buckets, hash, c)
    {
      assert BucketAt(nodes, buckets, hash, c);
    }
  }

  // Only nodes that exist have pairs.
  lemma PairsHaveNodes(nodes: seq<Node>, buckets: seq<seq<Pair>>, hash: Hash, c: nat)
    requires Placed(nodes, buckets, hash) && c < NODE_LIMIT
    ensures buckets[c] != [] ==> c < LEAVES && Filled(nodes, c)
  {
    assert BucketAt(nodes, buckets, hash, c);
    if buckets[c] != [] {
      assert PairAt(nodes, c, hash, buckets[c][0]);
    }
  }

  // ---------------------------------------------------------------- the heap

  /** A heap in its two files, with the number of pairs in each bucket as its length */
  class Heap {
    const hash: Hash
    const nodes: array<Node>
    const buckets: array<seq<Pair>>

    ghost predicate Valid()
      reads nodes, buckets
    {
      Tree(nodes[..]) && Placed(nodes[..], buckets[..], hash)
    }

    // create: one node for all keys
    constructor (hash: Hash)
      ensures Valid() && fresh(nodes) && fresh(buckets) && this.hash == hash
      ensures forall b | 0 <= b < NODE_LIMIT :: buckets[b] == []
    {
      this.hash := hash;
      nodes := new Node[NODE_LIMIT](_ => Node(0, 0));
      buckets := new seq<Pair>[NODE_LIMIT](_ => []);
      new;
      nodes[0] := Node(0, 0xffff);
      forall i: nat
        ensures WidthAt(nodes[..], i) && ChildrenAt(nodes[..], i)
      {
      }
      forall b: nat
        ensures BucketAt(nodes[..], buckets[..], hash, b)
      {
      }
    }

    // heap_insert
    method HeapInsert(min: nat, max: nat) returns (at: int)
      requires nodes.Length == NODE_LIMIT && min <= max
      modifies nodes
      ensures match PlaceFor(old(nodes[..]), Node(min, max), 0)
        case None => at == -1 && nodes[..] == old(nodes[..])
        case Some(i) => at == i < NODE_LIMIT && nodes[..] == old(nodes[..])[i := Node(min, max)]
    {
      var i: nat := 0;
      while i < NODE_LIMIT
        invariant PlaceFor(nodes[..], Node(min, max), 0) == PlaceFor(nodes[..], Node(min, max), i)
        invariant nodes[..] == old(nodes[..])
        decreases NODE_LIMIT - i
      {
        var node := nodes[i];
        if EmptyNode(node) {
          nodes[i] := Node(min, max);
          return i;
        } else if node.min <= min && max <= node.max {
          i := 2 * i + 1;
        } else {
          i := i + 1;
        }
      }
      return -1;
    }

    // heap_find
    method HeapFind(key: Key, from: nat) returns (at: int, next: nat)
      requires nodes.Length == NODE_LIMIT
      ensures match NodeFor(nodes[..], hash(key), from)
        case None => at == -1 && next == from
        case Some(i) => at == i && next == 2 * i + 1
    {
      var hashed := hash(key);
      var i := from;
      next := from;
      while i < NODE_LIMIT
        invariant NodeFor(nodes[..], hashed, from) == NodeFor(nodes[..], hashed, i)
      {
        var node := nodes[i];
        if EmptyNode(node) {
          break;
        } else if Has(node, hashed) {
          if 2 * i + 1 >= NODE_LIMIT {
            break;
          }
          return i, 2 * i + 1;
        } else {
          i := i + 1;
        }
      }
      at := -1;
    }

    // bucket_append
    method BucketAppend(b: nat, p: Pair)
      requires Valid() && b < LEAVES && |buckets[b]| < BUCKET_SIZE && PairAt(nodes[..], b, hash, p)
      modifies buckets
      ensures Valid() && buckets[..] == old(buckets[..])[b := old(buckets[b]) + [p]]
    {
      AppendKeepsPlaced(nodes[..], buckets[..], hash, b, p);
      buckets[b] := buckets[b] + [p];
      assert buckets[..] == old(buckets[..])[b := old(buckets[b]) + [p]];
    }

    // bucket_split, for a node without children or one whose children have no buckets
    method BucketSplit(b: nat) returns (ok: bool)
      requires Valid() && b < LEAVES && Filled(nodes[..], b)
      requires Filled(nodes[..], 2 * b + 1) ==> 2 * b + 1 >= LEAVES
      modifies nodes
      ensures Valid() && ok == !Filled(old(nodes[..]), 2 * b + 1)
      ensures nodes[..] == if ok then SplitNode(old(nodes[..]), b) else old(nodes[..])
    {
      SplitPlaces(nodes[..], b);
      if !Filled(nodes[..], 2 * b + 1) {
        SplitKeepsTree(nodes[..], b);
        SplitKeepsPlaced(nodes[..], buckets[..], hash, b);
      }
      var node := nodes[b];
      ok := InsertHalves(node.min, Mean(node), node.max, 2 * b + 1);
    }

    // The two insertions of bucket_split
    method InsertHalves(min: nat, mean: nat, max: nat, ghost first: nat) returns (ok: bool)
      requires nodes.Length == NODE_LIMIT && min <= mean < max && first + 1 < NODE_LIMIT
      requires PlaceFor(nodes[..], Node(min, mean), 0) == if Filled(nodes[..], first) then None else Some(first)
      requires !Filled(nodes[..], first) ==>
        PlaceFor(nodes[..][first := Node(min, mean)], Node(mean + 1, max), 0) == Some(first + 1)
      modifies nodes
      ensures ok == !Filled(old(nodes[..]), first)
      ensures nodes[..] ==
        if ok then old(nodes[..])[first := Node(min, mean)][first + 1 := Node(mean + 1, max)] else old(nodes[..])
    {
      var small := HeapInsert(min, mean);
      if small < 0 {
        return false;
      }
      var large := HeapInsert(mean + 1, max);
      ok := large >= 0;
    }

    // The deepest bucket on the path of the key, and where heap_find goes on looking
    method FindBucket(key: Key) returns (b: nat, next: nat)
      requires Valid()
      ensures b == Deep(nodes[..], hash(key), 0) && next == 2 * b + 1
      ensures Filled(nodes[..], b) && Has(nodes[b], hash(key))
    {
      var at: int;
      at, next := HeapFind(key, 0);
      b := 0;
      while at >= 0
        invariant b < LEAVES && next == 2 * b + 1 && Filled(nodes[..], b) && Has(nodes[b], hash(key))
        invariant Deep(nodes[..], hash(key), 0) == Deep(nodes[..], hash(key), b)
        invariant at >= 0 ==> at == b
        invariant at < 0 ==> b == Deep(nodes[..], hash(key), b)
        decreases at >= 0, LEAVES - b
      {
        b := at;
        NodeBelow(nodes[..], hash(key), b);
        at, next := HeapFind(key, next);
        if at >= 0 {
          b := at;
        }
      }
    }

    // insert_item
    method InsertItem(key: Key, value: nat) returns (ok: bool)
      requires Valid()
      modifies nodes, buckets
      ensures Valid() && Inserts(old(nodes[..]), old(buckets[..]), hash, Pair(key, value), ok, nodes[..], buckets[..])
    {
      var b, next := FindBucket(key);
      assert BucketAt(nodes[..], buckets[..], hash, b);
      if |buckets[b]| == BUCKET_SIZE {
        ok := InsertBelow(b, next, key, value);
      } else {
        BucketAppend(b, Pair(key, value));
        ok := true;
      }
    }

    // The part of insert_item for a full bucket
    method InsertBelow(b: nat, next: nat, key: Key, value: nat) returns (ok: bool)
      requires Valid() && b == Deep(nodes[..], hash(key), 0) && next == 2 * b + 1
      requires Filled(nodes[..], b) && Has(nodes[b], hash(key))
      modifies nodes, buckets
      ensures Valid() && ok == (old(Child(nodes[..], b, hash(key))) < LEAVES)
      ensures ok ==> nodes[..] == SplitNode(old(nodes[..]), b) && old(buckets[Child(nodes[..], b, hash(key))]) == []
      ensures buckets[..] ==
        if ok then old(buckets[..])[old(Child(nodes[..], b, hash(key))) := [Pair(key, value)]] else old(buckets[..])
    {
      ghost var c := Child(nodes[..], b, hash(key));
      if c < LEAVES {
        DeepestChild(nodes[..], hash(key), 0);
        PairsHaveNodes(nodes[..], buckets[..], hash, c);
      }
      var split := SplitFor(b, key);
      if !split {
        return false;
      }
      NodeBelow(nodes[..], hash(key), b);
      var at, _ := HeapFind(key, next);
      if at < 0 {
        return false;
      }
      BucketAppend(at, Pair(key, value));
      assert [] + [Pair(key, value)] == [Pair(key, value)];
      ok := true;
    }

    // bucket_split of the deepest bucket on the path of a key
    method SplitFor(b: nat, ghost key: Key) returns (ok: bool)
      requires Valid() && b == Deep(nodes[..], hash(key), 0) && Filled(nodes[..], b)
      modifies nodes
      ensures Valid() && nodes[..] == if ok then SplitNode(old(nodes[..]), b) else old(nodes[..])
      ensures !ok ==> old(Child(nodes[..], b, hash(key))) >= LEAVES
      ensures ok ==> Filled(nodes[..], old(Child(nodes[..], b, hash(key)))) && nodes[b] == old(nodes[b])
    {
      DeepestChild(nodes[..], hash(key), 0);
      assert ChildrenAt(nodes[..], b) && WidthAt(nodes[..], b);
      ok := BucketSplit(b);
    }
  }

  // Below the deepest node on a path there is no node with a bucket.
  lemma {:induction false} DeepestChild(nodes: seq<Node>, hash: nat, i: nat)
    requires i < LEAVES && |nodes| == NODE_LIMIT
    ensures var c := Child(nodes, Deep(nodes, hash, i), hash); c < LEAVES ==> !Filled(nodes, c)
    decreases LEAVES - i
  {
    var c := Child(nodes, i, hash);
    if c < LEAVES && Filled(nodes, c) {
      DeepestChild(nodes, hash, c);
    }
  }

  // What inserting a pair does: it goes to the deepest bucket on the path of its hashed key, or, if that is
  // full, to the bucket of a new child; it fails only if the child would be in the last level.
  ghost predicate Inserts(nodes: seq<Node>, buckets: seq<seq<Pair>>, hash: Hash, p: Pair, ok: bool,
                          nodes1: seq<Node>, buckets1: seq<seq<Pair>>)
    requires |nodes| == |buckets| == NODE_LIMIT && p.key < 0x1_0000
  {
    var b := Deep(nodes, hash(p.key), 0);
    var c := Child(nodes, b, hash(p.key));
    if |buckets[b]| < BUCKET_SIZE then ok && nodes1 == nodes && buckets1 == buckets[b := buckets[b] + [p]]
    else if c < LEAVES then ok && nodes1 == SplitNode(nodes, b) && buckets1 == buckets[c := [p]] && buckets[c] == []
    else !ok && buckets1 == buckets
  }
}
