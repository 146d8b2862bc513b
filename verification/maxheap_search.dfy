/**
 Searching the max-heap index of Antelope (get_next in apps/antelope/index-maxheap.c): the keys of a
 range are looked up one after the other, each in the buckets on the path of its hashed key, from
 the deepest bucket to the root.
 */
module MaxheapSearch {
  import opened Options
  import opened MaxheapIndex

  // ---------------------------------------------------------------- paths

  // An upper bound of the number of levels from a node with a bucket down
  function Levels(i: nat): nat {
    if i == 0 then 8 else if i <= 2 then 7 else if i <= 6 then 6 else if i <= 14 then 5
    else if i <= 30 then 4 else if i <= 62 then 3 else if i <= 126 then 2 else 1
  }

  // The nodes with buckets on the path of a hashed key, from node `i` down
  function Path(nodes: seq<Node>, hash: nat, i: nat): (path: seq<nat>)
    requires i < LEAVES && |nodes| == NODE_LIMIT
    ensures 1 <= |path| <= Levels(i) && path[0] == i
    decreases LEAVES - i, |nodes|
  {
    var c := Child(nodes, i, hash);
    [i] + if c < LEAVES && Filled(nodes, c) then Path(nodes, hash, c) else []
  }

  predicate Climbs(path: seq<nat>, k: nat) {
    k < |path| ==> path[k] < LEAVES && (k > 0 ==> path[k - 1] < path[k])
  }

  lemma {:induction false} PathClimbs(nodes: seq<Node>, hash: nat, i: nat, k: nat)
    requires i < LEAVES && |nodes| == NODE_LIMIT
    ensures Climbs(Path(nodes, hash, i), k)
    decreases LEAVES - i
  {
    var c := Child(nodes, i, hash);
    if k > 0 && c < LEAVES && Filled(nodes, c) {
      PathClimbs(nodes, hash, c, k - 1);
    }
  }

  lemma {:induction false} PathGoesOn(nodes: seq<Node>, hash: nat, i: nat, q: nat)
    requires i < LEAVES && |nodes| == NODE_LIMIT && q in Path(nodes, hash, i) && q < LEAVES
    requires Child(nodes, q, hash) < LEAVES && Filled(nodes, Child(nodes, q, hash))
    ensures Child(nodes, q, hash) in Path(nodes, hash, i)
    decreases LEAVES - i
  {
    var c := Child(nodes, i, hash);
    var path := Path(nodes, hash, i);
    if q == i {
      assert path[1..] == Path(nodes, hash, c) && path[1] == c;
    } else {
      assert path == [i] + path[1..];
      PathGoesOn(nodes, hash, c, q);
    }
  }

  lemma UpOne(nodes: seq<Node>, hash: nat, b: nat) returns (q: nat)
    requires Tree(nodes) && 0 < b < LEAVES && Filled(nodes, b) && Has(nodes[b], hash)
    ensures q < b && Filled(nodes, q) && Has(nodes[q], hash) && Child(nodes, q, hash) == b
  {
    q := (b - 1) / 2;
    assert ChildrenAt(nodes, q) && WidthAt(nodes, q);
  }

  /** Every node with a bucket whose range has the hashed key is on its path. */
  lemma {:induction false} OnPath(nodes: seq<Node>, hash: nat, b: nat)
    requires Tree(nodes) && b < LEAVES && Filled(nodes, b) && Has(nodes[b], hash)
    ensures b in Path(nodes, hash, 0)
    decreases b
  {
    if b == 0 {
      assert Path(nodes, hash, 0)[0] == 0;
    } else {
      var q := UpOne(nodes, hash, b);
      OnPath(nodes, hash, q);
      PathGoesOn(nodes, hash, 0, q);
    }
  }

  // ---------------------------------------------------------------- keys

  predicate KeyIn(buckets: seq<seq<Pair>>, b: nat, key: nat) {
    b < |buckets| && exists p :: p in buckets[b] && p.key == key
  }

  ghost predicate Stored(buckets: seq<seq<Pair>>, key: nat) { exists b: nat :: KeyIn(buckets, b, key) }

  // The key stands at this position.
  predicate KeyAt(buckets: seq<seq<Pair>>, b: nat, i: nat, key: nat) {
    b < |buckets| && i < |buckets[b]| && buckets[b][i].key == key
  }

  // No key is stored twice.
  ghost predicate Unique(buckets: seq<seq<Pair>>) {
    forall key: nat, b: nat, i: nat, c: nat, j: nat | KeyAt(buckets, b, i, key) && KeyAt(buckets, c, j, key) ::
      b == c && i == j
  }

  // A stored key is in a bucket on the path of its hashed key.
  lemma StoredOnPath(nodes: seq<Node>, buckets: seq<seq<Pair>>, hash: Hash, key: Key) returns (h: nat, i: nat)
    requires Tree(nodes) && Placed(nodes, buckets, hash) && Stored(buckets, key)
    ensures h < |Path(nodes, hash(key), 0)| && KeyAt(buckets, Path(nodes, hash(key), 0)[h], i, key)
  {
    var b: nat :| KeyIn(buckets, b, key);
    var p :| p in buckets[b] && p.key == key;
    assert BucketAt(nodes, buckets, hash, b) && PairAt(nodes, b, hash, p);
    OnPath(nodes, hash(key), b);
    var path := Path(nodes, hash(key), 0);
    h :| 0 <= h < |path| && path[h] == b;
    i :| 0 <= i < |buckets[b]| && buckets[b][i] == p;
  }

  // The key stands at a position that a scan from this point on is still to look at.
  predicate Ahead(buckets: seq<seq<Pair>>, path: seq<nat>, h: int, from: nat, key: nat, g: nat, i: nat) {
    g <= h && g < |path| && from <= i && KeyAt(buckets, path[g], i, key)
  }

  // ---------------------------------------------------------------- the iterator

  // No key from `low` up to but not including `high` is stored.
  ghost predicate NoneStored(buckets: seq<seq<Pair>>, low: nat, high: nat) {
    forall key: nat | low <= key < high :: !Stored(buckets, key)
  }

  /** An iterator with the state that the original caches in static memory */
  class Search {
    const heap: Heap
    var minValue: nat
    const maxValue: nat
    var nextItemNo: nat
    var heapIterator: int
    var foundItems: nat
    var start: nat
    var visited: seq<nat>

    constructor (heap: Heap, minValue: nat, maxValue: nat)
      ensures this.heap == heap && this.minValue == minValue && this.maxValue == maxValue && nextItemNo == 0
      ensures heap.Valid() && minValue <= maxValue < 0x1_0000 && Unique(heap.buckets[..]) ==> Valid()
    {
      this.heap, this.minValue, this.maxValue := heap, minValue, maxValue;
      nextItemNo, heapIterator, foundItems, start, visited := 0, -1, 0, 0, [];
    }

    ghost predicate Buckets()
      reads this, heap.nodes, heap.buckets
    {
      && heap.Valid() && minValue <= maxValue < 0x1_0000
      && -1 <= heapIterator < |visited| && forall k: nat :: Climbs(visited, k)
    }

    // Between calls: nothing has been found for the key, or it was just found and is not stored again.
    ghost predicate Valid()
      reads this, heap.nodes, heap.buckets
    {
      && Buckets() && Unique(heap.buckets[..])
      && (nextItemNo == 0 || (nextItemNo == 1 == foundItems &&
           (heapIterator >= 0 ==> start > 0 && KeyAt(heap.buckets[..], visited[heapIterator], start - 1, minValue))))
    }

    // The loop over the levels, which finds the path of the key
    method FindPath()
      requires Buckets()
      modifies this`visited, this`heapIterator, this`foundItems, this`start
      ensures Buckets() && visited == Path(heap.nodes[..], heap.hash(minValue), 0)
      ensures heapIterator == |visited| - 1 && foundItems == 0 && start == 0
    {
      ghost var nodes, hash := heap.nodes[..], heap.hash(minValue);
      ComingFirst(nodes, hash);
      ghost var path := Path(nodes, hash, 0);
      foundItems, start, visited := 0, 0, [];
      var next: nat, at := 0, 0;
      while |visited| < NODE_DEPTH
        invariant |visited| <= |path| && visited == path[..|visited|]
        invariant Coming(nodes, hash, path[|visited|..], next)
        invariant foundItems == 0 && start == 0
      {
        at, next := heap.HeapFind(minValue, next);
        if at < 0 {
          break;
        }
        ComingNext(nodes, hash, path, |visited|, next);
        visited := visited + [at as nat];
      }
      assert |visited| == |path|;
      heapIterator := |visited| - 1;
      forall k: nat
        ensures Climbs(visited, k)
      {
        PathClimbs(nodes, hash, 0, k);
      }
    }

    // The scan of one bucket, from `start` on
    method ScanBucket(b: nat) returns (i: nat)
      requires heap.buckets.Length == NODE_LIMIT && b < LEAVES
      ensures forall k: nat | start <= k < i :: !KeyAt(heap.buckets[..], b, k, minValue)
      ensures i >= |heap.buckets[b]| || (start <= i && KeyAt(heap.buckets[..], b, i, minValue))
    {
      i := start;
      while i < |heap.buckets[b]|
        invariant start <= i
        invariant forall k: nat | start <= k < i :: !KeyAt(heap.buckets[..], b, k, minValue)
      {
        if heap.buckets[b][i].key == minValue {
          return;
        }
        i := i + 1;
      }
    }

    // The search of the buckets from the deepest to the root: the first match, or none
    method ScanPath() returns (r: Option<nat>)
      requires Buckets() && foundItems == nextItemNo
      modifies this`heapIterator, this`start, this`foundItems, this`nextItemNo
      ensures Buckets() && heapIterator <= old(heapIterator)
      ensures r.None? ==> heapIterator == -1 && start == old(start) && foundItems == nextItemNo == old(nextItemNo)
      ensures r.None? ==>
        forall g: nat, i: nat :: !Ahead(heap.buckets[..], visited, old(heapIterator), old(start), minValue, g, i)
      ensures r.Some? ==> heapIterator >= 0 && foundItems == nextItemNo == old(nextItemNo) + 1
      ensures r.Some? ==> start > old(start) && KeyAt(heap.buckets[..], visited[heapIterator], start - 1, minValue)
      ensures r.Some? ==> heap.buckets[visited[heapIterator]][start - 1].value == r.value
      ensures r.Some? ==>
        Ahead(heap.buckets[..], visited, old(heapIterator), old(start), minValue, heapIterator, start - 1)
    {
      ghost var top, from := heapIterator, start;
      while heapIterator >= 0
        invariant -1 <= heapIterator <= old(heapIterator)
        invariant start == old(start) && foundItems == nextItemNo == old(nextItemNo)
        invariant forall g: nat, i: nat | g > heapIterator ::
          !Ahead(heap.buckets[..], visited, top, from, minValue, g, i)
        decreases heapIterator
      {
        assert Climbs(visited, heapIterator);
        var b := visited[heapIterator];
        var i := ScanBucket(b);
        if i < |heap.buckets[b]| {
          foundItems := foundItems + 1;
          nextItemNo := nextItemNo + 1;
          start := i + 1;
          return Some(heap.buckets[b][i].value);
        }
        forall k: nat
          ensures !Ahead(heap.buckets[..], visited, top, from, minValue, heapIterator, k)
        {
          if start <= k < i {
            assert !KeyAt(heap.buckets[..], b, k, minValue);
          }
        }
        heapIterator := heapIterator - 1;
      }
      r := None;
    }

    // The search for the current key, if it has not been found yet
    method LookUp() returns (r: Option<nat>)
      requires Valid() && nextItemNo == 0
      modifies this`visited, this`heapIterator, this`start, this`foundItems, this`nextItemNo
      ensures Valid() && (r.None? ==> nextItemNo == 0 && !Stored(heap.buckets[..], minValue))
      ensures r.Some? ==> nextItemNo == 1 && PairStored(heap.buckets[..], minValue, r.value)
    {
      FindPath();
      ghost var path := visited;
      r := ScanPath();
      if r.None? && Stored(heap.buckets[..], minValue) {
        var h, i := StoredOnPath(heap.nodes[..], heap.buckets[..], heap.hash, minValue);
        assert Ahead(heap.buckets[..], path, |path| - 1, 0, minValue, h, i);
      }
    }

    // Going on after the current key was found finds nothing more.
    method GoOn() returns (r: Option<nat>)
      requires Valid() && nextItemNo == 1
      modifies this`heapIterator, this`start, this`foundItems, this`nextItemNo
      ensures Valid() && r.None? && nextItemNo == 1
    {
      NothingAhead();
      r := ScanPath();
    }

    // The key that was just found is nowhere else.
    lemma NothingAhead()
      requires Valid() && nextItemNo == 1
      ensures forall g: nat, i: nat :: !Ahead(heap.buckets[..], visited, heapIterator, start, minValue, g, i)
    {
      forall g: nat, i: nat | g <= heapIterator && start <= i
        ensures !KeyAt(heap.buckets[..], visited[g], i, minValue)
      {
        Separate(visited, g, heapIterator);
        assert KeyAt(heap.buckets[..], visited[heapIterator], start - 1, minValue);
      }
    }

    // get_next
    method GetNext() returns (r: Option<nat>)
      requires Valid()
      modifies this
      ensures Valid()
      ensures r.Some? ==> nextItemNo == 1 && old(minValue) + old(nextItemNo) <= minValue
      ensures r.Some? ==> PairStored(heap.buckets[..], minValue, r.value)
      ensures r.Some? ==> NoneStored(heap.buckets[..], old(minValue) + old(nextItemNo), minValue)
      ensures r.None? ==> NoneStored(heap.buckets[..], old(minValue) + old(nextItemNo), maxValue + 1)
      decreases maxValue - minValue
    {
      if nextItemNo == 0 {
        r := LookUp();
      } else {
        r := GoOn();
      }
      if r.Some? || minValue == maxValue {
        return;
      }
      nextItemNo := 0;
      minValue := minValue + 1;
      r := GetNext();
    }
  }

  // Nodes of a path are different.
  lemma {:induction false} Separate(path: seq<nat>, g: int, h: int)
    requires 0 <= g <= h < |path| && forall k: nat :: Climbs(path, k)
    ensures path[g] <= path[h] && (path[g] == path[h] ==> g == h)
    decreases h
  {
    if g < h {
      assert Climbs(path, h);
      Separate(path, g, h - 1);
    }
  }

  ghost predicate PairStored(buckets: seq<seq<Pair>>, key: nat, value: nat) {
    exists b: nat, i: nat :: KeyAt(buckets, b, i, key) && buckets[b][i].value == value
  }

  const NODE_DEPTH := 9

  // heap_find goes on from position `next` with the first node of `rest`, the rest of the path.
  ghost predicate Coming(nodes: seq<Node>, hash: nat, rest: seq<nat>, next: nat)
    requires |nodes| == NODE_LIMIT
  {
    if rest == [] then NodeFor(nodes, hash, next) == None
    else
      && rest[0] < LEAVES && NodeFor(nodes, hash, next) == Some(rest[0])
      && rest == Path(nodes, hash, rest[0]) && Filled(nodes, rest[0]) && Has(nodes[rest[0]], hash)
  }

  lemma ComingFirst(nodes: seq<Node>, hash: nat)
    requires Tree(nodes) && hash < 0x1_0000
    ensures Coming(nodes, hash, Path(nodes, hash, 0), 0)
  {
  }

  lemma ComingNext(nodes: seq<Node>, hash: nat, path: seq<nat>, k: nat, next: nat)
    requires Tree(nodes) && k < |path| && path[k] < LEAVES && next == 2 * path[k] + 1
    requires path[k..] == Path(nodes, hash, path[k]) && Filled(nodes, path[k]) && Has(nodes[path[k]], hash)
    ensures Coming(nodes, hash, path[k + 1..], next)
  {
    NodeBelow(nodes, hash, path[k]);
    assert path[k + 1..] == path[k..][1..];
  }

  // ---------------------------------------------------------------- whole searches

  ghost function ValueOf(buckets: seq<seq<Pair>>, key: nat): (value: nat)
    requires exists v :: PairStored(buckets, key, v)
    ensures PairStored(buckets, key, value)
  {
    var v :| PairStored(buckets, key, v);
    v
  }

  // The values stored for the keys from `low` up to but not including `high`, in the order of the keys
  ghost function Values(buckets: seq<seq<Pair>>, low: nat, high: nat): seq<nat>
    decreases high - low, |buckets|
  {
    if low >= high then []
    else
      (if exists v :: PairStored(buckets, low, v) then [ValueOf(buckets, low)] else []) +
      Values(buckets, low + 1, high)
  }

  lemma StoredPair(buckets: seq<seq<Pair>>, key: nat)
    ensures (exists v :: PairStored(buckets, key, v)) <==> Stored(buckets, key)
  {
    if v :| PairStored(buckets, key, v) {
      var b: nat, i: nat :| KeyAt(buckets, b, i, key) && buckets[b][i].value == v;
      assert buckets[b][i] in buckets[b] && KeyIn(buckets, b, key);
    }
    if Stored(buckets, key) {
      var b: nat :| KeyIn(buckets, b, key);
      var p :| p in buckets[b] && p.key == key;
      var i: nat :| i < |buckets[b]| && buckets[b][i] == p;
      assert KeyAt(buckets, b, i, key) && PairStored(buckets, key, p.value);
    }
  }

  lemma {:induction false} SkipValues(buckets: seq<seq<Pair>>, low: nat, middle: nat, high: nat)
    requires low <= middle <= high && NoneStored(buckets, low, middle)
    ensures Values(buckets, low, high) == Values(buckets, middle, high)
    decreases middle - low
  {
    if low < middle {
      StoredPair(buckets, low);
      SkipValues(buckets, low + 1, middle, high);
    }
  }

  lemma OneValue(buckets: seq<seq<Pair>>, key: nat, value: nat)
    requires Unique(buckets) && PairStored(buckets, key, value)
    ensures ValueOf(buckets, key) == value
  {
    var b: nat, i: nat :| KeyAt(buckets, b, i, key) && buckets[b][i].value == value;
    var v := ValueOf(buckets, key);
    var c: nat, j: nat :| KeyAt(buckets, c, j, key) && buckets[c][j].value == v;
  }

  lemma AppendedAt(buckets: seq<seq<Pair>>, b: nat, p: Pair, c: nat, i: nat, key: nat)
    requires b < |buckets|
    ensures KeyAt(buckets[b := buckets[b] + [p]], c, i, key) <==>
      KeyAt(buckets, c, i, key) || (c == b && i == |buckets[b]| && p.key == key)
  {
  }

  /** A pair that was inserted is stored, next to all that were stored before, and new keys stay different. */
  lemma InsertStores(nodes: seq<Node>, buckets: seq<seq<Pair>>, hash: Hash, p: Pair, ok: bool,
                     nodes1: seq<Node>, buckets1: seq<seq<Pair>>, key: nat, value: nat)
    requires |nodes| == |buckets| == NODE_LIMIT && p.key < 0x1_0000
    requires Inserts(nodes, buckets, hash, p, ok, nodes1, buckets1)
    ensures PairStored(buckets1, key, value) <==> PairStored(buckets, key, value) || (ok && p == Pair(key, value))
    ensures Unique(buckets) && !Stored(buckets, p.key) ==> Unique(buckets1)
  {
    if ok {
      var b :| 0 <= b < NODE_LIMIT && buckets1 == buckets[b := buckets[b] + [p]] by {
        assert [] + [p] == [p];
        var d := Deep(nodes, hash(p.key), 0);
        assert buckets1 == buckets[d := buckets[d] + [p]] ||
          buckets1 == buckets[Child(nodes, d, hash(p.key)) := buckets[Child(nodes, d, hash(p.key))] + [p]];
      }
      AppendStores(buckets, b, p, key, value);
    }
  }

  lemma AppendStores(buckets: seq<seq<Pair>>, b: nat, p: Pair, key: nat, value: nat)
    requires b < |buckets|
    ensures var after := buckets[b := buckets[b] + [p]];
      && (PairStored(after, key, value) <==> PairStored(buckets, key, value) || p == Pair(key, value))
      && (Unique(buckets) && !Stored(buckets, p.key) ==> Unique(after))
  {
    var after := buckets[b := buckets[b] + [p]];
    forall c: nat, i: nat, k: nat
      ensures KeyAt(after, c, i, k) <==> KeyAt(buckets, c, i, k) || (c == b && i == |buckets[b]| && p.key == k)
    {
      AppendedAt(buckets, b, p, c, i, k);
    }
    if PairStored(buckets, key, value) {
      var c: nat, i: nat :| KeyAt(buckets, c, i, key) && buckets[c][i].value == value;
      assert KeyAt(after, c, i, key) && after[c][i] == buckets[c][i];
    }
    if p == Pair(key, value) {
      assert KeyAt(after, b, |buckets[b]|, key) && after[b][|buckets[b]|] == p;
    }
    if !Stored(buckets, p.key) {
      forall c: nat, i: nat | KeyAt(buckets, c, i, p.key)
        ensures false
      {
        assert buckets[c][i] in buckets[c] && KeyIn(buckets, c, p.key);
      }
    }
  }

  /**
   With different keys, calls until the search is over report exactly the values stored for the keys
   of the range, each once and in the order of the keys.
   */
  method Collect(s: Search) returns (out: seq<nat>)
    requires s.Valid() && s.nextItemNo == 0
    modifies s
    ensures out == Values(s.heap.buckets[..], old(s.minValue), s.maxValue + 1)
  {
    out := [];
    ghost var buckets := s.heap.buckets[..];
    ghost var low: nat, high: nat := s.minValue, s.maxValue + 1;
    var r := s.GetNext();
    while r.Some?
      invariant s.Valid() && s.heap.buckets[..] == buckets
      invariant r.Some? ==> s.nextItemNo == 1 && PairStored(buckets, s.minValue, r.value) && low <= s.minValue
      invariant r.Some? ==> NoneStored(buckets, low, s.minValue)
      invariant r.None? ==> NoneStored(buckets, low, high)
      invariant low <= high && out + Values(buckets, low, high) == Values(buckets, old(s.minValue), high)
      decreases r.Some?, high - low
    {
      SkipValues(buckets, low, s.minValue, high);
      OneValue(buckets, s.minValue, r.value);
      out := out + [r.value];
      low := s.minValue + 1;
      r := s.GetNext();
    }
    SkipValues(buckets, low, high, high);
  }

  // ---------------------------------------------------------------- from insertions to answers

  // The values that a map has for the keys from `low` up to but not including `high`, in the order of the keys
  function InOrder(m: map<nat, nat>, low: nat, high: nat): seq<nat>
    decreases high - low, |m|
  {
    if low >= high then [] else (if low in m then [m[low]] else []) + InOrder(m, low + 1, high)
  }

  predicate Maps(m: map<nat, nat>, key: nat, value: nat) { key in m && m[key] == value }

  // The buckets have exactly the pairs of the map, each once.
  ghost predicate Represents(buckets: seq<seq<Pair>>, m: map<nat, nat>) {
    Unique(buckets) && forall key: nat, value: nat :: PairStored(buckets, key, value) <==> Maps(m, key, value)
  }

  lemma {:induction false} ValuesInOrder(buckets: seq<seq<Pair>>, m: map<nat, nat>, low: nat, high: nat)
    requires Represents(buckets, m)
    ensures Values(buckets, low, high) == InOrder(m, low, high)
    decreases high - low
  {
    if low < high {
      ValuesInOrder(buckets, m, low + 1, high);
      if low in m {
        assert Maps(m, low, m[low]);
        OneValue(buckets, low, m[low]);
      } else {
        assert forall v :: PairStored(buckets, low, v) ==> Maps(m, low, v);
      }
    }
  }

  // Inserting a new key adds its pair, or nothing if there is no room on its path.
  lemma InsertRepresents(nodes: seq<Node>, buckets: seq<seq<Pair>>, hash: Hash, p: Pair, ok: bool,
                         nodes1: seq<Node>, buckets1: seq<seq<Pair>>, m: map<nat, nat>)
    requires |nodes| == |buckets| == NODE_LIMIT && p.key < 0x1_0000 && p.key !in m && Represents(buckets, m)
    requires Inserts(nodes, buckets, hash, p, ok, nodes1, buckets1)
    ensures Represents(buckets1, if ok then m[p.key := p.value] else m)
  {
    StoredPair(buckets, p.key);
    assert forall v :: PairStored(buckets, p.key, v) ==> Maps(m, p.key, v);
    var after := if ok then m[p.key := p.value] else m;
    forall key: nat, value: nat
      ensures PairStored(buckets1, key, value) <==> Maps(after, key, value)
    {
      InsertStores(nodes, buckets, hash, p, ok, nodes1, buckets1, key, value);
      assert PairStored(buckets, key, value) <==> Maps(m, key, value);
    }
    InsertStores(nodes, buckets, hash, p, ok, nodes1, buckets1, 0, 0);
  }

  // Insertions of different keys, one after the other; `m` are the pairs for which there was room.
  method Load(heap: Heap, pairs: seq<Pair>) returns (m: map<nat, nat>, refused: nat)
    requires heap.Valid() && Represents(heap.buckets[..], map[])
    requires forall i | 0 <= i < |pairs| :: pairs[i].key < 0x1_0000
    requires forall i, j | 0 <= i < j < |pairs| :: pairs[i].key != pairs[j].key
    modifies heap.nodes, heap.buckets
    ensures heap.Valid() && Represents(heap.buckets[..], m)
    ensures |m| + refused == |pairs| && forall key | key in m :: Pair(key, m[key]) in pairs
  {
    m, refused := map[], 0;
    for i := 0 to |pairs|
      invariant heap.Valid() && Represents(heap.buckets[..], m)
      invariant |m| + refused == i && forall key | key in m :: Pair(key, m[key]) in pairs[..i]
    {
      var p := pairs[i];
      assert p.key !in m;
      ghost var nodes, buckets := heap.nodes[..], heap.buckets[..];
      var ok := heap.InsertItem(p.key, p.value);
      InsertRepresents(nodes, buckets, heap.hash, p, ok, heap.nodes[..], heap.buckets[..], m);
      if ok {
        m := m[p.key := p.value];
      } else {
        refused := refused + 1;
      }
    }
  }

  /** What a range search reports after insertions of different keys into a new index. */
  method LoadAndSearch(hash: Hash, pairs: seq<Pair>, low: nat, high: nat)
    returns (m: map<nat, nat>, refused: nat, out: seq<nat>)
    requires low <= high < 0x1_0000 && forall i | 0 <= i < |pairs| :: pairs[i].key < 0x1_0000
    requires forall i, j | 0 <= i < j < |pairs| :: pairs[i].key != pairs[j].key
    ensures |m| + refused == |pairs| && forall key | key in m :: Pair(key, m[key]) in pairs
    ensures out == InOrder(m, low, high + 1)
  {
    var heap := new Heap(hash);
    EmptyRepresents(heap.buckets[..]);
    m, refused := Load(heap, pairs);
    out := SearchAll(heap, low, high, m);
  }

  method SearchAll(heap: Heap, low: nat, high: nat, ghost m: map<nat, nat>) returns (out: seq<nat>)
    requires heap.Valid() && Represents(heap.buckets[..], m) && low <= high < 0x1_0000
    ensures out == InOrder(m, low, high + 1)
  {
    var s := new Search(heap, low, high);
    out := Collect(s);
    ValuesInOrder(heap.buckets[..], m, low, high + 1);
  }

  lemma EmptyRepresents(buckets: seq<seq<Pair>>)
    requires forall b | 0 <= b < |buckets| :: buckets[b] == []
    ensures Represents(buckets, map[])
  {
    forall key: nat, b: nat, i: nat
      ensures !KeyAt(buckets, b, i, key)
    {
    }
  }
}
