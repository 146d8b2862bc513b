/**
 JOIN of the Antelope database (apps/antelope/relation.c): an equi-join that looks up the rows of
 the right relation through an index.  Each call delivers one joined row; the next call goes on
 in the middle of the loop over the matching rows.
 */
module RelationJoin {
  import opened Bytes
  import opened Options
  import opened InlineIndex
  import opened RelationSelect

  datatype Relation = Relation(attrs: seq<Attribute>, rows: seq<Tuple>) {
    ghost predicate Valid() {
      Attributes(attrs) && forall r | r in rows :: |r| == RowLength(attrs)
    }
  }

  // Where the bytes of one attribute of the joined row come from
  datatype Source = Source(left: bool, from: nat, size: nat)

  /** A join: the attributes to join on, and the sources of the joined row's attributes in order. */
  datatype Equijoin =
    Equijoin(left: Relation, right: Relation, leftKey: nat, rightKey: nat, sources: seq<Source>, ints: Ints)
  {
    ghost predicate Valid() {
      && left.Valid() && right.Valid() && leftKey < |left.attrs| && rightKey < |right.attrs|
      && forall s | s in sources :: Inside(s)
    }

    predicate Inside(s: Source) {
      s.from + s.size <= RowLength(if s.left then left.attrs else right.attrs)
    }
  }

  // The value of an attribute in a row
  function ValueOf(attrs: seq<Attribute>, k: nat, ints: Ints, row: Tuple): int
    requires Attributes(attrs) && k < |attrs| && |row| == RowLength(attrs)
  {
    assert attrs[k] in attrs;
    OffsetMonotonic(attrs, k + 1, |attrs|);
    Decode(row[Offset(attrs, k)..Offset(attrs, k) + attrs[k].size], attrs[k].domain, ints)
  }

  function LeftValue(q: Equijoin, i: nat): int
    requires q.Valid() && i < |q.left.rows|
  {
    ValueOf(q.left.attrs, q.leftKey, q.ints, q.left.rows[i])
  }

  function RightValue(q: Equijoin, j: nat): int
    requires q.Valid() && j < |q.right.rows|
  {
    ValueOf(q.right.attrs, q.rightKey, q.ints, q.right.rows[j])
  }

  function SizeOf(sources: seq<Source>, n: nat): nat
    requires n <= |sources|
  {
    if n == 0 then 0 else SizeOf(sources, n - 1) + sources[n - 1].size
  }

  lemma {:induction false} SizeMonotonic(sources: seq<Source>, n: nat, m: nat)
    requires n <= m <= |sources|
    ensures SizeOf(sources, n) <= SizeOf(sources, m)
    decreases m
  {
    if n < m {
      SizeMonotonic(sources, n, m - 1);
    }
  }

  predicate FitsPair(q: Equijoin, l: Tuple, r: Tuple) {
    |l| == RowLength(q.left.attrs) && |r| == RowLength(q.right.attrs)
  }

  // The first `n` attributes of the row that joins `l` and `r`
  function Combined(q: Equijoin, n: nat, l: Tuple, r: Tuple): (bytes: Tuple)
    requires q.Valid() && n <= |q.sources| && FitsPair(q, l, r)
    ensures |bytes| == SizeOf(q.sources, n)
  {
    if n == 0 then []
    else
      var s := q.sources[n - 1];
      assert q.Inside(s);
      Combined(q, n - 1, l, r) + (if s.left then l else r)[s.from..s.from + s.size]
  }

  function Pairing(q: Equijoin, l: Tuple, r: Tuple): Tuple
    requires q.Valid() && FitsPair(q, l, r)
  {
    Combined(q, |q.sources|, l, r)
  }

  // ---------------------------------------------------------------- the reference

  // The rows that join row `i` on the left with rows from `j` on on the right
  function Matching(q: Equijoin, i: nat, j: nat): seq<Tuple>
    requires q.Valid() && i < |q.left.rows| && j <= |q.right.rows|
    decreases |q.right.rows| - j
  {
    if j == |q.right.rows| then []
    else if LeftValue(q, i) == RightValue(q, j) then
      [Pairing(q, q.left.rows[i], q.right.rows[j])] + Matching(q, i, j + 1)
    else
      Matching(q, i, j + 1)
  }

  /** The equi-join of the rows from `i` on, left rows in the outer loop. */
  function NestedLoop(q: Equijoin, i: nat): seq<Tuple>
    requires q.Valid() && i <= |q.left.rows|
    decreases |q.left.rows| - i
  {
    if i == |q.left.rows| then [] else Matching(q, i, 0) + NestedLoop(q, i + 1)
  }

  // ---------------------------------------------------------------- what an index leads to

  // The answer of one call
  datatype Outcome = Joined(row: Tuple) | InvalidRow | Over

  // An index gives the numbers of the rows that it reports for a value.
  type Index = int -> seq<nat>

  function Emission(q: Equijoin, i: nat, id: nat): Outcome
    requires q.Valid() && i < |q.left.rows|
  {
    if id < |q.right.rows| then Joined(Pairing(q, q.left.rows[i], q.right.rows[id])) else InvalidRow
  }

  function Emissions(q: Equijoin, i: nat, ids: seq<nat>): seq<Outcome>
    requires q.Valid() && i < |q.left.rows|
  {
    if ids == [] then [] else [Emission(q, i, ids[0])] + Emissions(q, i, ids[1..])
  }

  // The rows that an index leads to for each row on the left
  ghost predicate Finds(q: Equijoin, find: Index, ids: nat -> seq<nat>)
    requires q.Valid()
  {
    forall i | 0 <= i < |q.left.rows| :: FindsAt(q, find, ids, i)
  }

  predicate FindsAt(q: Equijoin, find: Index, ids: nat -> seq<nat>, i: nat)
    requires q.Valid() && i < |q.left.rows|
  {
    ids(i) == find(LeftValue(q, i))
  }

  ghost function RowsFound(q: Equijoin, find: Index): (ids: nat -> seq<nat>)
    requires q.Valid()
    ensures Finds(q, find, ids)
  {
    (i: nat) => if i < |q.left.rows| then find(LeftValue(q, i)) else []
  }

  // The answers of all calls from row `i` on the left on
  function AllFrom(q: Equijoin, ids: nat -> seq<nat>, i: nat): seq<Outcome>
    requires q.Valid() && i <= |q.left.rows|
    decreases |q.left.rows| - i
  {
    if i == |q.left.rows| then [] else Emissions(q, i, ids(i)) + AllFrom(q, ids, i + 1)
  }

  // The rows before the first failure
  function Delivered(s: seq<Outcome>): seq<Tuple> {
    if s == [] || !s[0].Joined? then [] else [s[0].row] + Delivered(s[1..])
  }

  predicate AllJoined(s: seq<Outcome>) { forall o | o in s :: o.Joined? }

  lemma {:induction false} DeliveredConcat(s: seq<Outcome>, t: seq<Outcome>)
    requires AllJoined(s)
    ensures Delivered(s + t) == Delivered(s) + Delivered(t)
    decreases s
  {
    if s == [] {
      assert s + t == t;
    } else {
      assert s[0] in s && (s + t)[1..] == s[1..] + t;
      DeliveredConcat(s[1..], t);
    }
  }

  // The rows `out` have been delivered, and the answers `rest` are to come.
  ghost predicate Draining(all: seq<Outcome>, out: seq<Tuple>, rest: seq<Outcome>) {
    Delivered(all) == out + Delivered(rest) && (AllJoined(all) <==> AllJoined(rest))
  }

  lemma DrainStep(all: seq<Outcome>, out: seq<Tuple>, o: Outcome, rest: seq<Outcome>)
    requires Draining(all, out, [o] + rest)
    ensures if o.Joined? then Draining(all, out + [o.row], rest) else out == Delivered(all) && !AllJoined(all)
  {
    assert ([o] + rest)[1..] == rest;
    assert o in [o] + rest;
  }

  // The rows `ids` are exactly those from `j` on with the value, in order.
  ghost predicate Lists(q: Equijoin, value: int, j: nat, ids: seq<nat>)
    requires q.Valid()
  {
    && (forall a, b | 0 <= a < b < |ids| :: ids[a] < ids[b])
    && (forall a | 0 <= a < |ids| :: Hit(q, value, j, ids[a]))
    && forall id: nat | Hit(q, value, j, id) :: id in ids
  }

  // A row from `j` on has the value.
  predicate Hit(q: Equijoin, value: int, j: nat, id: nat)
    requires q.Valid()
  {
    j <= id < |q.right.rows| && RightValue(q, id) == value
  }

  // The index reports exactly the matching rows, in order, for every value on the left.
  ghost predicate Enumerates(q: Equijoin, find: Index)
    requires q.Valid()
  {
    forall i | 0 <= i < |q.left.rows| :: Lists(q, LeftValue(q, i), 0, find(LeftValue(q, i)))
  }

  // Whether row `j` is listed
  lemma ListsStep(q: Equijoin, value: int, j: nat, ids: seq<nat>)
    requires q.Valid() && j < |q.right.rows| && Lists(q, value, j, ids)
    ensures if RightValue(q, j) == value then ids != [] && ids[0] == j && Lists(q, value, j + 1, ids[1..])
      else Lists(q, value, j + 1, ids)
  {
    if RightValue(q, j) == value {
      assert Hit(q, value, j, j);
      forall id: nat | Hit(q, value, j + 1, id)
        ensures id in ids[1..]
      {
        assert Hit(q, value, j, id);
      }
    } else {
      forall id: nat | Hit(q, value, j + 1, id)
        ensures id in ids
      {
        assert Hit(q, value, j, id);
      }
    }
  }

  lemma EmissionsStep(q: Equijoin, i: nat, ids: seq<nat>)
    requires q.Valid() && i < |q.left.rows| && ids != [] && ids[0] < |q.right.rows|
    ensures AllJoined(Emissions(q, i, ids)) <==> AllJoined(Emissions(q, i, ids[1..]))
    ensures Delivered(Emissions(q, i, ids)) ==
      [Pairing(q, q.left.rows[i], q.right.rows[ids[0]])] + Delivered(Emissions(q, i, ids[1..]))
  {
    assert Emissions(q, i, ids)[1..] == Emissions(q, i, ids[1..]);
  }

  // The rows `ids` lead to the matching rows from `j` on.
  ghost predicate Match(q: Equijoin, i: nat, j: nat, ids: seq<nat>)
    requires q.Valid() && i < |q.left.rows| && j <= |q.right.rows|
  {
    AllJoined(Emissions(q, i, ids)) && Delivered(Emissions(q, i, ids)) == Matching(q, i, j)
  }

  lemma MatchHere(q: Equijoin, i: nat, j: nat, ids: seq<nat>)
    requires q.Valid() && i < |q.left.rows| && j < |q.right.rows| && LeftValue(q, i) == RightValue(q, j)
    requires ids != [] && ids[0] == j && Match(q, i, j + 1, ids[1..])
    ensures Match(q, i, j, ids)
  {
    EmissionsStep(q, i, ids);
  }

  lemma ListsNone(q: Equijoin, value: int, ids: seq<nat>)
    requires q.Valid() && Lists(q, value, |q.right.rows|, ids)
    ensures ids == []
  {
    assert ids != [] ==> Hit(q, value, |q.right.rows|, ids[0]);
  }

  lemma {:induction false} EmissionsMatch(q: Equijoin, i: nat, j: nat, ids: seq<nat>)
    requires q.Valid() && i < |q.left.rows| && j <= |q.right.rows| && Lists(q, LeftValue(q, i), j, ids)
    ensures Match(q, i, j, ids)
    decreases |q.right.rows| - j
  {
    var value := LeftValue(q, i);
    if j == |q.right.rows| {
      ListsNone(q, value, ids);
    } else {
      ListsStep(q, value, j, ids);
      if RightValue(q, j) == value {
        EmissionsMatch(q, i, j + 1, ids[1..]);
        MatchHere(q, i, j, ids);
      } else {
        EmissionsMatch(q, i, j + 1, ids);
      }
    }
  }

  // One more row on the left
  lemma NestedStep(q: Equijoin, ids: nat -> seq<nat>, i: nat)
    requires q.Valid() && i < |q.left.rows| && Match(q, i, 0, ids(i))
    requires AllJoined(AllFrom(q, ids, i + 1)) && Delivered(AllFrom(q, ids, i + 1)) == NestedLoop(q, i + 1)
    ensures AllJoined(AllFrom(q, ids, i)) && Delivered(AllFrom(q, ids, i)) == NestedLoop(q, i)
  {
    DeliveredConcat(Emissions(q, i, ids(i)), AllFrom(q, ids, i + 1));
  }

  /** Through an index that reports the matching rows the join is that of the nested loops. */
  lemma {:induction false} JoinIsNestedLoop(q: Equijoin, find: Index, ids: nat -> seq<nat>, i: nat)
    requires q.Valid() && i <= |q.left.rows| && Enumerates(q, find) && Finds(q, find, ids)
    ensures AllJoined(AllFrom(q, ids, i)) && Delivered(AllFrom(q, ids, i)) == NestedLoop(q, i)
    decreases |q.left.rows| - i
  {
    if i < |q.left.rows| {
      assert FindsAt(q, find, ids, i);
      assert Lists(q, LeftValue(q, i), 0, find(LeftValue(q, i)));
      EmissionsMatch(q, i, 0, ids(i));
      JoinIsNestedLoop(q, find, ids, i + 1);
      NestedStep(q, ids, i);
    }
  }

  // ---------------------------------------------------------------- the inline index

  function RightColumn(q: Equijoin): (keys: seq<int>)
    requires q.Valid()
    ensures |keys| == |q.right.rows|
  {
    seq(|q.right.rows|, j requires 0 <= j < |q.right.rows| => RightValue(q, j))
  }

  // The row that the inline index reports for a value, if any
  function InlineRows(keys: seq<int>): Index {
    value => if value in keys then [Stop(keys, value)] else []
  }

  // The iterator of the inline index reports these rows when the search stays inside the column.
  lemma InlineReports(keys: seq<int>, value: int, n: nat)
    requires Increasing(keys) && !RunsOutside(keys, value)
    ensures var ids := InlineRows(keys)(value);
      Next(ReportOf(keys, value, value), n) == if n < |ids| then Row(ids[n]) else Missing
  {
    StopNear(keys, value);
  }

  lemma InlineLists(q: Equijoin, value: int)
    requires q.Valid() && Increasing(RightColumn(q)) && !RunsOutside(RightColumn(q), value)
    ensures Lists(q, value, 0, InlineRows(RightColumn(q))(value))
  {
    var keys := RightColumn(q);
    StopNear(keys, value);
    forall id: nat | Hit(q, value, 0, id)
      ensures value in keys && id == Stop(keys, value)
    {
      assert keys[id] == value;
      assert Above(keys, id) && Above(keys, Stop(keys, value));
    }
  }

  // The iterator reports for a value exactly its row, if there is one, and then the end.
  ghost predicate Serves(keys: seq<int>, value: int) {
    forall n: nat :: Next(ReportOf(keys, value, value), n) ==
      if n < |InlineRows(keys)(value)| then Row(InlineRows(keys)(value)[n]) else Missing
  }

  // The inline index reports the matching rows for every row on the left.
  ghost predicate InlineServes(q: Equijoin)
    requires q.Valid()
  {
    && Enumerates(q, InlineRows(RightColumn(q)))
    && forall i | 0 <= i < |q.left.rows| :: Serves(RightColumn(q), LeftValue(q, i))
  }

  /** The inline index serves for a join exactly if no value on the left is below all values on the right. */
  lemma InlineJoinIff(q: Equijoin)
    requires q.Valid() && Increasing(RightColumn(q))
    ensures InlineServes(q) <==> forall i | 0 <= i < |q.left.rows| :: !RunsOutside(RightColumn(q), LeftValue(q, i))
  {
    var keys := RightColumn(q);
    forall i | 0 <= i < |q.left.rows|
      ensures Serves(keys, LeftValue(q, i)) <==> !RunsOutside(keys, LeftValue(q, i))
      ensures !RunsOutside(keys, LeftValue(q, i)) ==> Lists(q, LeftValue(q, i), 0, InlineRows(keys)(LeftValue(q, i)))
    {
      var value := LeftValue(q, i);
      if RunsOutside(keys, value) {
        assert Next(ReportOf(keys, value, value), 0) == Outside;
      } else {
        InlineLists(q, value);
        forall n: nat
          ensures Next(ReportOf(keys, value, value), n) ==
            if n < |InlineRows(keys)(value)| then Row(InlineRows(keys)(value)[n]) else Missing
        {
          InlineReports(keys, value, n);
        }
      }
    }
  }

  // ---------------------------------------------------------------- setting up a join

  // Where an attribute of this name is found: on the left, or else on the right
  function SourceOf(left: seq<Attribute>, right: seq<Attribute>, name: string): (s: Option<Source>)
    ensures s.Some? && s.value.left ==> Find(left, name) < |left|
  {
    var i, j := Find(left, name), Find(right, name);
    if i < |left| then Some(Source(true, Offset(left, i), left[i].size))
    else if j < |right| then Some(Source(false, Offset(right, j), right[j].size))
    else None
  }

  lemma SourceInside(left: seq<Attribute>, right: seq<Attribute>, name: string)
    ensures match SourceOf(left, right, name)
      case Some(s) => s.from + s.size <= RowLength(if s.left then left else right)
      case None => true
  {
    var i, j := Find(left, name), Find(right, name);
    if i < |left| {
      OffsetMonotonic(left, i + 1, |left|);
    } else if j < |right| {
      OffsetMonotonic(right, j + 1, |right|);
    }
  }

  datatype Setup = Ready(q: Equijoin) | RelationalError | NotIndexed

  // The attributes that are joined on exist, and one on the right has an index.
  predicate Joinable(left: Relation, right: Relation, name: string) {
    Find(left.attrs, name) < |left.attrs| && Find(right.attrs, name) < |right.attrs|
  }

  // relation_join and generate_join_result; the first name is that of the attribute to join on.
  method Join(left: Relation, right: Relation, names: seq<string>, ints: Ints) returns (r: Setup)
    requires left.Valid() && right.Valid() && names != []
    ensures r.Ready? <==>
      && Joinable(left, right, names[0]) && right.attrs[Find(right.attrs, names[0])].indexed
      && forall n | 1 <= n < |names| :: SourceOf(left.attrs, right.attrs, names[n]).Some?
    ensures r.NotIndexed? <==>
      Joinable(left, right, names[0]) && !right.attrs[Find(right.attrs, names[0])].indexed
    ensures r.Ready? ==>
      && r.q.Valid() && r.q.left == left && r.q.right == right && r.q.ints == ints
      && r.q.leftKey == Find(left.attrs, names[0]) && r.q.rightKey == Find(right.attrs, names[0])
      && |r.q.sources| == |names| - 1
      && forall n | 1 <= n < |names| :: Some(r.q.sources[n - 1]) == SourceOf(left.attrs, right.attrs, names[n])
  {
    var i := AttributeFind(left.attrs, names[0]);
    var j := AttributeFind(right.attrs, names[0]);
    if i == |left.attrs| || j == |right.attrs| {
      return RelationalError;
    }
    if !right.attrs[j].indexed {
      return NotIndexed;
    }
    var sources: seq<Source> := [];
    var n := 1;
    while n < |names|
      invariant 1 <= n <= |names| && |sources| == n - 1
      invariant forall m | 1 <= m < n :: Some(sources[m - 1]) == SourceOf(left.attrs, right.attrs, names[m])
      invariant forall s | s in sources :: s.from + s.size <= RowLength(if s.left then left.attrs else right.attrs)
    {
      var s := FindSource(left.attrs, right.attrs, names[n]);
      if s.None? {
        return RelationalError;
      }
      SourceInside(left.attrs, right.attrs, names[n]);
      sources := sources + [s.value];
      n := n + 1;
    }
    r := Ready(Equijoin(left, right, i, j, sources, ints));
  }

  // The search for one attribute of the result
  method FindSource(left: seq<Attribute>, right: seq<Attribute>, name: string) returns (s: Option<Source>)
    ensures s == SourceOf(left, right, name)
  {
    var i := AttributeFind(left, name);
    if i < |left| {
      var offset := AttributeOffset(left, i);
      return Some(Source(true, offset, left[i].size));
    }
    var j := AttributeFind(right, name);
    if j < |right| {
      var offset := AttributeOffset(right, j);
      return Some(Source(false, offset, right[j].size));
    }
    return None;
  }

  // ---------------------------------------------------------------- the step function

  /** A join in progress (db_handle_t), with the static row buffers and the iterator's rows. */
  class Joining {
    const q: Equijoin
    const find: Index
    ghost const ids: nat -> seq<nat>
    const assign: bool
    const joinRow: array<byte>
    var tupleId: nat
    var indexStep: bool
    var leftRow: Tuple
    var found: seq<nat>
    var nextItem: nat
    var currentRow: nat
    var stored: seq<Tuple>

    ghost predicate Valid()
      reads this
    {
      && q.Valid() && joinRow.Length >= SizeOf(q.sources, |q.sources|) && Finds(q, find, ids)
      && (!indexStep ==> InStep(q, ids, tupleId, leftRow, found, nextItem))
    }

    // The answers of the calls to come.  After the last one the join starts again.
    ghost function Remaining(): seq<Outcome>
      requires Valid()
      reads this
    {
      if indexStep then AllFrom(q, ids, 0) else After(q, ids, tupleId, found, nextItem)
    }

    // A handle with DB_HANDLE_FLAG_INDEX_STEP set
    constructor (q: Equijoin, find: Index, assign: bool, joinRow: array<byte>)
      requires q.Valid() && joinRow.Length >= SizeOf(q.sources, |q.sources|)
      ensures Valid() && this.q == q && this.find == find && this.assign == assign && this.joinRow == joinRow
      ensures Remaining() == AllFrom(q, ids, 0) && currentRow == 0 && stored == [] && indexStep
    {
      this.q, this.find, this.ids, this.assign, this.joinRow := q, find, RowsFound(q, find), assign, joinRow;
      tupleId, indexStep, leftRow, found, nextItem, currentRow, stored := 0, true, [], [], 0, 0, [];
    }

    // One attribute of the joined row is copied to its place.
    method CopySource(i: nat, to: nat, right: Tuple)
      requires q.Valid() && FitsPair(q, leftRow, right) && joinRow.Length >= SizeOf(q.sources, |q.sources|)
      requires i < |q.sources| && to == SizeOf(q.sources, i) && Filled(q, i, leftRow, right, joinRow[..])
      modifies joinRow
      ensures Filled(q, i + 1, leftRow, right, joinRow[..])
    {
      ghost var before := joinRow[..];
      CombinedStep(q, i, leftRow, right);
      var bytes := Part(q, i, leftRow, right);
      Copy(joinRow, to, bytes);
      FilledStep(q, i, leftRow, right, before, joinRow[..]);
    }

    // The loop over the attributes of the joined row
    method CopySources(right: Tuple)
      requires q.Valid() && FitsPair(q, leftRow, right) && joinRow.Length >= SizeOf(q.sources, |q.sources|)
      modifies joinRow
      ensures Filled(q, |q.sources|, leftRow, right, joinRow[..])
    {
      var to := 0;
      for i := 0 to |q.sources|
        invariant to == SizeOf(q.sources, i) && Filled(q, i, leftRow, right, joinRow[..])
      {
        CopySource(i, to, right);
        to := to + q.sources[i].size;
      }
    }

    // What is done for a row that the index reports: it is joined, stored if the query says so, and counted.
    method Look(id: nat) returns (r: Outcome)
      requires q.Valid() && tupleId < |q.left.rows| && leftRow == q.left.rows[tupleId]
      requires joinRow.Length >= SizeOf(q.sources, |q.sources|)
      modifies this`stored, this`currentRow, joinRow
      ensures r == Emission(q, tupleId, id) && r != Over && Recorded(r, old(currentRow), old(stored))
    {
      if id >= |q.right.rows| {
        return InvalidRow;
      }
      CopySources(q.right.rows[id]);
      var row := joinRow[..SizeOf(q.sources, |q.sources|)];
      if assign {
        stored := stored + [row];
      }
      currentRow := currentRow + 1;
      return Joined(row);
    }

    // The body of the inner loop: the next matching row, or the end of this step
    method NextMatch() returns (r: Option<Outcome>)
      requires Valid() && !indexStep
      modifies this, joinRow
      ensures Valid() && tupleId == old(tupleId)
      ensures r.None? ==> old(Remaining()) == AllFrom(q, ids, tupleId + 1)
      ensures Looked(r, old(Remaining()), old(currentRow), old(stored))
    {
      AfterStep(q, ids, tupleId, found, nextItem);
      if nextItem == |found| {
        indexStep := true;
        return None;
      }
      var id := found[nextItem];
      nextItem := nextItem + 1;
      var outcome := Look(id);
      r := Some(outcome);
    }

    // A joined row is in the buffer, is counted, and is stored if the query says so.
    ghost predicate Recorded(r: Outcome, count: nat, rows: seq<Tuple>)
      reads this, joinRow
    {
      && (r.Joined? ==> |r.row| <= joinRow.Length && joinRow[..|r.row|] == r.row)
      && currentRow == Counted(r, count) && stored == Saved(assign, r, rows)
    }

    // There was a matching row, whose answer is given, or nothing has happened but the end of the step.
    ghost predicate Looked(r: Option<Outcome>, goal: seq<Outcome>, count: nat, rows: seq<Tuple>)
      requires Valid()
      reads this, joinRow
    {
      if r.None? then indexStep && currentRow == count && stored == rows
      else r.value != Over && Advanced(goal, r.value) && Recorded(r.value, count, rows)
    }

    // The part of the outer loop before the inner one: the row on the left, and an iterator for its value
    method StartStep()
      requires Valid() && tupleId < |q.left.rows|
      modifies this`leftRow, this`found, this`nextItem, this`indexStep
      ensures Valid() && !indexStep && Remaining() == AllFrom(q, ids, tupleId)
    {
      leftRow := q.left.rows[tupleId];
      var value := ValueOf(q.left.attrs, q.leftKey, q.ints, leftRow);
      assert FindsAt(q, find, ids, tupleId);
      found, nextItem, indexStep := find(value), 0, false;
      assert found[0..] == found;
    }

    // The answers to come were `goal`, and now one of them is given.
    ghost predicate Advanced(goal: seq<Outcome>, r: Outcome)
      requires Valid()
      reads this
    {
      if r == Over then goal == [] && indexStep else !indexStep && goal == [r] + Remaining()
    }

    // The outer loop, for the rows on the left from `tupleId` on
    method NextStep() returns (r: Outcome)
      requires Valid() && indexStep && tupleId <= |q.left.rows|
      modifies this, joinRow
      ensures Valid() && Advanced(AllFrom(q, ids, old(tupleId)), r) && Recorded(r, old(currentRow), old(stored))
    {
      ghost var goal := AllFrom(q, ids, tupleId);
      while true
        invariant indexStep && tupleId <= |q.left.rows| && goal == AllFrom(q, ids, tupleId)
        invariant currentRow == old(currentRow) && stored == old(stored)
        decreases |q.left.rows| - tupleId
      {
        if tupleId == |q.left.rows| {
          return Over;
        }
        StartStep();
        var got := NextMatch();
        if got.Some? {
          return got.value;
        }
        tupleId := tupleId + 1;
      }
    }

    // relation_process_join
    method Process() returns (r: Outcome)
      requires Valid()
      modifies this, joinRow
      ensures Valid() && Advanced(old(Remaining()), r) && Recorded(r, old(currentRow), old(stored))
    {
      if indexStep {
        tupleId := 0;
      } else {
        var got := NextMatch();
        if got.Some? {
          return got.value;
        }
        tupleId := tupleId + 1;
      }
      r := NextStep();
    }

    // Calls until the join is over or fails
    method Drain() returns (out: seq<Tuple>, r: Outcome)
      requires Valid()
      modifies this, joinRow
      ensures out == Delivered(old(Remaining()))
      ensures r == if AllJoined(old(Remaining())) then Over else InvalidRow
    {
      ghost var all, rest := Remaining(), Remaining();
      out, r := [], Over;
      while true
        invariant Valid() && rest == Remaining() && Draining(all, out, rest)
        decreases |rest|
      {
        r := Process();
        if r == Over {
          return;
        }
        DrainStep(all, out, r, Remaining());
        if r == InvalidRow {
          return;
        }
        out, rest := out + [r.row], Remaining();
      }
    }
  }

  function Counted(r: Outcome, count: nat): nat { if r.Joined? then count + 1 else count }

  function Saved(assign: bool, r: Outcome, rows: seq<Tuple>): seq<Tuple> {
    if assign && r.Joined? then rows + [r.row] else rows
  }

  // The buffer starts with the first `n` attributes of a joined row.
  ghost predicate Filled(q: Equijoin, n: nat, l: Tuple, r: Tuple, bytes: seq<byte>)
    requires q.Valid() && n <= |q.sources| && FitsPair(q, l, r)
  {
    SizeOf(q.sources, n) <= |bytes| && bytes[..SizeOf(q.sources, n)] == Combined(q, n, l, r)
  }

  // What attribute `n` of the joined row takes from the two rows
  function Part(q: Equijoin, n: nat, l: Tuple, r: Tuple): (bytes: Tuple)
    requires q.Valid() && n < |q.sources| && FitsPair(q, l, r)
  {
    var s := q.sources[n];
    assert q.Inside(s);
    (if s.left then l else r)[s.from..s.from + s.size]
  }

  lemma CombinedStep(q: Equijoin, n: nat, l: Tuple, r: Tuple)
    requires q.Valid() && n < |q.sources| && FitsPair(q, l, r)
    ensures Combined(q, n + 1, l, r) == Combined(q, n, l, r) + Part(q, n, l, r)
    ensures |Part(q, n, l, r)| == q.sources[n].size && SizeOf(q.sources, n + 1) <= SizeOf(q.sources, |q.sources|)
  {
    assert q.Inside(q.sources[n]);
    SizeMonotonic(q.sources, n + 1, |q.sources|);
  }

  lemma FilledStep(q: Equijoin, n: nat, l: Tuple, r: Tuple, before: seq<byte>, after: seq<byte>)
    requires q.Valid() && n < |q.sources| && FitsPair(q, l, r) && Filled(q, n, l, r, before)
    requires SizeOf(q.sources, |q.sources|) <= |before| == |after|
    requires var to, bytes := SizeOf(q.sources, n), Part(q, n, l, r);
      to + |bytes| <= |before| && after == before[..to] + bytes + before[to + |bytes|..]
    ensures Filled(q, n + 1, l, r, after)
  {
    CombinedStep(q, n, l, r);
    PrefixSpliced(before, SizeOf(q.sources, n), Part(q, n, l, r));
  }

  // The inner loop is about to look at item `n` of the rows found for a row on the left.
  ghost predicate InStep(q: Equijoin, ids: nat -> seq<nat>, i: nat, row: Tuple, found: seq<nat>, n: nat)
    requires q.Valid()
  {
    i < |q.left.rows| && row == q.left.rows[i] && found == ids(i) && n <= |found|
  }

  function After(q: Equijoin, ids: nat -> seq<nat>, i: nat, found: seq<nat>, n: nat): seq<Outcome>
    requires q.Valid() && i < |q.left.rows| && n <= |found|
  {
    Emissions(q, i, found[n..]) + AllFrom(q, ids, i + 1)
  }

  lemma AfterStep(q: Equijoin, ids: nat -> seq<nat>, i: nat, found: seq<nat>, n: nat)
    requires q.Valid() && i < |q.left.rows| && n <= |found|
    ensures if n == |found| then After(q, ids, i, found, n) == AllFrom(q, ids, i + 1)
      else After(q, ids, i, found, n) == [Emission(q, i, found[n])] + After(q, ids, i, found, n + 1)
  {
    if n < |found| {
      var rest := found[n..];
      assert rest[0] == found[n] && rest[1..] == found[n + 1..];
      assert Emissions(q, i, rest) == [Emission(q, i, found[n])] + Emissions(q, i, found[n + 1..]);
    }
  }

  /** A join through an index that reports the matching rows delivers those of the nested loops. */
  method RunJoin(q: Equijoin, find: Index, joinRow: array<byte>) returns (out: seq<Tuple>, r: Outcome)
    requires q.Valid() && joinRow.Length >= SizeOf(q.sources, |q.sources|)
    modifies joinRow
    ensures Enumerates(q, find) ==> out == NestedLoop(q, 0) && r == Over
  {
    var join := new Joining(q, find, false, joinRow);
    out, r := join.Drain();
    if Enumerates(q, find) {
      JoinIsNestedLoop(q, find, join.ids, 0);
    }
  }
}
