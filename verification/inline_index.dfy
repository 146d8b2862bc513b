/**
 The inline index of Antelope (apps/antelope/index-inline.c) and its iterator
 (apps/antelope/index.c): binary search over a column whose values increase with the row
 number, and the enumeration of the rows between two bounds.

 Row numbers have 32 bits.  A search that runs below the first row wraps around and asks for a
 row that does not exist; the original then compares with whatever its buffer holds.  Here such
 a search has the outcome `Outside`.
 */
module InlineIndex {
  const MAX_ROWS := 0x7fff_ffff

  datatype Lookup = Row(id: nat) | Missing | Outside

  // Row `i` has a larger value than all rows before it.
  predicate Above(keys: seq<int>, i: int)
    requires 0 <= i < |keys|
  {
    forall j | 0 <= j < i :: keys[j] < keys[i]
  }

  predicate Increasing(keys: seq<int>) {
    forall i | 0 <= i < |keys| :: Above(keys, i)
  }

  // Row `c` has the wanted value or is next to where it would be.
  predicate Near(keys: seq<int>, c: int, target: int) {
    && 0 <= c < |keys|
    && (c + 1 < |keys| ==> target < keys[c + 1])
    && (0 < c ==> keys[c - 1] < target)
  }

  predicate RunsOutside(keys: seq<int>, target: int) { keys == [] || target < keys[0] }

  // The first row from `i` on with a value of at least `target`
  function RankFrom(keys: seq<int>, target: int, i: nat): (g: nat)
    requires i <= |keys|
    ensures i <= g <= |keys|
    decreases |keys| - i
  {
    if i == |keys| || target <= keys[i] then i else RankFrom(keys, target, i + 1)
  }

  function Rank(keys: seq<int>, target: int): (g: nat)
    ensures g <= |keys|
  {
    RankFrom(keys, target, 0)
  }

  lemma {:induction false} RankFromSplits(keys: seq<int>, target: int, i: nat)
    requires i <= |keys|
    ensures forall k | i <= k < RankFrom(keys, target, i) :: keys[k] < target
    ensures RankFrom(keys, target, i) < |keys| ==> target <= keys[RankFrom(keys, target, i)]
    decreases |keys| - i
  {
    if i < |keys| && keys[i] < target {
      RankFromSplits(keys, target, i + 1);
    }
  }

  // Where bisecting the rows from `min` to `max` stops when the target belongs before row `gap`
  function GapStop(gap: nat, min: nat, max: nat): (c: nat)
    requires min <= max && min <= gap <= max + 1
    ensures min <= c <= max && gap - 1 <= c <= gap
    decreases max - min
  {
    var center := min + (max - min) / 2;
    if center < gap then
      if center < max then GapStop(gap, center + 1, max) else center
    else
      if min < center then GapStop(gap, min, center - 1) else center
  }

  // The row that a search of the whole column stops at
  function Stop(keys: seq<int>, target: int): (c: nat)
    requires keys != []
    ensures c < |keys| && Rank(keys, target) - 1 <= c <= Rank(keys, target)
  {
    var g := Rank(keys, target);
    if g < |keys| && keys[g] == target then g else GapStop(g, 0, |keys| - 1)
  }

  // Exactly the rows before `gap` have values below the target.
  ghost predicate Splits(keys: seq<int>, target: int, gap: nat) {
    && gap <= |keys|
    && (forall i | 0 <= i < gap :: keys[i] < target)
    && (forall i | gap < i < |keys| :: target < keys[i])
    && (gap < |keys| ==> target <= keys[gap])
  }

  lemma RankSplits(keys: seq<int>, target: int)
    requires Increasing(keys)
    ensures Splits(keys, target, Rank(keys, target))
  {
    var g := Rank(keys, target);
    RankFromSplits(keys, target, 0);
    forall i | g < i < |keys|
      ensures target < keys[i]
    {
      assert Above(keys, i);
    }
  }

  lemma StopNear(keys: seq<int>, target: int)
    requires Increasing(keys) && keys != []
    ensures Near(keys, Stop(keys, target), target)
    ensures target in keys <==> keys[Stop(keys, target)] == target
  {
    RankSplits(keys, target);
  }

  // What a search for `target` reports
  function Search(keys: seq<int>, target: int, exact: bool): Lookup {
    if RunsOutside(keys, target) then Outside
    else if exact && target !in keys then Missing
    else Row(Stop(keys, target))
  }

  // The row number before `id`, which wraps around
  function Before(id: nat): nat { if id == 0 then 0xffff_ffff else id - 1 }

  // The search is down to the rows from `min` to `max` and will stop at `stop`.
  ghost predicate Searching(keys: seq<int>, target: int, gap: nat, min: nat, max: nat, stop: nat) {
    && min <= max < |keys| && min <= gap <= max + 1
    && if gap < |keys| && keys[gap] == target then gap <= max && stop == gap else stop == GapStop(gap, min, max)
  }

  // One comparison either ends the search or halves it.
  lemma Halves(keys: seq<int>, target: int, gap: nat, min: nat, max: nat, stop: nat)
    requires Splits(keys, target, gap) && Searching(keys, target, gap, min, max, stop)
    ensures var center := min + (max - min) / 2;
      if target == keys[center] then stop == center
      else if target > keys[center] then
        if center < max then Searching(keys, target, gap, center + 1, max, stop) else stop == center
      else
        if min < center then Searching(keys, target, gap, min, center - 1, stop)
        else stop == center && (center == 0 ==> RunsOutside(keys, target))
  {
  }

  // The loop of binary_search
  method Bisect(keys: seq<int>, target: int, ghost gap: nat, ghost stop: nat) returns (r: Lookup, value: int)
    requires Splits(keys, target, gap) && |keys| <= MAX_ROWS
    requires keys != [] ==> Searching(keys, target, gap, 0, |keys| - 1, stop)
    ensures if RunsOutside(keys, target) then r == Outside
      else r == Row(stop) && stop < |keys| && value == keys[stop]
  {
    var max: nat, min: nat := Before(|keys|), 0;
    while true
      invariant
        || Searching(keys, target, gap, min, max, stop)
        || (max == 0xffff_ffff && min == 0 && RunsOutside(keys, target))
      invariant min <= max && (RunsOutside(keys, target) ==> min == 0)
      decreases if max < |keys| then max - min + 1 else 0
    {
      var center: nat := min + (max - min) / 2;
      if center >= |keys| {
        return Outside, 0;
      }
      value := keys[center];
      Halves(keys, target, gap, min, max, stop);
      if target > value {
        min := center + 1;
      } else {
        max := Before(center);
      }
      if min > max || target == value {
        return Row(center), value;
      }
    }
  }

  // binary_search
  method BinarySearch(keys: seq<int>, target: int, exact: bool) returns (r: Lookup)
    requires Increasing(keys) && |keys| <= MAX_ROWS
    ensures r == Search(keys, target, exact)
  {
    RankSplits(keys, target);
    var value;
    r, value := Bisect(keys, target, Rank(keys, target), if keys == [] then 0 else Stop(keys, target));
    if r == Outside {
      return;
    }
    StopNear(keys, target);
    if exact && target != value {
      return Missing;
    }
  }

  // Both bounds are found; equal bounds ask for an exact match.
  predicate Window(keys: seq<int>, low: int, high: int, start: nat, end: nat) {
    Search(keys, low, low == high) == Row(start) && Search(keys, high, low == high) == Row(end)
  }

  // Searches for a lower and a higher value stop in that order.
  lemma StopsOrdered(keys: seq<int>, low: int, high: int)
    requires Increasing(keys) && keys != [] && low <= high
    ensures Stop(keys, low) <= Stop(keys, high)
  {
    RankSplits(keys, low);
    RankSplits(keys, high);
    assert Rank(keys, low) <= Rank(keys, high);
  }

  // The rows in a range lie between rows that are near its bounds.
  lemma NearCovers(keys: seq<int>, low: int, high: int, start: nat, end: nat, i: nat)
    requires Increasing(keys) && low <= high && i < |keys|
    requires Near(keys, start, low) && Near(keys, end, high)
    requires (low in keys ==> keys[start] == low) && (high in keys ==> keys[end] == high)
    ensures low <= keys[i] <= high ==> start <= i <= end
    ensures start < i < end ==> low < keys[i] < high
  {
    assert Above(keys, i) && Above(keys, end) && Above(keys, start);
    if start > 0 {
      assert Above(keys, start - 1);
    }
    if start + 1 < |keys| {
      assert Above(keys, start + 1);
    }
    if end + 1 < |keys| {
      assert Above(keys, end + 1);
    }
    if end > 0 {
      assert Above(keys, end - 1);
    }
  }

  /**
   The rows between the two search results are the rows in the range and at most one row before
   and one row after them.
   */
  lemma WindowCovers(keys: seq<int>, low: int, high: int, start: nat, end: nat)
    requires Increasing(keys) && low <= high && Window(keys, low, high, start, end)
    ensures start <= end < |keys|
    ensures forall i | 0 <= i < |keys| && low <= keys[i] <= high :: start <= i <= end
    ensures forall i | start < i < end :: low < keys[i] < high
    ensures low == high ==> start == end && keys[start] == low
  {
    StopsOrdered(keys, low, high);
    StopNear(keys, low);
    StopNear(keys, high);
    forall i | 0 <= i < |keys|
      ensures low <= keys[i] <= high ==> start <= i <= end
      ensures start < i < end ==> low < keys[i] < high
    {
      NearCovers(keys, low, high, start, end, i);
    }
  }

  /** What an iterator reports: the rows from the first search result up to `upto`, or a failed search. */
  datatype Report = Report(first: Lookup, upto: nat)

  // The first row is reported in any case.
  function ReportOf(keys: seq<int>, low: int, high: int): (r: Report)
    ensures r.first.Row? ==> r.first.id < r.upto <= |keys|
  {
    var start, end := Search(keys, low, low == high), Search(keys, high, low == high);
    if !start.Row? then Report(start, 0)
    else if !end.Row? then Report(end, 0)
    else Report(start, 1 + if start.id <= end.id then end.id else start.id)
  }

  // The answer to a call after `n` rows have been reported
  function Next(r: Report, n: nat): Lookup {
    if n == 0 then r.first
    else if r.first.Row? && r.first.id + n < r.upto then Row(r.first.id + n)
    else Missing
  }

  class Iterator {
    const keys: seq<int>
    const minValue: int
    const maxValue: int
    const unique: bool
    var nextItemNo: nat
    var cachedStart: nat
    var cachedEnd: nat

    ghost function Reports(): Report { ReportOf(keys, minValue, maxValue) }

    ghost predicate Valid()
      reads this
    {
      && Increasing(keys) && |keys| <= MAX_ROWS
      && (nextItemNo > 0 ==> Window(keys, minValue, maxValue, cachedStart, cachedEnd))
    }

    // index_get_iterator
    constructor (keys: seq<int>, minValue: int, maxValue: int, unique: bool)
      requires Increasing(keys) && |keys| <= MAX_ROWS
      ensures Valid() && this.keys == keys && this.minValue == minValue && this.maxValue == maxValue && nextItemNo == 0
    {
      this.keys, this.minValue, this.maxValue, this.unique := keys, minValue, maxValue, unique;
      nextItemNo, cachedStart, cachedEnd := 0, 0, 0;
    }

    // range_search
    method RangeSearch() returns (start: Lookup, end: Lookup)
      requires Valid()
      ensures start == Search(keys, minValue, minValue == maxValue)
      ensures end == if start.Row? then Search(keys, maxValue, minValue == maxValue) else start
    {
      var exact := minValue == maxValue;
      start := BinarySearch(keys, minValue, exact);
      if !start.Row? {
        return start, start;
      }
      end := BinarySearch(keys, maxValue, exact);
    }

    // get_next
    method GetNext() returns (r: Lookup)
      requires Valid()
      modifies this
      ensures Valid() && r == Next(Reports(), old(nextItemNo))
      ensures nextItemNo == old(nextItemNo) + if r.Row? then 1 else 0
    {
      if nextItemNo == 0 {
        var start, end := RangeSearch();
        if !start.Row? || !end.Row? {
          cachedStart, cachedEnd := 0, 0;
          return if start.Row? then end else start;
        }
        cachedStart, cachedEnd := start.id, end.id;
        nextItemNo := 1;
        return start;
      } else if cachedStart + nextItemNo <= cachedEnd {
        nextItemNo := nextItemNo + 1;
        return Row(cachedStart + nextItemNo - 1);
      }
      return Missing;
    }

    // index_get_next: an equality search for a unique value stops after one row.
    method IndexGetNext() returns (r: Lookup)
      requires Valid()
      modifies this
      ensures Valid() && r == Next(Reports(), old(nextItemNo))
      ensures nextItemNo == old(nextItemNo) + if r.Row? then 1 else 0
    {
      if unique && nextItemNo == 1 && minValue == maxValue {
        WindowCovers(keys, minValue, maxValue, cachedStart, cachedEnd);
        return Missing;
      }
      r := GetNext();
    }
  }
}
