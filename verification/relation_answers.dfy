/**
 What queries on a relation answer (apps/antelope/relation.c): a scan through an index next to
 a scan of all rows, and SELECT next to REMOVE.
 */
module RelationAnswers {
  import opened Bytes
  import opened Options
  import opened Lvm
  import opened LvmDerive
  import opened InlineIndex
  import opened RelationSelect

  // A SELECT whose condition has intervals that cover its solutions
  ghost predicate Covered(q: Query) {
    && q.Valid() && q.wanted == IsTrue && q.where.Some? && Oriented(q.where.value) && Derive(q.where.value).Some?
  }

  ghost predicate Rows(q: Query, rows: seq<Tuple>)
    requires q.Valid()
  {
    (forall r | r in rows :: FitsRow(q, r)) && Sorted(q, rows)
  }

  lemma ValuesAreLongs(q: Query, row: Tuple)
    requires q.Valid() && FitsRow(q, row)
    ensures Valuation(Values(q, row))
  {
    var vals := Values(q, row);
    forall v | v in vals
      ensures IsLong(v)
    {
      var i :| 0 <= i < VARIABLE_LIMIT && vals[i] == v;
      if i < |q.names| {
        NamesAreAttributes(q, q.names[i]);
        var a := Named(q, q.names[i]);
        DecodeIsLong(Field(q, a, row), a.domain, q.ints);
      }
    }
  }

  // An accepted row has its value in the interval derived for an attribute.
  lemma AcceptedInside(q: Query, row: Tuple, name: string)
    requires Covered(q) && FitsRow(q, row) && Accepts(q, row)
    requires Find(q.attrs, name) < |q.attrs| && DerivedRange(q.names, Derive(q.where.value).value, name).Some?
    ensures Inside(DerivedRange(q.names, Derive(q.where.value).value, name).value, ValueIn(q, name, row))
  {
    var vals, r := Values(q, row), Derive(q.where.value).value;
    ValuesAreLongs(q, row);
    DerivationSound(q.where.value, vals);
    var i := IndexOf(q.names, name);
    assert vals[i] == ValueIn(q, name, row);
    assert Inside(r[i], vals[i]);
  }

  // Rows that are not accepted add nothing to an answer.
  lemma {:induction false} NothingAccepted(q: Query, rows: seq<Tuple>)
    requires q.Valid() && (forall r | r in rows :: FitsRow(q, r)) && (forall r | r in rows :: !Accepts(q, r))
    ensures Answer(q, rows) == []
    decreases rows
  {
    if rows != [] {
      NothingAccepted(q, rows[1..]);
    }
  }

  // Leaving out rows before `from` and from `to` on changes nothing if none of them is accepted.
  lemma AnswerBetween(q: Query, rows: seq<Tuple>, from: nat, to: nat)
    requires q.Valid() && (forall r | r in rows :: FitsRow(q, r)) && from <= to <= |rows|
    ensures Answer(q, rows) == Answer(q, rows[..from]) + Answer(q, rows[from..to]) + Answer(q, rows[to..])
  {
    assert rows == rows[..to] + rows[to..] && rows[..to] == rows[..from] + rows[from..to];
    AnswerConcat(q, rows[..to], rows[to..]);
    AnswerConcat(q, rows[..from], rows[from..to]);
  }

  // ---------------------------------------------------------------- bounds stored as ints

  // The values of a numeric column
  function KeyMin(domain: Domain, ints: Ints): int {
    match domain
    case IntDomain => if ints.Bits16? then -0x8000 else 0
    case LongDomain => LONG_MIN
    case StringDomain => 0
  }

  function KeyMax(domain: Domain, ints: Ints): int {
    match domain
    case IntDomain => if ints.Bits16? then 0x7fff else 0xffff
    case LongDomain => LONG_MAX
    case StringDomain => 0
  }

  predicate Keys(keys: seq<int>, domain: Domain, ints: Ints) {
    forall v | v in keys :: KeyMin(domain, ints) <= v <= KeyMax(domain, ints)
  }

  predicate Reported(report: Report, i: nat) {
    report.first.Row? ==> report.first.id <= i < report.upto
  }

  // Every row with its value between the bounds is reported although the search uses other bounds.
  ghost predicate StillCovers(domain: Domain, ints: Ints, low: int, high: int, usedLow: int, usedHigh: int) {
    forall keys, i: nat | Increasing(keys) && i < |keys| && low <= keys[i] <= high && Keys(keys, domain, ints) ::
      Reported(ReportOf(keys, usedLow, usedHigh), i)
  }

  // The part of the interval that a column can have values in lies between the bounds that are used.
  predicate StillInside(domain: Domain, ints: Ints, low: int, high: int, usedLow: int, usedHigh: int) {
    var bottom, top := Max(low, KeyMin(domain, ints)), Min(high, KeyMax(domain, ints));
    bottom > top || (usedLow <= bottom && (top <= usedHigh || top == usedLow))
  }

  // A found value is found in its row.
  lemma FoundAt(keys: seq<int>, i: nat)
    requires Increasing(keys) && i < |keys|
    ensures Stop(keys, keys[i]) == i
  {
    StopNear(keys, keys[i]);
    var c := Stop(keys, keys[i]);
    assert Above(keys, i) && Above(keys, c);
  }

  lemma IncreasingPair(a: int, b: int)
    requires a < b
    ensures Increasing([a, b])
  {
  }

  lemma IncreasingTriple(a: int, b: int, c: int)
    requires a < b < c
    ensures Increasing([a, b, c])
  {
  }

  // A column with `missed` and both bounds of the search, which leaves `missed` out
  lemma Misses(usedLow: int, usedHigh: int, missed: int) returns (keys: seq<int>, i: nat)
    requires missed < usedLow || (usedLow < missed && usedHigh < missed)
    ensures Increasing(keys) && (forall v | v in keys :: v == usedLow || v == usedHigh || v == missed)
    ensures i < |keys| && keys[i] == missed && !Reported(ReportOf(keys, usedLow, usedHigh), i)
  {
    if missed < usedLow {
      if usedHigh < missed {
        keys, i := [usedHigh, missed, usedLow], 1;
        IncreasingTriple(usedHigh, missed, usedLow);
        FoundAt(keys, 0);
        FoundAt(keys, 2);
      } else {
        keys, i := [missed, usedLow], 0;
        IncreasingPair(missed, usedLow);
        FoundAt(keys, 1);
      }
      assert usedLow == keys[|keys| - 1];
    } else if usedLow == usedHigh {
      keys, i := [usedLow, missed], 1;
      IncreasingPair(usedLow, missed);
      FoundAt(keys, 0);
    } else {
      var a, b := Min(usedLow, usedHigh), Max(usedLow, usedHigh);
      keys, i := [a, b, missed], 2;
      IncreasingTriple(a, b, missed);
      FoundAt(keys, 0);
      FoundAt(keys, 1);
    }
  }

  lemma Covering(domain: Domain, ints: Ints, low: int, high: int, usedLow: int, usedHigh: int, keys: seq<int>, i: nat)
    requires Increasing(keys) && Keys(keys, domain, ints) && i < |keys| && low <= keys[i] <= high
    requires StillInside(domain, ints, low, high, usedLow, usedHigh)
    ensures Reported(ReportOf(keys, usedLow, usedHigh), i)
    ensures usedLow == usedHigh ==> usedLow in keys
  {
    assert keys[i] in keys;
    var report := ReportOf(keys, usedLow, usedHigh);
    if report.first.Row? {
      if usedLow <= usedHigh {
        WindowCovers(keys, usedLow, usedHigh, report.first.id, Search(keys, usedHigh, usedLow == usedHigh).id);
      }
      if keys[i] == usedLow {
        FoundAt(keys, i);
      }
    }
  }

  /**
   The bounds of a search are narrowed to the C type int.  For each domain of columns this says exactly for
   which intervals no column loses rows by it.
   */
  lemma NarrowedBoundsIff(domain: Domain, ints: Ints, low: int, high: int)
    requires !domain.StringDomain? && IsLong(low) && IsLong(high)
    ensures var usedLow, usedHigh := ToInt(ints, low), ToInt(ints, high);
      StillCovers(domain, ints, low, high, usedLow, usedHigh) <==>
      StillInside(domain, ints, low, high, usedLow, usedHigh)
  {
    var bottom, top := Max(low, KeyMin(domain, ints)), Min(high, KeyMax(domain, ints));
    var usedLow, usedHigh := ToInt(ints, low), ToInt(ints, high);
    if StillInside(domain, ints, low, high, usedLow, usedHigh) {
      forall keys, i: nat | Increasing(keys) && i < |keys| && low <= keys[i] <= high && Keys(keys, domain, ints)
        ensures Reported(ReportOf(keys, usedLow, usedHigh), i)
      {
        Covering(domain, ints, low, high, usedLow, usedHigh, keys, i);
      }
    } else {
      var keys, i := Misses(usedLow, usedHigh, if usedLow > bottom then bottom else top);
    }
  }

  /** Ints as wide as longs narrow nothing. */
  lemma WideIntsInside(domain: Domain, low: int, high: int)
    ensures StillInside(domain, Bits32, low, high, ToInt(Bits32, low), ToInt(Bits32, high))
  {
  }

  // ---------------------------------------------------------------- a scan through an index

  lemma ColumnKeys(q: Query, rows: seq<Tuple>, k: nat)
    requires q.Valid() && k < |q.attrs| && forall r | r in rows :: FitsRow(q, r)
    ensures Keys(Column(q, rows, k), q.attrs[k].domain, q.ints)
  {
    assert q.Unique(k);
    var keys := Column(q, rows, k);
    forall v | v in keys
      ensures KeyMin(q.attrs[k].domain, q.ints) <= v <= KeyMax(q.attrs[k].domain, q.ints)
    {
      var i :| 0 <= i < |keys| && keys[i] == v;
      DecodeInRange(Field(q, q.attrs[k], rows[i]), q.attrs[k].domain, q.ints);
    }
  }

  lemma DecodeInRange(bytes: seq<byte>, domain: Domain, ints: Ints)
    requires (domain.IntDomain? ==> |bytes| == 2) && (domain.LongDomain? ==> |bytes| == 4)
    ensures KeyMin(domain, ints) <= Decode(bytes, domain, ints) <= KeyMax(domain, ints)
  {
  }

  // Storing the bounds of the interval as ints leaves out no value that the column can have.
  predicate NarrowsSafely(q: Query, k: nat, d: Derivation)
    requires k < |q.attrs|
  {
    StillInside(q.attrs[k].domain, q.ints, d.min, d.max, ToInt(q.ints, d.min), ToInt(q.ints, d.max))
  }

  // The query has an index on attribute `k`, and the interval `d` for it.
  ghost predicate Indexed(q: Query, rows: seq<Tuple>, k: nat, d: Derivation) {
    && Covered(q) && Rows(q, rows) && k < |q.attrs| && q.attrs[k].indexed
    && DerivedRange(q.names, Derive(q.where.value).value, q.attrs[k].name) == Some(d)
  }

  // What the index reports for the interval
  ghost function ReportFor(q: Query, rows: seq<Tuple>, k: nat, d: Derivation): Report
    requires Indexed(q, rows, k, d)
  {
    ReportOf(Column(q, rows, k), ToInt(q.ints, d.min), ToInt(q.ints, d.max))
  }

  lemma AcceptedInWindow(q: Query, rows: seq<Tuple>, k: nat, d: Derivation, i: nat)
    requires Indexed(q, rows, k, d) && NarrowsSafely(q, k, d) && i < |rows| && Accepts(q, rows[i])
    ensures Reported(ReportFor(q, rows, k, d), i)
    ensures ToInt(q.ints, d.min) == ToInt(q.ints, d.max) ==> ToInt(q.ints, d.min) in Column(q, rows, k)
  {
    var keys := Column(q, rows, k);
    assert rows[i] in rows && q.Unique(k);
    AcceptedInside(q, rows[i], q.attrs[k].name);
    assert d.min <= keys[i] <= d.max;
    ColumnKeys(q, rows, k);
    Covering(q.attrs[k].domain, q.ints, d.min, d.max, ToInt(q.ints, d.min), ToInt(q.ints, d.max), keys, i);
  }

  /**
   A scan through an index answers what a scan of all rows answers, rows and order alike, if its bounds narrow
   safely.  It ends without an answer exactly if a bound is below the first value of the column, or if both
   bounds are one value that the column does not have, where the other scan ends with an empty answer.
   */
  lemma IndexRefinesScan(q: Query, rows: seq<Tuple>, k: nat, d: Derivation, out: seq<Tuple>, r: Result)
    requires Indexed(q, rows, k, d) && NarrowsSafely(q, k, d)
    requires IndexAnswer(q, rows, ReportFor(q, rows, k, d), out, r)
    ensures r == Finished ==> out == Answer(q, rows)
    ensures var keys, low, high := Column(q, rows, k), ToInt(q.ints, d.min), ToInt(q.ints, d.max);
      r != Finished <==> RunsOutside(keys, low) || RunsOutside(keys, high) || (low == high && low !in keys)
    ensures r == IndexError ==> out == Answer(q, rows) == []
  {
    var report := ReportFor(q, rows, k, d);
    if report.first.Row? {
      WindowAnswers(q, rows, k, d, report.first.id, report.upto);
    } else if report.first.Missing? {
      forall i | 0 <= i < |rows|
        ensures !Accepts(q, rows[i])
      {
        if Accepts(q, rows[i]) {
          AcceptedInWindow(q, rows, k, d, i);
        }
      }
      NothingAccepted(q, rows);
    }
  }

  // What is reported has all rows that are accepted.
  lemma WindowAnswers(q: Query, rows: seq<Tuple>, k: nat, d: Derivation, from: nat, to: nat)
    requires Indexed(q, rows, k, d) && NarrowsSafely(q, k, d) && from <= to <= |rows|
    requires ReportFor(q, rows, k, d) == Report(Row(from), to)
    ensures Answer(q, rows[from..to]) == Answer(q, rows)
  {
    forall i | 0 <= i < |rows| && (i < from || to <= i)
      ensures !Accepts(q, rows[i])
    {
      if Accepts(q, rows[i]) {
        AcceptedInWindow(q, rows, k, d, i);
      }
    }
    AnswerBetween(q, rows, from, to);
    NothingAccepted(q, rows[..from]);
    NothingAccepted(q, rows[to..]);
  }

  /** A query from its plan to its end. */
  method RunQuery(s: Selection) returns (out: seq<Tuple>, r: Result)
    requires s.Ready() && s.Compiled() && Sorted(s.query, s.rows)
    requires s.scan == null && s.tupleId == 0 && s.machine.ip == 0
    modifies s, s.machine, s.resultRow
    ensures match Planned(s.query)
      case None => r == Finished && out == Answer(s.query, s.rows)
      case Some(p) => IndexAnswer(s.query, s.rows, ReportOf(Column(s.query, s.rows, p.k), p.low, p.high), out, r)
  {
    s.PlanScan();
    if s.scan == null {
      out, r := s.DrainAll();
    } else {
      out, r := s.DrainIndex();
    }
  }

  // ---------------------------------------------------------------- SELECT and REMOVE

  // The query that REMOVE runs to find the rows to keep
  function Keeping(q: Query): Query { q.(wanted := IsFalse) }

  // A predicate with intervals has no arithmetic and so no errors.
  lemma {:induction false} DerivableSafe(p: Logic, vals: seq<int>)
    requires Derive(p).Some?
    ensures LogicSafe(p, vals)
  {
    match p
    case Cmp(_, _, _) =>
    case Both(x, y) => DerivableSafe(x, vals); DerivableSafe(y, vals);
    case Either(x, y) => DerivableSafe(x, vals); DerivableSafe(y, vals);
  }

  // The number of rows on which the predicate cannot be evaluated
  function Errors(q: Query, rows: seq<Tuple>): nat
    requires q.Valid() && q.where.Some? && forall r | r in rows :: FitsRow(q, r)
  {
    if rows == [] then 0
    else (if Verdict(q.where.value, Values(q, rows[0])).IsError() then 1 else 0) + Errors(q, rows[1..])
  }

  /**
   Without an index the rows that SELECT returns and those that REMOVE keeps are all rows but the
   ones whose predicate has a division by zero: REMOVE deletes these although SELECT does not return them.
   */
  lemma {:induction false} SelectAndRemove(q: Query, rows: seq<Tuple>)
    requires q.Valid() && q.where.Some? && q.wanted == IsTrue && forall r | r in rows :: FitsRow(q, r)
    ensures Keeping(q).Valid()
    ensures |Answer(q, rows)| + |Answer(Keeping(q), rows)| + Errors(q, rows) == |rows|
    ensures forall r | r in rows :: (Accepts(q, r) || Accepts(Keeping(q), r)) <==>
      !Verdict(q.where.value, Values(q, r)).IsError()
    decreases rows
  {
    SameQuery(q);
    if rows != [] {
      SelectAndRemove(q, rows[1..]);
    }
  }

  // What REMOVE wants is no matter for what the rows are.
  lemma SameQuery(q: Query)
    requires q.Valid()
    ensures Keeping(q).Valid() && forall r | FitsRow(q, r) :: Values(Keeping(q), r) == Values(q, r)
  {
    assert forall n | n in q.names :: q.Numeric(n) == Keeping(q).Numeric(n);
    assert forall k | 0 <= k < |q.result| :: Keeping(q).Fetched(k) == q.Fetched(k);
    assert forall k | 0 <= k < |q.attrs| :: Keeping(q).Unique(k) == q.Unique(k);
    forall r | FitsRow(q, r)
      ensures Values(Keeping(q), r) == Values(q, r)
    {
      var v, w := Values(q, r), Values(Keeping(q), r);
      assert forall i | 0 <= i < VARIABLE_LIMIT :: v[i] == w[i];
    }
  }

  lemma {:induction false} AllAccepted(q: Query, rows: seq<Tuple>)
    requires q.Valid() && (forall r | r in rows :: FitsRow(q, r)) && (forall r | r in rows :: Accepts(q, r))
    ensures |Answer(q, rows)| == |rows|
    decreases rows
  {
    if rows != [] {
      AllAccepted(q, rows[1..]);
    }
  }

  // All rows before `from` and from `to` on are accepted.
  ghost predicate AcceptsOutside(q: Query, rows: seq<Tuple>, from: nat, to: nat) {
    && q.Valid() && (forall r | r in rows :: FitsRow(q, r)) && from <= to <= |rows|
    && forall i | 0 <= i < |rows| && (i < from || to <= i) :: Accepts(q, rows[i])
  }

  // Leaving out rows that are all accepted changes the answer.
  lemma PartOfAnswer(q: Query, rows: seq<Tuple>, from: nat, to: nat)
    requires AcceptsOutside(q, rows, from, to)
    ensures Answer(q, rows[from..to]) == Answer(q, rows) <==> from == 0 && to == |rows|
  {
    AnswerBetween(q, rows, from, to);
    AllAccepted(q, rows[..from]);
    AllAccepted(q, rows[to..]);
    if from == 0 && to == |rows| {
      assert rows[from..to] == rows;
    }
  }

  lemma KeptOutside(q: Query, rows: seq<Tuple>, k: nat, d: Derivation, i: nat)
    requires Indexed(q, rows, k, d) && NarrowsSafely(q, k, d) && i < |rows|
    requires !Reported(ReportFor(q, rows, k, d), i) || !Accepts(q, rows[i])
    ensures Keeping(q).Valid() && FitsRow(Keeping(q), rows[i]) && Accepts(Keeping(q), rows[i])
  {
    SameQuery(q);
    assert rows[i] in rows;
    if Accepts(q, rows[i]) {
      AcceptedInWindow(q, rows, k, d, i);
    }
    DerivableSafe(q.where.value, Values(q, rows[i]));
  }

  lemma AllKeptOutside(q: Query, rows: seq<Tuple>, k: nat, d: Derivation, from: nat, to: nat)
    requires Indexed(q, rows, k, d) && NarrowsSafely(q, k, d) && from <= to <= |rows|
    requires ReportFor(q, rows, k, d) == Report(Row(from), to)
    ensures AcceptsOutside(Keeping(q), rows, from, to)
  {
    SameQuery(q);
    forall i | 0 <= i < |rows| && (i < from || to <= i)
      ensures FitsRow(Keeping(q), rows[i]) && Accepts(Keeping(q), rows[i])
    {
      KeptOutside(q, rows, k, d, i);
    }
  }
}
