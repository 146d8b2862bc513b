/**
 Relations with one column, and queries for one value: an indexed column of longs, in which a search through the index
 goes wrong on a target whose ints have 16 bits, and a column of ints without an index.
 */
module RelationSamples {
  import opened Bytes
  import opened Options
  import opened Lvm
  import opened LvmDerive
  import opened InlineIndex
  import opened RelationSelect
  import opened RelationAnswers
  import opened StoredRelation
  import opened PhysicalValues

  const COLUMN := Attribute("v", LongDomain, 4, true, true, false)

  // SELECT v FROM relation WHERE v = value
  function Sample(value: int): Query {
    Query([COLUMN], [COLUMN], 1, Bits16, ["v"], Some(Cmp(Eq, Leaf(Variable(0)), Leaf(Long(value)))), IsTrue)
  }

  function SampleRow(v: int): (row: Tuple)
    ensures |row| == 4
  {
    var b := LongBytes(v);
    [b[3], b[2], b[1], b[0]]
  }

  function SampleRows(values: seq<int>): (rows: seq<Tuple>)
    ensures |rows| == |values|
  {
    seq(|values|, i requires 0 <= i < |values| => SampleRow(values[i]))
  }

  lemma SampleValid(value: int)
    ensures Sample(value).Valid() && KeepsAttributes(Sample(value)) && RowLength(Sample(value).attrs) == 4
    ensures Find(Sample(value).attrs, "v") == 0 && IndexOf(Sample(value).names, "v") == 0
  {
    var q := Sample(value);
    assert q.result[0].name == "v";
    assert q.Numeric("v");
    assert Offset(q.attrs, 1) == Offset(q.attrs, 0) + 4;
  }

  lemma SampleDerives(value: int)
    requires IsLong(value)
    ensures Covered(Sample(value))
    ensures DerivedRange(Sample(value).names, Derive(Sample(value).where.value).value, "v") ==
      Some(Derivation(value, value, true))
  {
    SampleValid(value);
  }

  lemma SampleAccepts(value: int, v: int)
    requires IsLong(v)
    ensures Sample(value).Valid() && FitsRow(Sample(value), SampleRow(v))
    ensures ValueIn(Sample(value), "v", SampleRow(v)) == v
    ensures Accepts(Sample(value), SampleRow(v)) <==> v == value
  {
    var q, row := Sample(value), SampleRow(v);
    SampleValid(value);
    LongRoundTrip(v);
    var field := Field(q, Named(q, "v"), row);
    assert field == row;
    var b := LongBytes(v);
    assert [field[3], field[2], field[1], field[0]] == b;
    NamesAreAttributes(q, "v");
    assert Values(q, row)[0] == v;
  }

  lemma SampleColumn(value: int, values: seq<int>)
    requires Increasing(values) && |values| <= MAX_ROWS && forall v | v in values :: IsLong(v)
    ensures Sample(value).Valid() && Rows(Sample(value), SampleRows(values))
    ensures Column(Sample(value), SampleRows(values), 0) == values
  {
    var q, rows := Sample(value), SampleRows(values);
    SampleValid(value);
    forall i | 0 <= i < |values|
      ensures FitsRow(q, rows[i]) && ValueIn(q, "v", rows[i]) == values[i]
    {
      assert values[i] in values;
      SampleAccepts(value, values[i]);
    }
    assert Column(q, rows, 0) == values;
  }

  // The column of the query of REMOVE is the same.
  lemma SampleSorted(value: int, values: seq<int>)
    requires Increasing(values) && |values| <= MAX_ROWS && forall v | v in values :: IsLong(v)
    ensures Keeping(Sample(value)).Valid() && Rows(Keeping(Sample(value)), SampleRows(values))
    ensures Column(Keeping(Sample(value)), SampleRows(values), 0) == values
  {
    var q, rows := Keeping(Sample(value)), SampleRows(values);
    SampleColumn(value, values);
    SameQuery(Sample(value));
    assert forall i | 0 <= i < |rows| :: rows[i] in rows && FitsRow(q, rows[i]);
    assert Column(q, rows, 0) == Column(Sample(value), rows, 0);
  }

  lemma SamplePlanned(value: int)
    requires IsLong(value)
    ensures Sample(value).Valid()
    ensures Planned(Sample(value)) == Some(Plan(0, ToInt(Bits16, value), ToInt(Bits16, value)))
  {
    var q := Sample(value);
    SampleDerives(value);
    assert Chosen(q, Derive(q.where.value).value, 1) == Some((0, Derivation(value, value, true)));
  }

  // What one row adds to the answer
  lemma SampleAccepted(value: int, v: int)
    requires IsLong(v)
    ensures Sample(value).Valid() && FitsRow(Sample(value), SampleRow(v))
    ensures Accepted(Sample(value), SampleRow(v)) == if v == value then [SampleRow(v)] else []
    ensures Keeping(Sample(value)).Valid()
    ensures Accepted(Keeping(Sample(value)), SampleRow(v)) == if v == value then [] else [SampleRow(v)]
  {
    SampleValid(value);
    SampleAccepts(value, v);
    assert LogicSafe(Sample(value).where.value, Values(Sample(value), SampleRow(v)));
    RowSplits(Sample(value), SampleRow(v));
  }

  // The rows of a scan, one by one
  lemma AnswerTwo(q: Query, a: Tuple, b: Tuple)
    requires q.Valid() && FitsRow(q, a) && FitsRow(q, b)
    ensures Answer(q, [a]) == Accepted(q, a)
    ensures Answer(q, [a, b]) == Accepted(q, a) + Accepted(q, b)
  {
    assert [a][1..] == [] && [b][1..] == [] && [a, b][1..] == [b];
  }

  // An index that reports one row
  lemma OneReported(q: Query, rows: seq<Tuple>, i: nat, out: seq<Tuple>, r: Result)
    requires q.Valid() && (forall row | row in rows :: FitsRow(q, row)) && i < |rows|
    requires IndexAnswer(q, rows, Report(Row(i), i + 1), out, r)
    ensures r == Finished && out == Answer(q, [rows[i]])
  {
    assert rows[i..i + 1] == [rows[i]];
  }

  lemma OneFound(keys: seq<int>, i: nat)
    requires Increasing(keys) && i < |keys|
    ensures ReportOf(keys, keys[i], keys[i]) == Report(Row(i), i + 1)
  {
    FoundAt(keys, i);
  }

  lemma AnswerPair(value: int, v: int)
    requires IsLong(value) && IsLong(v) && v != value
    ensures Sample(value).Valid() && FitsRow(Sample(value), SampleRow(v)) && FitsRow(Sample(value), SampleRow(value))
    ensures Answer(Sample(value), [SampleRow(v)]) == []
    ensures Answer(Sample(value), [SampleRow(v), SampleRow(value)]) == [SampleRow(value)]
  {
    SampleAccepted(value, v);
    SampleAccepted(value, value);
    AnswerTwo(Sample(value), SampleRow(v), SampleRow(value));
  }

  lemma KeptTriple(v: int, value: int, w: int)
    requires IsLong(v) && IsLong(value) && IsLong(w) && v != value && w != value
    ensures Keeping(Sample(value)).Valid()
    ensures forall u | u in [v, value, w] :: FitsRow(Keeping(Sample(value)), SampleRow(u))
    ensures Answer(Keeping(Sample(value)), [SampleRow(value)]) == []
    ensures Answer(Keeping(Sample(value)), [SampleRow(v), SampleRow(value), SampleRow(w)]) ==
      [SampleRow(v), SampleRow(w)]
  {
    var q, a, b, c := Keeping(Sample(value)), SampleRow(v), SampleRow(value), SampleRow(w);
    SampleAccepted(value, v);
    SampleAccepted(value, value);
    SampleAccepted(value, w);
    AnswerTwo(q, b, c);
    assert [a, b, c] == [a] + [b, c];
    AnswerTwo(q, a, a);
    AnswerConcat(q, [a], [b, c]);
  }

  // The query for `value` through the index ends with no row, the scan with one.
  ghost predicate LosesRow(v: int, value: int) {
    var q, rows := Sample(value), SampleRows([v, value]);
    && q.Valid() && Rows(q, rows) && Planned(q) == Some(Plan(0, v, v)) && Answer(q, rows) == [SampleRow(value)]
    && forall out, r | IndexAnswer(q, rows, ReportOf(Column(q, rows, 0), v, v), out, r) :: r == Finished && out == []
  }

  lemma NarrowedLosesRow(v: int, value: int)
    requires IsLong(value) && v < value && v == ToInt(Bits16, value)
    ensures LosesRow(v, value)
  {
    var q, values := Sample(value), [v, value];
    var rows := SampleRows(values);
    IncreasingPair(v, value);
    SampleColumn(value, values);
    SampleSorted(value, values);
    SamplePlanned(value);
    OneFound(values, 0);
    AnswerPair(value, v);
    assert rows == [SampleRow(v), SampleRow(value)];
    forall out, r | IndexAnswer(q, rows, ReportOf(Column(q, rows, 0), v, v), out, r)
      ensures r == Finished && out == []
    {
      OneReported(q, rows, 0, out, r);
    }
  }

  /** A search for 100000 is one for -31072. */
  lemma LosesRowWith100000()
    ensures LosesRow(-31072, 100000)
  {
    NarrowedLosesRow(-31072, 100000);
  }

  // REMOVE of the row with `value` looks at that row only and keeps none of the others.
  ghost predicate LosesKept(v: int, value: int, w: int) {
    var q, rows := Keeping(Sample(value)), SampleRows([v, value, w]);
    && q.Valid() && Rows(q, rows) && Planned(Sample(value)) == Some(Plan(0, value, value))
    && Answer(q, rows) == [SampleRow(v), SampleRow(w)]
    && forall out, r | IndexAnswer(q, rows, ReportOf(Column(q, rows, 0), value, value), out, r) ::
         r == Finished && out == []
  }

  lemma RemoveLosesRows(v: int, value: int, w: int)
    requires IsLong(v) && IsLong(w) && v < value < w && value == ToInt(Bits16, value)
    ensures LosesKept(v, value, w)
  {
    var q, values := Keeping(Sample(value)), [v, value, w];
    var rows := SampleRows(values);
    IncreasingTriple(v, value, w);
    SampleColumn(value, values);
    SampleSorted(value, values);
    SamplePlanned(value);
    OneFound(values, 1);
    KeptTriple(v, value, w);
    assert rows == [SampleRow(v), SampleRow(value), SampleRow(w)];
    forall out, r | IndexAnswer(q, rows, ReportOf(Column(q, rows, 0), value, value), out, r)
      ensures r == Finished && out == []
    {
      OneReported(q, rows, 1, out, r);
    }
  }

  /** Of rows with 1, 2 and 3 the removal of the one with 2 leaves none. */
  lemma RemoveOfTwoLosesRows()
    ensures LosesKept(1, 2, 3)
  {
    RemoveLosesRows(1, 2, 3);
  }

  // ---------------------------------------------------------------- a column of ints

  const SHORTS := Attribute("v", IntDomain, 2, false, false, false)

  // SELECT v FROM relation WHERE v = value
  function ShortSample(ints: Ints, value: int): Query {
    Query([SHORTS], [SHORTS], 1, ints, ["v"], Some(Cmp(Eq, Leaf(Variable(0)), Leaf(Long(value)))), IsTrue)
  }

  lemma ShortValid(ints: Ints, value: int)
    ensures ShortSample(ints, value).Valid() && RowLength(ShortSample(ints, value).attrs) == 2
    ensures Find(ShortSample(ints, value).attrs, "v") == 0 && Planned(ShortSample(ints, value)) == None
  {
    var q := ShortSample(ints, value);
    assert q.result[0].name == "v";
    assert q.Numeric("v");
    assert Offset(q.attrs, 1) == Offset(q.attrs, 0) + 2;
  }

  lemma ShortTests(ints: Ints, value: int, v: int)
    requires KeyMin(IntDomain, ints) <= v <= KeyMax(IntDomain, ints)
    ensures ShortSample(ints, value).Valid() && FitsRow(ShortSample(ints, value), Encoded(IntDomain, v))
    ensures Accepts(ShortSample(ints, value), Encoded(IntDomain, v)) <==> v == value
  {
    var q, row := ShortSample(ints, value), Encoded(IntDomain, v);
    ShortValid(ints, value);
    StoredReadIff(IntDomain, ints, v);
    assert Field(q, Named(q, "v"), row) == row;
    NamesAreAttributes(q, "v");
    assert Values(q, row)[0] == v;
  }

  lemma ShortAccepts(ints: Ints, value: int, v: int)
    requires KeyMin(IntDomain, ints) <= v <= KeyMax(IntDomain, ints)
    ensures ShortSample(ints, value).Valid() && FitsRow(ShortSample(ints, value), Encoded(IntDomain, v))
    ensures Accepted(ShortSample(ints, value), Encoded(IntDomain, v)) ==
      if v == value then [Encoded(IntDomain, v)] else []
  {
    var q, row := ShortSample(ints, value), Encoded(IntDomain, v);
    ShortValid(ints, value);
    ShortTests(ints, value, v);
    assert q.Fetched(0);
    assert FieldOf(q, 0, row) == row;
    assert Gather(q, 0, row) + FieldOf(q, 0, row) == row;
  }

  /** Without an index a query for one of two stored ints answers its row. */
  lemma ShortFound(ints: Ints, v: int, w: int)
    requires KeyMin(IntDomain, ints) <= v <= KeyMax(IntDomain, ints) && v != w
    requires KeyMin(IntDomain, ints) <= w <= KeyMax(IntDomain, ints)
    ensures ShortSample(ints, v).Valid() && Planned(ShortSample(ints, v)) == None
    ensures forall row | row in [Encoded(IntDomain, v), Encoded(IntDomain, w)] :: FitsRow(ShortSample(ints, v), row)
    ensures Answer(ShortSample(ints, v), [Encoded(IntDomain, v), Encoded(IntDomain, w)]) == [Encoded(IntDomain, v)]
  {
    ShortValid(ints, v);
    ShortAccepts(ints, v, v);
    ShortAccepts(ints, v, w);
    AnswerTwo(ShortSample(ints, v), Encoded(IntDomain, v), Encoded(IntDomain, w));
  }

  /** WHERE v = 258 finds the bytes 1 and 2, and not 2 and 1. */
  lemma Finds258(ints: Ints)
    ensures var q := ShortSample(ints, 258);
      && q.Valid() && (forall row | row in [[1, 2], [2, 1]] :: FitsRow(q, row))
      && Answer(q, [[1, 2], [2, 1]]) == [[1, 2]]
  {
    assert Encoded(IntDomain, 258) == [1, 2] && Encoded(IntDomain, 513) == [2, 1];
    ShortFound(ints, 258, 513);
  }
}
