/**
 SELECT and REMOVE that store their result (apps/antelope/relation.c on apps/antelope/storage-cfs.c):
 what is read back from the file of the result.
 */
module StoredRelation {
  import opened Bytes
  import opened Options
  import opened Lvm
  import opened LvmDerive
  import opened InlineIndex
  import opened RelationSelect
  import opened RelationAnswers
  import C = StorageCfs

  // All attributes of the relation are stored, in their order, as REMOVE asks for.
  ghost predicate KeepsAttributes(q: Query) {
    && q.Valid() && q.columns == |q.result| == |q.attrs|
    && forall k | 0 <= k < |q.attrs| :: q.result[k].name == q.attrs[k].name
  }

  lemma {:induction false} GathersAll(q: Query, row: Tuple, k: nat)
    requires KeepsAttributes(q) && FitsRow(q, row) && k <= |q.attrs|
    ensures Offset(q.result, k) == Offset(q.attrs, k) <= |row|
    ensures Gather(q, k, row) == row[..Offset(q.attrs, k)]
    decreases k
  {
    OffsetMonotonic(q.attrs, k, |q.attrs|);
    if k > 0 {
      GathersAll(q, row, k - 1);
      KeptField(q, row, k - 1);
      Abut(row, Offset(q.attrs, k - 1), Offset(q.attrs, k));
    }
  }

  lemma Abut(row: Tuple, from: nat, to: nat)
    requires from <= to <= |row|
    ensures row[..from] + row[from..to] == row[..to]
  {
  }

  lemma KeptField(q: Query, row: Tuple, k: nat)
    requires KeepsAttributes(q) && FitsRow(q, row) && k < |q.attrs|
    ensures Offset(q.attrs, k + 1) == Offset(q.attrs, k) + q.result[k].size <= |row|
    ensures FieldOf(q, k, row) == row[Offset(q.attrs, k)..Offset(q.attrs, k + 1)]
  {
    OffsetMonotonic(q.attrs, k + 1, |q.attrs|);
    assert q.result[k].name == q.attrs[k].name && q.Unique(k) && q.Fetched(k);
  }

  /** The row that REMOVE stores is the row of the relation, byte for byte. */
  lemma ProjectionIsRow(q: Query, row: Tuple)
    requires KeepsAttributes(q) && FitsRow(q, row)
    ensures Projection(q, row) == row
  {
    GathersAll(q, row, |q.attrs|);
  }

  // The rows are those of `a` and those of `b`, each in their order.
  predicate Shuffle(rows: seq<Tuple>, a: seq<Tuple>, b: seq<Tuple>) {
    if rows == [] then a == [] && b == []
    else
      || (a != [] && a[0] == rows[0] && Shuffle(rows[1..], a[1..], b))
      || (b != [] && b[0] == rows[0] && Shuffle(rows[1..], a, b[1..]))
  }

  lemma {:induction false} ShuffleLength(rows: seq<Tuple>, a: seq<Tuple>, b: seq<Tuple>)
    requires Shuffle(rows, a, b)
    ensures |rows| == |a| + |b|
    decreases rows
  {
    if rows != [] {
      if a != [] && a[0] == rows[0] && Shuffle(rows[1..], a[1..], b) {
        ShuffleLength(rows[1..], a[1..], b);
      } else {
        ShuffleLength(rows[1..], a, b[1..]);
      }
    }
  }

  // A row goes to one side, as it is.
  lemma RowSplits(q: Query, row: Tuple)
    requires KeepsAttributes(q) && q.where.Some? && q.wanted == IsTrue && FitsRow(q, row) && Keeping(q).Valid()
    requires !Verdict(q.where.value, Values(q, row)).IsError()
    ensures if Accepts(q, row) then Accepted(q, row) == [row] && Accepted(Keeping(q), row) == []
      else Accepted(q, row) == [] && Accepted(Keeping(q), row) == [row]
  {
    SameQuery(q);
    ProjectionIsRow(q, row);
    ProjectionIsRow(Keeping(q), row);
  }

  lemma {:induction false} ErrorFreeShuffle(q: Query, rows: seq<Tuple>)
    requires KeepsAttributes(q) && q.where.Some? && q.wanted == IsTrue && (forall r | r in rows :: FitsRow(q, r))
    requires Keeping(q).Valid() && Errors(q, rows) == 0
    ensures Shuffle(rows, Answer(q, rows), Answer(Keeping(q), rows))
    decreases rows
  {
    if rows != [] {
      RowSplits(q, rows[0]);
      ErrorFreeShuffle(q, rows[1..]);
      var a, b := Answer(q, rows[1..]), Answer(Keeping(q), rows[1..]);
      assert ([rows[0]] + a)[1..] == a && ([rows[0]] + b)[1..] == b;
      assert [] + a == a && [] + b == b;
    }
  }

  /**
   The rows that a SELECT of all attributes returns and those that REMOVE keeps are together the rows
   of the relation exactly if the predicate can be evaluated on every row.
   */
  lemma SelectAndRemoveSplitIff(q: Query, rows: seq<Tuple>)
    requires KeepsAttributes(q) && q.where.Some? && q.wanted == IsTrue && (forall r | r in rows :: FitsRow(q, r))
    ensures Keeping(q).Valid()
    ensures Shuffle(rows, Answer(q, rows), Answer(Keeping(q), rows)) <==>
      forall r | r in rows :: !Verdict(q.where.value, Values(q, r)).IsError()
  {
    SelectAndRemove(q, rows);
    NoErrorsIff(q, rows);
    if Shuffle(rows, Answer(q, rows), Answer(Keeping(q), rows)) {
      ShuffleLength(rows, Answer(q, rows), Answer(Keeping(q), rows));
    } else if Errors(q, rows) == 0 {
      ErrorFreeShuffle(q, rows);
    }
  }

  lemma {:induction false} NoErrorsIff(q: Query, rows: seq<Tuple>)
    requires q.Valid() && q.where.Some? && (forall r | r in rows :: FitsRow(q, r))
    ensures Errors(q, rows) == 0 <==> forall r | r in rows :: !Verdict(q.where.value, Values(q, r)).IsError()
    decreases rows
  {
    if rows != [] {
      NoErrorsIff(q, rows[1..]);
    }
  }

  // ---------------------------------------------------------------- REMOVE through an index

  // The rows of the relation after a REMOVE whose calls ended with `r`: only a finished one replaces them.
  function After(rows: seq<Tuple>, out: seq<Tuple>, r: Result): seq<Tuple> {
    if r == Finished then out else rows
  }

  lemma {:induction false} KeepsAll(q: Query, rows: seq<Tuple>)
    requires KeepsAttributes(q) && (forall r | r in rows :: FitsRow(q, r)) && (forall r | r in rows :: Accepts(q, r))
    ensures Answer(q, rows) == rows
    decreases rows
  {
    if rows != [] {
      ProjectionIsRow(q, rows[0]);
      KeepsAll(q, rows[1..]);
    }
  }

  // With no row to remove all are kept.
  lemma NothingRemoved(q: Query, rows: seq<Tuple>, k: nat, d: Derivation, out: seq<Tuple>)
    requires KeepsAttributes(q) && Indexed(q, rows, k, d) && NarrowsSafely(q, k, d)
    requires IndexAnswer(q, rows, ReportFor(q, rows, k, d), out, IndexError)
    ensures Keeping(q).Valid() && Answer(Keeping(q), rows) == rows
  {
    SameQuery(q);
    forall i | 0 <= i < |rows|
      ensures FitsRow(Keeping(q), rows[i]) && Accepts(Keeping(q), rows[i])
    {
      assert rows[i] in rows;
      if Accepts(q, rows[i]) {
        AcceptedInWindow(q, rows, k, d, i);
      }
      KeptOutside(q, rows, k, d, i);
    }
    assert KeepsAttributes(Keeping(q));
    KeepsAll(Keeping(q), rows);
  }

  // The searches stop at the first and at the last row of the column.
  predicate SpansColumn(keys: seq<int>, low: int, high: int) {
    keys != [] && Stop(keys, low) == 0 && Stop(keys, high) == |keys| - 1
  }

  /**
   REMOVE through an index.  If a bound is below the first value of the column, the search leaves it.  If
   both bounds are one value that the column does not have, the index reports an error and the relation keeps
   all its rows, as it should.  Else REMOVE is right if and only if the searches stop at the first and the last row.
   */
  lemma RemoveThroughIndexIff(q: Query, rows: seq<Tuple>, k: nat, d: Derivation, out: seq<Tuple>, r: Result)
    requires KeepsAttributes(q) && Indexed(q, rows, k, d) && NarrowsSafely(q, k, d)
    requires Keeping(q).Valid() && IndexAnswer(Keeping(q), rows, ReportFor(q, rows, k, d), out, r)
    ensures var keys, low, high := Column(q, rows, k), ToInt(q.ints, d.min), ToInt(q.ints, d.max);
      && (r == Undefined <==> RunsOutside(keys, low) || RunsOutside(keys, high))
      && (r != Undefined ==>
            (After(rows, out, r) == Answer(Keeping(q), rows) <==>
             (low == high && low !in keys) || SpansColumn(keys, low, high)))
  {
    var keys, low, high := Column(q, rows, k), ToInt(q.ints, d.min), ToInt(q.ints, d.max);
    var report := ReportFor(q, rows, k, d);
    match report.first {
      case Outside =>
      case Missing => NothingRemoved(q, rows, k, d, []);
      case Row(from) =>
        AllKeptOutside(q, rows, k, d, from, report.upto);
        PartOfAnswer(Keeping(q), rows, from, report.upto);
    }
  }

  // ---------------------------------------------------------------- through the file

  // All rows of a tuple file, one call after the other
  method ReadAll(file: C.TupleFile, row: array<byte>) returns (rows: seq<Tuple>)
    requires 0 < file.rowLength <= row.Length
    modifies row
    ensures rows == C.Rows(file.contents, file.rowLength)
  {
    rows := [];
    ghost var all := C.Rows(file.contents, file.rowLength);
    var r := C.Ok;
    while r == C.Ok
      invariant |rows| <= |all| && rows == all[..|rows|]
      invariant r != C.Ok ==> rows == all
      decreases r == C.Ok, |all| - |rows|
    {
      r := file.GetRow(|rows|, file.rowLength, row);
      if r == C.Ok {
        rows := rows + [row[..file.rowLength]];
      }
    }
  }

  // The first `n` bytes of every row
  function Cut(rows: seq<Tuple>, n: nat): seq<Tuple> {
    if rows == [] then []
    else
      var last := rows[|rows| - 1];
      Cut(rows[..|rows| - 1], n) + [if n <= |last| then last[..n] else []]
  }

  /**
   The rows of a file are those it had, and then those of the answer.  A stored row also has room for
   the attributes that only the predicate needs; they come last, and what is there is left open.
   */
  ghost predicate Appended(contents: seq<byte>, length: nat, was: seq<Tuple>, columns: nat, answer: seq<Tuple>)
    requires length > 0
  {
    && C.Whole(contents, length) && was <= C.Rows(contents, length)
    && Cut(C.Rows(contents, length)[|was|..], columns) == answer
  }

  lemma AppendedRow(contents: seq<byte>, length: nat, was: seq<Tuple>, columns: nat, answer: seq<Tuple>, row: Tuple)
    requires |row| == length > 0 && columns <= length && Appended(contents, length, was, columns, answer)
    ensures Appended(contents + C.Stored(row), length, was, columns, answer + [row[..columns]])
  {
    C.OneRow(row, length);
    C.RowsAppend(contents, C.Stored(row), length);
    var before, after := C.Rows(contents, length)[|was|..], C.Rows(contents + C.Stored(row), length)[|was|..];
    assert after == before + [row] && after[..|after| - 1] == before;
  }

  // The columns of the result in the file that it is stored in
  ghost predicate FitsFile(s: Selection, file: C.TupleFile) {
    && s.query.columns <= |s.query.result| && 0 < file.rowLength == RowLength(s.query.result)
    && Offset(s.query.result, s.query.columns) <= file.rowLength
  }

  // The row that is stored is the next one of the answer.
  method StoreRow(file: C.TupleFile, row: array<byte>, writes: seq<int>,
                  ghost was: seq<Tuple>, ghost columns: nat, ghost answer: seq<Tuple>)
    returns (ok: bool)
    requires columns <= file.rowLength <= row.Length && 0 < file.rowLength && C.Outcomes(writes, file.rowLength)
    requires Appended(file.contents, file.rowLength, was, columns, answer)
    modifies file, row
    ensures row[..] == old(row[..])
    ensures ok ==> Appended(file.contents, file.rowLength, was, columns, answer + [row[..columns]])
    ensures C.Succeeds(writes, file.rowLength) ==> ok
  {
    ghost var stored := row[..file.rowLength];
    assert stored[..columns] == row[..columns];
    C.SucceedsIff(writes, file.rowLength);
    AppendedRow(file.contents, file.rowLength, was, columns, answer, stored);
    assert C.Stored(stored)[..file.rowLength] == C.Stored(stored);
    var result := file.PutRow(row, writes);
    ok := result == C.Ok;
  }

  lemma NextAnswer(q: Query, rows: seq<Tuple>, id: nat)
    requires q.Valid() && id < |rows| && forall r | r in rows :: FitsRow(q, r)
    ensures Answer(q, rows[..id + 1]) ==
      if Accepts(q, rows[id]) then Answer(q, rows[..id]) + [Projection(q, rows[id])] else Answer(q, rows[..id])
  {
    AnswerStep(q, rows, 0, id);
    assert rows[..id] == rows[0..id] && rows[..id + 1] == rows[0..id + 1];
  }

  // One call, and what it adds to the answer
  method Take(s: Selection) returns (r: Result)
    requires s.Valid() && s.scan == null && s.tupleId <= |s.rows|
    modifies s, s.machine, s.resultRow
    ensures s.Valid() && s.scan == null && s.tupleId == old(s.tupleId) + 1
    ensures r == Finished <==> old(s.tupleId) == |s.rows|
    ensures r == GotRow ==> Offset(s.query.result, s.query.columns) <= s.resultRow.Length
    ensures r != Finished ==>
      Answer(s.query, s.rows[..s.tupleId]) == Answer(s.query, s.rows[..old(s.tupleId)]) +
        if r == GotRow then [s.resultRow[..Offset(s.query.result, s.query.columns)]] else []
  {
    if s.tupleId < |s.rows| {
      NextAnswer(s.query, s.rows, s.tupleId);
    }
    r := s.Process();
  }

  // One call, and the storing of the row if there is one
  method StoreNext(s: Selection, file: C.TupleFile, writes: seq<int>, ghost was: seq<Tuple>)
    returns (r: Result, ok: bool)
    requires s.Valid() && s.scan == null && s.tupleId <= |s.rows| && FitsFile(s, file)
    requires C.Outcomes(writes, file.rowLength)
    requires Appended(file.contents, file.rowLength, was, Offset(s.query.result, s.query.columns),
      Answer(s.query, s.rows[..s.tupleId]))
    modifies s, s.machine, s.resultRow, file
    ensures s.Valid() && s.scan == null && s.tupleId == old(s.tupleId) + 1
    ensures r == Finished <==> old(s.tupleId) == |s.rows|
    ensures ok && r != Finished ==>
      Appended(file.contents, file.rowLength, was, Offset(s.query.result, s.query.columns),
        Answer(s.query, s.rows[..s.tupleId]))
    ensures r == Finished ==> ok && file.contents == old(file.contents)
    ensures C.Succeeds(writes, file.rowLength) ==> ok
  {
    ghost var answer := Answer(s.query, s.rows[..s.tupleId]);
    r := Take(s);
    ok := true;
    if r == GotRow {
      ok := StoreRow(file, s.resultRow, writes, was, Offset(s.query.result, s.query.columns), answer);
    }
  }

  /** SELECT into a relation, or REMOVE, without an index: what is read back afterwards is the answer. */
  method SelectInto(s: Selection, file: C.TupleFile, writes: seq<seq<int>>) returns (ok: bool)
    requires s.Valid() && s.scan == null && s.tupleId == 0 && FitsFile(s, file)
    requires C.Whole(file.contents, file.rowLength)
    requires |writes| == |s.rows| + 1 && forall w | w in writes :: C.Outcomes(w, file.rowLength)
    modifies s, s.machine, s.resultRow, file
    ensures ok ==>
      Appended(file.contents, file.rowLength, old(C.Rows(file.contents, file.rowLength)),
        Offset(s.query.result, s.query.columns), Answer(s.query, s.rows))
    ensures (forall w | w in writes :: C.Succeeds(w, file.rowLength)) ==> ok
  {
    ghost var was := C.Rows(file.contents, file.rowLength);
    ghost var columns := Offset(s.query.result, s.query.columns);
    var r := Result.Ok;
    ok := true;
    assert s.rows[..0] == [];
    while ok && r != Finished
      invariant s.Valid() && s.scan == null && s.tupleId <= |s.rows| + 1
      invariant r != Finished ==> s.tupleId <= |s.rows|
      invariant ok && r != Finished ==>
        Appended(file.contents, file.rowLength, was, columns, Answer(s.query, s.rows[..s.tupleId]))
      invariant ok && r == Finished ==> Appended(file.contents, file.rowLength, was, columns, Answer(s.query, s.rows))
      invariant (forall w | w in writes :: C.Succeeds(w, file.rowLength)) ==> ok
      decreases r != Finished, |s.rows| - s.tupleId
    {
      assert s.tupleId == |s.rows| ==> s.rows[..s.tupleId] == s.rows;
      assert writes[s.tupleId] in writes;
      r, ok := StoreNext(s, file, writes[s.tupleId], was);
    }
  }

  // Rows of this length are not shortened.
  lemma {:induction false} CutAll(rows: seq<Tuple>, n: nat)
    requires forall r | r in rows :: |r| == n
    ensures Cut(rows, n) == rows
    decreases rows
  {
    if rows != [] {
      var last := rows[|rows| - 1];
      CutAll(rows[..|rows| - 1], n);
      assert last in rows && last[..n] == last;
    }
  }

  lemma {:induction false} RowsHaveLength(contents: seq<byte>, n: nat)
    requires n > 0
    ensures forall r | r in C.Rows(contents, n) :: |r| == n
    decreases contents
  {
    if |contents| >= n {
      RowsHaveLength(contents[n..], n);
    }
  }

  /**
   REMOVE without an index: the file of the result, which takes the place of the relation, and a SELECT
   on the same condition together have the rows of the relation, byte for byte and in order, exactly
   if no row makes the condition divide by zero.
   */
  method RemoveInto(s: Selection, ghost q: Query, file: C.TupleFile, writes: seq<seq<int>>) returns (ok: bool)
    requires s.Valid() && s.scan == null && s.tupleId == 0 && FitsFile(s, file) && file.contents == []
    requires KeepsAttributes(q) && q.where.Some? && q.wanted == IsTrue && s.query == Keeping(q)
    requires forall r | r in s.rows :: FitsRow(q, r)
    requires |writes| == |s.rows| + 1 && forall w | w in writes :: C.Outcomes(w, file.rowLength)
    modifies s, s.machine, s.resultRow, file
    ensures ok ==> C.Rows(file.contents, file.rowLength) == Answer(s.query, s.rows)
    ensures ok ==>
      (Shuffle(s.rows, Answer(q, s.rows), C.Rows(file.contents, file.rowLength)) <==>
       forall r | r in s.rows :: !Verdict(q.where.value, Values(q, r)).IsError())
    ensures (forall w | w in writes :: C.Succeeds(w, file.rowLength)) ==> ok
  {
    ok := SelectInto(s, file, writes);
    if ok {
      ghost var rows := C.Rows(file.contents, file.rowLength);
      assert rows[0..] == rows;
      RowsHaveLength(file.contents, file.rowLength);
      CutAll(rows, file.rowLength);
      SelectAndRemoveSplitIff(q, s.rows);
    }
  }
}
