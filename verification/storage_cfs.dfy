/**
 The tuple files of Antelope (apps/antelope/storage-cfs.c): rows of a fixed length in a file that
 is only appended to, the last byte of each row combined with 0xf6 by exclusive or.  A write of
 the file system may store fewer bytes than asked for, or fail.
 */
module StorageCfs {
  import opened Bytes

  type Tuple = seq<byte>

  // The exclusive or with 0xf6: of bits 0 and 3 the value stays, the other bits change.
  function Flip(b: byte): byte { 246 - b + 2 * (b % 2) + 16 * (b / 8 % 2) }

  lemma FlipIsXor(v: bv8)
    ensures Flip(v as int) == (v ^ 0xf6) as int
  {
    BitZero(v);
    BitThree(v);
    assert v ^ 0xf6 == 0xf6 - v + 2 * (v & 1) + 2 * (v & 8);
  }

  lemma BitZero(v: bv8)
    ensures v as int % 2 == (v & 1) as int
  {
  }

  lemma BitThree(v: bv8)
    ensures v as int / 8 % 2 * 8 == (v & 8) as int
  {
    assert v as int / 8 == (v >> 3) as int;
    BitZero(v >> 3);
  }

  lemma FlipTwice(b: byte)
    ensures Flip(Flip(b)) == b
  {
    var c, h, r := Parts(b);
    FlipParts(b, c, h, r);
    FlipParts(Flip(b), 15 - c, h, LowFlipped(r));
  }

  lemma FlipZero(b: byte)
    ensures Flip(b) == 0 <==> b == 0xf6
  {
    var c, h, r := Parts(b);
    FlipParts(b, c, h, r);
  }

  lemma Parts(b: byte) returns (c: nat, h: nat, r: nat)
    ensures c < 16 && h < 2 && r < 8 && b == 16 * c + 8 * h + r
  {
    c, h, r := b / 16, b % 16 / 8, b % 8;
  }

  function LowFlipped(r: nat): (f: nat)
    requires r < 8
    ensures f < 8 && f % 2 == r % 2 && (f == 0 <==> r == 6)
    ensures r == if f % 2 == 0 then 6 - f else 8 - f
  {
    if r % 2 == 0 then 6 - r else 8 - r
  }

  // The upper and the lower bits are flipped one by one.
  lemma FlipParts(b: byte, c: nat, h: nat, r: nat)
    requires c < 16 && h < 2 && r < 8 && b == 16 * c + 8 * h + r
    ensures Flip(b) == 16 * (15 - c) + 8 * h + LowFlipped(r)
  {
    assert b / 8 == 2 * c + h;
  }

  // A row as it is stored, and the row from its stored form
  function Stored(row: Tuple): (bytes: seq<byte>)
    requires row != []
    ensures |bytes| == |row|
  {
    row[|row| - 1 := Flip(row[|row| - 1])]
  }

  lemma StoredTwice(row: Tuple)
    requires row != []
    ensures Stored(Stored(row)) == row
  {
    FlipTwice(row[|row| - 1]);
  }

  /** A stored row never ends in a zero byte, as Coffee needs it, unless the row ends in 0xf6. */
  lemma EndsInZeroIff(row: Tuple)
    requires row != []
    ensures Stored(row)[|row| - 1] == 0 <==> row[|row| - 1] == 0xf6
  {
    FlipZero(row[|row| - 1]);
  }

  // ---------------------------------------------------------------- the rows of a file

  function Rows(contents: seq<byte>, n: nat): seq<Tuple>
    requires n > 0
  {
    if |contents| < n then [] else [Stored(contents[..n])] + Rows(contents[n..], n)
  }

  // The file ends with a complete row.
  predicate Whole(contents: seq<byte>, n: nat)
    requires n > 0
  {
    contents == [] || (|contents| >= n && Whole(contents[n..], n))
  }

  lemma {:induction false} RowAmount(contents: seq<byte>, n: nat)
    requires n > 0
    ensures |Rows(contents, n)| == |contents| / n
    decreases contents
  {
    if |contents| >= n {
      RowAmount(contents[n..], n);
      Quotient(|contents| - n, n);
    }
  }

  lemma Quotient(m: nat, n: nat)
    requires n > 0
    ensures (m + n) / n == m / n + 1
  {
    var k := (m + n) / n - m / n - 1;
    assert k * n == m % n - (m + n) % n;
    assert k >= 1 ==> k * n >= n;
    assert k <= -1 ==> k * n + n <= 0;
  }

  // The bytes of a row are found at its number times the length of a row.
  lemma {:induction false} RowAt(contents: seq<byte>, n: nat, id: nat)
    requires n > 0 && id < |Rows(contents, n)|
    ensures 0 <= id * n && id * n + n <= |contents| && Rows(contents, n)[id] == Stored(contents[id * n..id * n + n])
    decreases id
  {
    if id > 0 {
      var rest := contents[n..];
      RowAt(rest, n, id - 1);
      var from := (id - 1) * n;
      assert id * n == from + n;
      SliceBehind(contents, n, from, from + n);
    }
  }

  lemma SliceBehind(contents: seq<byte>, n: nat, from: nat, to: nat)
    requires from <= to && n + to <= |contents|
    ensures contents[n..][from..to] == contents[from + n..to + n]
  {
  }

  /** Bytes appended to a file that ends with a complete row are rows of their own. */
  lemma {:induction false} RowsAppend(contents: seq<byte>, more: seq<byte>, n: nat)
    requires n > 0 && Whole(contents, n)
    ensures Rows(contents + more, n) == Rows(contents, n) + Rows(more, n)
    ensures Whole(contents + more, n) <==> Whole(more, n)
    decreases contents
  {
    if contents == [] {
      assert contents + more == more;
    } else {
      assert (contents + more)[n..] == contents[n..] + more;
      assert (contents + more)[..n] == contents[..n];
      RowsAppend(contents[n..], more, n);
    }
  }

  lemma OneRow(row: Tuple, n: nat)
    requires |row| == n > 0
    ensures Rows(Stored(row), n) == [row] && Whole(Stored(row), n)
  {
    StoredTwice(row);
    assert Stored(row)[..n] == Stored(row);
    assert Stored(row)[n..] == [];
  }

  /**
   A write that stops in a row adds no row and changes none; but then the file no longer ends with a
   complete row, and the next row that is stored comes back shifted behind the bytes of the torn one.
   */
  lemma TornWrite(contents: seq<byte>, torn: seq<byte>, row: Tuple, n: nat)
    requires 0 < |torn| < n && |row| == n && Whole(contents, n)
    ensures Rows(contents + torn, n) == Rows(contents, n) && !Whole(contents + torn, n)
    ensures Rows(contents + torn + Stored(row), n) ==
      Rows(contents, n) + [Stored(torn + Stored(row)[..n - |torn|])]
  {
    RowsAppend(contents, torn, n);
    var next := torn + Stored(row);
    RowsAppend(contents, next, n);
    assert contents + torn + Stored(row) == contents + next;
    assert next[..n] == torn + Stored(row)[..n - |torn|];
    assert |next[n..]| < n;
  }

  // ---------------------------------------------------------------- writes of the file system

  // What the calls of cfs_write return until a row of which `left` bytes are left is stored or fails
  predicate Outcomes(writes: seq<int>, left: nat) {
    && writes != [] && writes[0] <= left
    && (0 <= writes[0] < left ==> Outcomes(writes[1..], left - writes[0]))
  }

  function Written(writes: seq<int>, left: nat): (w: nat)
    requires Outcomes(writes, left)
    ensures w <= left
  {
    if writes[0] < 0 then 0
    else if writes[0] == left then left
    else writes[0] + Written(writes[1..], left - writes[0])
  }

  predicate Succeeds(writes: seq<int>, left: nat)
    requires Outcomes(writes, left)
  {
    writes[0] == left || (writes[0] >= 0 && Succeeds(writes[1..], left - writes[0]))
  }

  lemma {:induction false} SucceedsIff(writes: seq<int>, left: nat)
    requires Outcomes(writes, left) && left > 0
    ensures Succeeds(writes, left) <==> Written(writes, left) == left
    decreases writes
  {
    if 0 <= writes[0] < left {
      SucceedsIff(writes[1..], left - writes[0]);
    }
  }

  datatype Result = Ok | Over | StorageError

  /** An open tuple file of a relation. */
  class TupleFile {
    const rowLength: nat
    var contents: seq<byte>

    constructor (rowLength: nat)
      ensures this.rowLength == rowLength && contents == []
    {
      this.rowLength, contents := rowLength, [];
    }

    // storage_get_row_amount
    method GetRowAmount() returns (amount: nat)
      ensures amount == if rowLength == 0 then 0 else |Rows(contents, rowLength)|
    {
      if rowLength == 0 {
        return 0;
      }
      RowAmount(contents, rowLength);
      amount := |contents| / rowLength;
    }

    // storage_get_row; `got` is what cfs_read returns.
    method GetRow(id: nat, got: int, row: array<byte>) returns (r: Result)
      requires rowLength <= row.Length && got <= rowLength
      modifies row
      ensures rowLength == 0 ==> r == Over
      ensures rowLength > 0 ==>
        r == if id >= |Rows(contents, rowLength)| || got == 0 then Over
          else if got == rowLength then Ok else StorageError
      ensures r == Ok ==> row[..rowLength] == Rows(contents, rowLength)[id]
    {
      var amount := GetRowAmount();
      if id >= amount {
        return Over;
      }
      RowAt(contents, rowLength, id);
      r := ReadRow(id * rowLength, got, row);
    }

    // The part of storage_get_row that reads at a position in the file
    method ReadRow(from: nat, got: int, row: array<byte>) returns (r: Result)
      requires 0 < rowLength <= row.Length && got <= rowLength && from + rowLength <= |contents|
      modifies row
      ensures r == if got == 0 then Over else if got == rowLength then Ok else StorageError
      ensures r == Ok ==> row[..rowLength] == Stored(contents[from..from + rowLength])
    {
      if got < 0 {
        return StorageError;
      } else if got == 0 {
        return Over;
      }
      Copy(row, 0, contents[from..from + got]);
      if got < rowLength {
        return StorageError;
      }
      assert row[..rowLength] == contents[from..from + rowLength];
      FlipLast(row);
      return Ok;
    }

    // *last_byte ^= ROW_XOR
    method FlipLast(row: array<byte>)
      requires 0 < rowLength <= row.Length
      modifies row
      ensures row[..rowLength] == Stored(old(row[..rowLength]))
      ensures row[..] == old(row[..])[rowLength - 1 := Flip(old(row[rowLength - 1]))]
    {
      ghost var was := row[..];
      row[rowLength - 1] := Flip(row[rowLength - 1]);
      assert row[..rowLength] == Stored(was[..rowLength]);
    }

    // The loop of storage_put_row; `writes` is what the calls of cfs_write return.
    method Write(bytes: seq<byte>, writes: seq<int>) returns (r: Result)
      requires bytes != [] && Outcomes(writes, |bytes|)
      modifies this
      ensures contents == old(contents) + bytes[..Written(writes, |bytes|)]
      ensures r == if Succeeds(writes, |bytes|) then Ok else StorageError
    {
      var at, k := 0, 0;
      while at < |bytes|
        invariant 0 <= at <= |bytes| && 0 <= k <= |writes|
        invariant contents == old(contents) + bytes[..at]
        invariant at < |bytes| ==> Outcomes(writes[k..], |bytes| - at)
        invariant at < |bytes| ==> Written(writes, |bytes|) == at + Written(writes[k..], |bytes| - at)
        invariant at < |bytes| ==> (Succeeds(writes, |bytes|) <==> Succeeds(writes[k..], |bytes| - at))
        invariant at == |bytes| ==> Written(writes, |bytes|) == |bytes| && Succeeds(writes, |bytes|)
        decreases |writes| - k
      {
        var w := writes[k];
        assert writes[k..][0] == w && writes[k..][1..] == writes[k + 1..];
        if w < 0 {
          return StorageError;
        }
        contents := contents + bytes[at..at + w];
        assert bytes[..at] + bytes[at..at + w] == bytes[..at + w];
        at, k := at + w, k + 1;
      }
      r := Ok;
    }

    // storage_put_row without the integrity feature
    method PutRow(row: array<byte>, writes: seq<int>) returns (r: Result)
      requires 0 < rowLength <= row.Length && Outcomes(writes, rowLength)
      modifies this, row
      ensures row[..] == old(row[..])
      ensures contents == old(contents) + Stored(row[..rowLength])[..Written(writes, rowLength)]
      ensures r == if Succeeds(writes, rowLength) then Ok else StorageError
    {
      FlipTwice(row[rowLength - 1]);
      FlipLast(row);
      r := Write(row[..rowLength], writes);
      FlipLast(row);
      assert row[..] == old(row[..]);
    }
  }
}
