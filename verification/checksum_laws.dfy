/**
 Which packets the check of tools/tunslip.c lets through, in terms of the sums of their words, and that it finds every
 change of one word (section 2 of RFC 1071).
 */
module ChecksumLaws {
  import opened Bytes
  import opened InternetChecksum

  // The words that the checksum of TCP and UDP covers; protocol and length are added in 16 bits.
  function Covered(p: seq<byte>): nat
    requires Readable(p)
  {
    (p[9] as nat + (|p| - HeaderLength(p))) % 0x1_0000 + Total(p[12..20]) + Total(p[HeaderLength(p)..])
  }

  lemma PayloadPassesIff(p: seq<byte>)
    requires Readable(p)
    ensures Passes(PayloadSum(p)) <==> Congruent(Covered(p), 0)
  {
    var start, middle, rest := PseudoStart(p), p[12..20], p[HeaderLength(p)..];
    SumCongruent(start, middle);
    PassesIff(Sum(start, middle), rest);
    SameResidue(Sum(start, middle), start + Total(middle), Total(rest));
  }

  lemma SameResidue(x: int, y: int, z: int)
    requires Congruent(x, y)
    ensures Congruent(x + z, 0) <==> Congruent(y + z, 0)
  {
    var k := (x - y) / 0xffff;
    assert x + z == y + z + 0xffff * k;
  }

  // What UDP allows instead of a checksum
  predicate NoUdpSum(p: seq<byte>)
    requires Readable(p)
  {
    p[9] == 17 && p[26] == 0 && p[27] == 0
  }

  /** The packets that pass: IPv4, as long as they say, with a right header and a right payload for their protocol. */
  lemma PassesCheckIff(p: seq<byte>)
    requires Readable(p)
    ensures Check(p) == 0 <==>
      && p[0] / 16 == 4 && 256 * p[2] as nat + p[3] == |p|
      && Congruent(Total(p[..HeaderLength(p)]), 0)
      && (p[9] == 6 || p[9] == 17 ==> Congruent(Covered(p), 0) || NoUdpSum(p))
      && (p[9] == 1 ==> Congruent(Total(p[HeaderLength(p)..]), 0))
  {
    PassesIff(0, p[..HeaderLength(p)]);
    PassesIff(0, p[HeaderLength(p)..]);
    PayloadPassesIff(p);
  }

  // Two words that are the same in one's complement, as 0 and 0xffff are
  predicate SameWord(v: Word16, w: Word16) { v == w || (v == 0 && w == 0xffff) || (v == 0xffff && w == 0) }

  lemma OtherTotal(total: int, was: Word16, now: Word16)
    requires Congruent(total, 0) && !SameWord(was, now)
    ensures !Congruent(total - was + now, 0)
  {
    var k := total / 0xffff;
    assert total == 0xffff * k;
    if Congruent(total - was + now, 0) {
      var m := (total - was + now) / 0xffff;
      assert now - was == 0xffff * (m - k);
      NoMultiple(now - was, m - k);
    }
  }

  lemma NoMultiple(d: int, m: int)
    requires d == 0xffff * m && -0xffff <= d <= 0xffff
    ensures d == 0 || d == 0xffff || d == -0xffff
  {
  }

  // What a changed word makes of the parts of a packet
  lemma HeaderChanged(p: seq<byte>, i: nat, high: byte, low: byte)
    requires Readable(p) && i % 2 == 0 && i + 1 < HeaderLength(p)
    ensures var n := HeaderLength(p); Put(p, i, high, low)[..n] == Put(p[..n], i, high, low)
  {
  }

  lemma PayloadChanged(p: seq<byte>, i: nat, high: byte, low: byte)
    requires Readable(p) && HeaderLength(p) >= 20 && HeaderLength(p) <= i && i + 1 < |p|
    ensures var q, n := Put(p, i, high, low), HeaderLength(p);
      && q[..n] == p[..n] && q[n..] == Put(p[n..], i - n, high, low) && q[12..20] == p[12..20]
      && q[0] == p[0] && q[2] == p[2] && q[3] == p[3] && q[9] == p[9]
  {
  }

  lemma HeaderErrorFails(p: seq<byte>, i: nat, high: byte, low: byte)
    requires Readable(p) && i % 2 == 0 && i + 1 < HeaderLength(p) && Congruent(Total(p[..HeaderLength(p)]), 0)
    requires !SameWord(Word(p[i], p[i + 1]), Word(high, low))
    ensures !Passes(Sum(0, Put(p, i, high, low)[..HeaderLength(p)]))
  {
    var n := HeaderLength(p);
    HeaderChanged(p, i, high, low);
    TotalPut(p[..n], i, high, low);
    OtherTotal(Total(p[..n]), Word(p[i], p[i + 1]), Word(high, low));
    PassesIff(0, Put(p, i, high, low)[..n]);
  }

  /** A packet that passes does not pass with another word in its header, if that leaves the length of the header. */
  lemma HeaderErrorShows(p: seq<byte>, i: nat, high: byte, low: byte)
    requires Readable(p) && Check(p) == 0 && i % 2 == 0 && i + 1 < HeaderLength(p)
    requires !SameWord(Word(p[i], p[i + 1]), Word(high, low))
    requires Readable(Put(p, i, high, low)) && HeaderLength(Put(p, i, high, low)) == HeaderLength(p)
    ensures if i < 4 then Check(Put(p, i, high, low)) in {-1, -2, -3, -4} else Check(Put(p, i, high, low)) == -4
  {
    PassesCheckIff(p);
    HeaderErrorFails(p, i, high, low);
  }

  // The word at `i` becomes another one, and the checksum is not switched off.
  predicate PayloadError(p: seq<byte>, i: nat, high: byte, low: byte) {
    && Readable(p) && HeaderLength(p) >= 20 && i % 2 == 0 && HeaderLength(p) <= i && i + 1 < |p|
    && !SameWord(Word(p[i], p[i + 1]), Word(high, low))
    && !NoUdpSum(p) && Readable(Put(p, i, high, low)) && !NoUdpSum(Put(p, i, high, low))
  }

  lemma PingErrorFails(p: seq<byte>, i: nat, high: byte, low: byte)
    requires PayloadError(p, i, high, low) && Congruent(Total(p[HeaderLength(p)..]), 0)
    ensures !Passes(Sum(0, Put(p, i, high, low)[HeaderLength(p)..]))
  {
    var n := HeaderLength(p);
    PayloadChanged(p, i, high, low);
    TotalPut(p[n..], i - n, high, low);
    OtherTotal(Total(p[n..]), Word(p[i], p[i + 1]), Word(high, low));
    PassesIff(0, Put(p, i, high, low)[n..]);
  }

  lemma CoveredErrorFails(p: seq<byte>, i: nat, high: byte, low: byte)
    requires PayloadError(p, i, high, low) && Congruent(Covered(p), 0)
    ensures !Passes(PayloadSum(Put(p, i, high, low)))
  {
    var q, n := Put(p, i, high, low), HeaderLength(p);
    PayloadChanged(p, i, high, low);
    TotalPut(p[n..], i - n, high, low);
    assert Covered(q) == Covered(p) - Word(p[i], p[i + 1]) + Word(high, low);
    OtherTotal(Covered(p), Word(p[i], p[i + 1]), Word(high, low));
    PayloadPassesIff(q);
  }

  lemma HeaderStaysRight(p: seq<byte>, i: nat, high: byte, low: byte)
    requires PayloadError(p, i, high, low) && Check(p) == 0
    ensures var q := Put(p, i, high, low);
      q[9] == p[9] && q[0] / 16 == 4 && Word(q[2], q[3]) == |q| && HeaderLength(q) == HeaderLength(p)
      && Passes(Sum(0, q[..HeaderLength(q)]))
  {
    PayloadChanged(p, i, high, low);
  }

  /** Nor with another word in its payload, and the answer names the protocol, except that UDP may have no checksum. */
  lemma PayloadErrorShows(p: seq<byte>, i: nat, high: byte, low: byte)
    requires PayloadError(p, i, high, low) && Check(p) == 0 && p[9] in {1, 6, 17}
    ensures Check(Put(p, i, high, low)) == if p[9] == 6 then -5 else if p[9] == 17 then -6 else -7
  {
    PassesCheckIff(p);
    HeaderStaysRight(p, i, high, low);
    if p[9] == 1 {
      PingErrorFails(p, i, high, low);
    } else {
      CoveredErrorFails(p, i, high, low);
    }
  }

  /** A packet that passes does not pass in another version, nor when bytes at its end are lost or bytes are added. */
  lemma LengthErrorShows(p: seq<byte>, n: nat, more: seq<byte>, version: byte)
    requires Readable(p) && Check(p) == 0 && n < |p|
    ensures Readable(p[..n]) ==> Check(p[..n]) == -2
    ensures Readable(p + more) && more != [] ==> Check(p + more) == -3
    ensures version % 16 == p[0] % 16 && version / 16 != 4 ==> Readable(p[0 := version]) && Check(p[0 := version]) == -1
  {
  }

  /** A new identification is read back where it was written, and no field but it and the checksum changes. */
  lemma RenumberedReads(p: seq<byte>, id: Word16, order: Order)
    requires |p| >= 20
    ensures var q := Renumber(p, id, order);
      Read16(q, 4, order) == id && forall i | 0 <= i < |p| && i != 4 && i != 5 && i != 10 && i != 11 :: q[i] == p[i]
  {
    BytesOfWord(id);
  }
}
