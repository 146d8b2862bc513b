/**
 The Internet checksum in tools/tunslip.c (section 2 of RFC 1071): sums of 16-bit words in one's
 complement arithmetic, the check of received packets, the change of an identification with an
 incremental change of the header checksum (section 3 of RFC 1624), and the checksums of relayed
 DHCP answers.
 */
module InternetChecksum {
  import opened Bytes

  type Word16 = w: nat | w < 0x1_0000

  function Word(high: byte, low: byte): Word16 { high as nat * 256 + low }

  // A 16-bit addition with the carry added at the end
  function Add16(s: Word16, t: Word16): (r: Word16)
    ensures r == s + t || r == s + t - 0xffff
    ensures r == 0 <==> s == 0 && t == 0
  {
    if s + t < 0x1_0000 then s + t else s + t - 0x1_0000 + 1
  }

  // The sum of the words of some bytes, the last one padded with zero
  function Total(p: seq<byte>): nat {
    if |p| == 0 then 0
    else if |p| == 1 then Word(p[0], 0)
    else Word(p[0], p[1]) + Total(p[2..])
  }

  function Sum(sum: Word16, p: seq<byte>): Word16
    decreases |p|
  {
    if |p| == 0 then sum
    else if |p| == 1 then Add16(sum, Word(p[0], 0))
    else Sum(Add16(sum, Word(p[0], p[1])), p[2..])
  }

  predicate Congruent(x: int, y: int) { (x - y) % 0xffff == 0 }

  lemma CongruentStep(r: int, a: int, b: int, c: int)
    requires Congruent(r, a + c) && (a == b || a == b - 0xffff)
    ensures Congruent(r, b + c)
  {
    if a == b - 0xffff {
      assert r - (b + c) == (r - (a + c)) - 0xffff;
    }
  }

  /** For any length the sum is congruent to start and words modulo 65535, and zero only if these are. */
  lemma {:induction false} SumCongruent(sum: Word16, p: seq<byte>)
    ensures Congruent(Sum(sum, p), sum + Total(p))
    ensures Sum(sum, p) == 0 <==> sum == 0 && Total(p) == 0
    decreases |p|
  {
    if |p| == 1 {
      CongruentStep(Sum(sum, p), Add16(sum, Word(p[0], 0)), sum + Word(p[0], 0), 0);
    } else if |p| > 1 {
      var w := Word(p[0], p[1]);
      SumCongruent(Add16(sum, w), p[2..]);
      CongruentStep(Sum(sum, p), Add16(sum, w), sum + w, Total(p[2..]));
    }
  }

  // The addition with its carry
  method AddCarry(s: Word16, t: Word16) returns (sum: Word16)
    ensures sum == Add16(s, t)
  {
    sum := (s + t) % 0x1_0000;
    if sum < t {
      sum := sum + 1;
    }
  }

  // ip4sum
  method Ip4Sum(start: Word16, p: seq<byte>) returns (sum: Word16)
    ensures sum == Sum(start, p)
  {
    sum := start;
    var i := 0;
    while i + 1 < |p|
      invariant 0 <= i <= |p| && Sum(start, p) == Sum(sum, p[i..])
    {
      assert p[i..][2..] == p[i + 2..];
      sum := AddCarry(sum, p[i] as nat * 256 + p[i + 1]);
      i := i + 2;
    }
    if i < |p| {
      sum := AddCarry(sum, p[i] as nat * 256);
    }
  }

  // ---------------------------------------------------------------- checking packets

  predicate Passes(sum: Word16) { sum == 0xffff || sum == 0 }

  lemma PassesIff(sum: Word16, p: seq<byte>)
    ensures Passes(Sum(sum, p)) <==> Congruent(sum + Total(p), 0)
  {
    SumCongruent(sum, p);
    SmallResidue(Sum(sum, p), sum + Total(p));
  }

  lemma SmallResidue(r: Word16, x: nat)
    requires Congruent(r, x)
    ensures Passes(r) <==> Congruent(x, 0)
  {
    assert (r - x) % 0xffff == 0;
    assert x % 0xffff == r % 0xffff;
  }

  // The header length
  function HeaderLength(p: seq<byte>): nat
    requires |p| > 0
  {
    4 * (p[0] % 16)
  }

  // A packet that has all the fields that are read, and all of its header
  predicate Readable(p: seq<byte>) {
    20 <= |p| < 0x1_0000 && HeaderLength(p) <= |p| && (p[9] == 17 ==> 28 <= |p|)
  }

  // The start of the sum over the pseudo-header: protocol and length, in 16 bits
  function PseudoStart(p: seq<byte>): Word16
    requires Readable(p)
  {
    (p[9] as nat + (|p| - HeaderLength(p))) % 0x1_0000
  }

  // The sum over the pseudo-header and the payload
  function PayloadSum(p: seq<byte>): Word16
    requires Readable(p)
  {
    Sum(Sum(PseudoStart(p), p[12..20]), p[HeaderLength(p)..])
  }

  // check_ip as a function
  function Check(p: seq<byte>): int
    requires Readable(p)
  {
    if p[0] / 16 != 4 then -1
    else if Word(p[2], p[3]) > |p| then -2
    else if Word(p[2], p[3]) < |p| then -3
    else if !Passes(Sum(0, p[..HeaderLength(p)])) then -4
    else if p[9] == 6 then if Passes(PayloadSum(p)) then 0 else -5
    else if p[9] == 17 then
      if Passes(PayloadSum(p)) || Word(p[26], p[27]) == 0 then 0 else -6
    else if p[9] == 1 then if Passes(Sum(0, p[HeaderLength(p)..])) then 0 else -7
    else 0
  }

  // check_ip
  method CheckIp(p: seq<byte>) returns (code: int)
    requires Readable(p)
    ensures code == Check(p)
  {
    if p[0] / 16 != 4 {
      return -1;
    }
    var length := p[2] as nat * 256 + p[3];
    if length > |p| {
      return -2;
    }
    if length < |p| {
      return -3;
    }
    var header := 4 * (p[0] % 16);
    var sum := Ip4Sum(0, p[..header]);
    if sum != 0xffff && sum != 0 {
      return -4;
    }
    if p[9] == 6 || p[9] == 17 {
      sum := (p[9] as nat + (|p| - header)) % 0x1_0000;
      sum := Ip4Sum(sum, p[12..20]);
      sum := Ip4Sum(sum, p[header..]);
      if sum != 0xffff && sum != 0 {
        if p[9] == 6 {
          return -5;
        } else if p[26] != 0 || p[27] != 0 {
          return -6;
        }
      }
    } else if p[9] == 1 {
      sum := Ip4Sum(0, p[header..]);
      if sum != 0xffff && sum != 0 {
        return -7;
      }
    }
    code := 0;
  }

  // ---------------------------------------------------------------- changing words

  // A word at a position replaced
  function Put(p: seq<byte>, i: nat, high: byte, low: byte): (q: seq<byte>)
    requires i + 1 < |p|
    ensures |q| == |p|
  {
    p[i := high][i + 1 := low]
  }

  lemma {:induction false} TotalPut(p: seq<byte>, i: nat, high: byte, low: byte)
    requires i % 2 == 0 && i + 1 < |p|
    ensures Total(Put(p, i, high, low)) == Total(p) - Word(p[i], p[i + 1]) + Word(high, low)
    decreases i
  {
    if i == 0 {
      assert Put(p, i, high, low)[2..] == p[2..];
    } else {
      assert Put(p, i, high, low)[2..] == Put(p[2..], i - 2, high, low);
      TotalPut(p[2..], i - 2, high, low);
    }
  }

  // The order of the bytes of a word in memory
  datatype Order = Big | Little

  function Read16(p: seq<byte>, i: nat, order: Order): Word16
    requires i + 1 < |p|
  {
    if order.Big? then Word(p[i], p[i + 1]) else Word(p[i + 1], p[i])
  }

  function Write16(p: seq<byte>, i: nat, v: Word16, order: Order): (q: seq<byte>)
    requires i + 1 < |p|
    ensures |q| == |p|
  {
    if order.Big? then Put(p, i, v / 256, v % 256) else Put(p, i, v % 256, v / 256)
  }

  // ---------------------------------------------------------------- a new identification

  // The part of write_to_serial that gives a packet an identification: the words are read and written
  // in the order of the host.
  function Renumber(p: seq<byte>, id: Word16, order: Order): (q: seq<byte>)
    requires |p| >= 20
    ensures |q| == |p|
  {
    Write16(Write16(p, 4, id, order), 10, Add16(Read16(p, 10, order), 0xffff - id), order)
  }

  method StoreWord(p: array<byte>, i: nat, v: Word16, order: Order)
    requires i + 1 < p.Length
    modifies p
    ensures p[..] == Write16(old(p[..]), i, v, order)
  {
    if order.Big? {
      p[i], p[i + 1] := v / 256, v % 256;
    } else {
      p[i], p[i + 1] := v % 256, v / 256;
    }
  }

  method SetIdentification(p: array<byte>, id: Word16, order: Order)
    requires p.Length >= 20
    modifies p
    ensures p[..] == Renumber(old(p[..]), id, order)
  {
    ghost var before := p[..];
    StoreWord(p, 4, id, order);
    var sum := if order.Big? then p[10] as nat * 256 + p[11] else p[11] as nat * 256 + p[10];
    assert sum == Read16(before, 10, order);
    sum := AddCarry(sum, 0xffff - id);
    StoreWord(p, 10, sum, order);
  }

  // The word that the value makes in the order of the network
  function Sent(v: Word16, order: Order): Word16 {
    if order.Big? then v else Word(v % 256, v / 256)
  }

  lemma BytesOfWord(v: Word16)
    ensures Word(v / 256, v % 256) == v
  {
  }

  lemma WriteTotal(p: seq<byte>, i: nat, v: Word16, order: Order)
    requires i % 2 == 0 && i + 1 < |p|
    ensures Total(Write16(p, i, v, order)) == Total(p) - Word(p[i], p[i + 1]) + Sent(v, order)
  {
    BytesOfWord(v);
    if order.Big? {
      TotalPut(p, i, v / 256, v % 256);
    } else {
      TotalPut(p, i, v % 256, v / 256);
    }
  }

  // By how much the order of the bytes multiplies
  function Factor(order: Order): nat { if order.Big? then 1 else 256 }

  lemma SentForm(v: Word16, order: Order) returns (a: int)
    ensures Sent(v, order) == Factor(order) * v + 0xffff * a
  {
    a := if order.Big? then 0 else -(v / 256);
    BytesOfWord(v);
  }

  lemma SentRead(a: byte, b: byte)
    ensures Word(Word(b, a) % 256, Word(b, a) / 256) == Word(a, b)
  {
  }

  // What changes in the sum of the words
  function Change(id: Word16, sum: Word16, was: Word16, order: Order): int {
    Sent(id, order) + Sent(sum, order) - Sent(was, order)
  }

  lemma WriteKeeps(h: seq<byte>, v: Word16, order: Order)
    requires |h| >= 20
    ensures Write16(h, 4, v, order)[10] == h[10] && Write16(h, 4, v, order)[11] == h[11]
  {
  }

  lemma TwoWrites(h: seq<byte>, a: Word16, b: Word16, order: Order)
    requires |h| >= 20
    ensures Total(Write16(Write16(h, 4, a, order), 10, b, order)) ==
      Total(h) - Word(h[4], h[5]) + Sent(a, order) - Word(h[10], h[11]) + Sent(b, order)
  {
    WriteTotal(h, 4, a, order);
    WriteKeeps(h, a, order);
    WriteTotal(Write16(h, 4, a, order), 10, b, order);
  }

  // The words of a header before and after
  lemma RenumberTotal(h: seq<byte>, id: Word16, order: Order)
    requires |h| >= 20 && h[4] == 0 && h[5] == 0
    ensures var was := Read16(h, 10, order);
      Total(Renumber(h, id, order)) == Total(h) + Change(id, Add16(was, 0xffff - id), was, order)
  {
    var was := Read16(h, 10, order);
    TwoWrites(h, id, Add16(was, 0xffff - id), order);
    SentRead(h[10], h[11]);
  }

  lemma ChangeCancels(id: Word16, was: Word16, order: Order)
    ensures Congruent(Change(id, Add16(was, 0xffff - id), was, order), 0)
  {
    var sum := Add16(was, 0xffff - id);
    var a := SentForm(id, order);
    var b := SentForm(sum, order);
    var c := SentForm(was, order);
    Cancel(id, sum, was, Sent(id, order), Sent(sum, order), Sent(was, order), a, b, c, order);
  }

  lemma Cancel(id: int, sum: int, was: int, id1: int, sum1: int, was1: int, a: int, b: int, c: int, order: Order)
    requires var k := Factor(order);
      id1 == k * id + 0xffff * a && sum1 == k * sum + 0xffff * b && was1 == k * was + 0xffff * c
    requires sum == was + (0xffff - id) || sum == was + (0xffff - id) - 0xffff
    ensures Congruent(id1 + sum1 - was1, 0)
  {
    var m := (if sum == was + (0xffff - id) then Factor(order) else 0) + a + b - c;
    assert id1 + sum1 - was1 == 0xffff * m;
    Multiple(m);
  }

  lemma Multiple(m: int)
    ensures 0xffff * m % 0xffff == 0
  {
  }

  /** A packet that passes with identification 0 passes with any other identification, in either byte order. */
  lemma RenumberedPasses(p: seq<byte>, id: Word16, order: Order)
    requires Readable(p) && HeaderLength(p) >= 20 && p[4] == 0 && p[5] == 0 && Check(p) == 0
    ensures Readable(Renumber(p, id, order)) && Check(Renumber(p, id, order)) == 0
  {
    var q, n := Renumber(p, id, order), HeaderLength(p);
    RenumberParts(p, id, order, n);
    RenumberTotal(p[..n], id, order);
    ChangeCancels(id, Read16(p[..n], 10, order), order);
    SamePasses(p[..n], q[..n]);
    SameCheck(p, q);
  }

  // What the check looks at
  lemma SameCheck(p: seq<byte>, q: seq<byte>)
    requires Readable(p) && |q| == |p| && HeaderLength(p) >= 20
    requires q[0] == p[0] && q[2] == p[2] && q[3] == p[3] && q[9] == p[9] && q[12..20] == p[12..20]
    requires forall i | 20 <= i < |p| :: q[i] == p[i]
    requires Passes(Sum(0, p[..HeaderLength(p)])) <==> Passes(Sum(0, q[..HeaderLength(p)]))
    ensures Readable(q) && Check(q) == Check(p)
  {
    var n := HeaderLength(p);
    assert q[n..] == p[n..];
    assert q[20..] == p[20..];
  }

  lemma SamePasses(h: seq<byte>, g: seq<byte>)
    requires Congruent(Total(g) - Total(h), 0)
    ensures Passes(Sum(0, h)) <==> Passes(Sum(0, g))
  {
    PassesIff(0, h);
    PassesIff(0, g);
    CongruentSum(Total(h), Total(g) - Total(h));
  }

  lemma RenumberParts(p: seq<byte>, id: Word16, order: Order, n: nat)
    requires 20 <= n <= |p|
    ensures var q := Renumber(p, id, order);
      && q[..n] == Renumber(p[..n], id, order) && q[12..20] == p[12..20] && q[n..] == p[n..]
      && q[0] == p[0] && q[2] == p[2] && q[3] == p[3] && q[9] == p[9] && forall i | 20 <= i < |p| :: q[i] == p[i]
  {
  }

  lemma CongruentSum(x: int, y: int)
    requires Congruent(y, 0)
    ensures Congruent(x + y, 0) <==> Congruent(x, 0)
  {
  }

  // ---------------------------------------------------------------- checksums of relayed answers

  // The header checksum of a packet whose field is zero
  function WithHeaderSum(p: seq<byte>): (q: seq<byte>)
    requires |p| >= 28
    ensures |q| == |p|
  {
    var sum := 0xffff - Sum(0, p[..20]);
    Put(p, 10, sum / 256, sum % 256)
  }

  // The UDP checksum of a packet whose field is zero; 0 is not used.
  function UdpSum(p: seq<byte>): Word16
    requires |p| >= 28
  {
    var sum := Sum(Sum((17 + (|p| - 20)) % 0x1_0000, p[12..20]), p[20..]);
    if sum != 0xffff then 0xffff - sum else 0xffff
  }

  function WithUdpSum(p: seq<byte>): (q: seq<byte>)
    requires |p| >= 28
    ensures |q| == |p|
  {
    Put(p, 26, UdpSum(p) / 256, UdpSum(p) % 256)
  }

  // The end of relay_dhcp_to_client
  method FillChecksums(p: array<byte>)
    requires 28 <= p.Length
    modifies p
    ensures p[..] == WithUdpSum(WithHeaderSum(old(p[..])))
  {
    var sum := Ip4Sum(0, p[..20]);
    StoreWord(p, 10, 0xffff - sum, Big);
    ghost var q := p[..];
    sum := (17 + (p.Length - 20)) % 0x1_0000;
    assert p[12..20] == q[12..20] && p[20..] == q[20..];
    sum := Ip4Sum(sum, p[12..20]);
    sum := Ip4Sum(sum, p[20..]);
    if sum != 0xffff {
      sum := 0xffff - sum;
    }
    StoreWord(p, 26, sum, Big);
  }

  lemma SumOfParts(start: Word16, x: seq<byte>, y: seq<byte>)
    ensures Congruent(Sum(Sum(start, x), y), start + Total(x) + Total(y))
    ensures Passes(Sum(Sum(start, x), y)) <==> Congruent(start + Total(x) + Total(y), 0)
  {
    SumCongruent(start, x);
    SumCongruent(Sum(start, x), y);
    CongruentChain(Sum(Sum(start, x), y), Sum(start, x), Total(y), start + Total(x));
    SmallResidue(Sum(Sum(start, x), y), start + Total(x) + Total(y));
  }

  lemma CongruentChain(r: int, a: int, t: int, b: int)
    requires Congruent(r, a + t) && Congruent(a, b)
    ensures Congruent(r, b + t)
  {
  }

  lemma Complement(sum: Word16, total: nat)
    requires Congruent(sum, total)
    ensures Congruent(total + (0xffff - sum), 0)
  {
  }

  lemma HeaderSumPasses(p: seq<byte>)
    requires |p| >= 28 && p[10] == 0 && p[11] == 0
    ensures Passes(Sum(0, WithHeaderSum(p)[..20]))
  {
    var sum := Sum(0, p[..20]);
    SumCongruent(0, p[..20]);
    var high, low: byte := (0xffff - sum) / 256, (0xffff - sum) % 256;
    TotalPut(p[..20], 10, high, low);
    assert WithHeaderSum(p)[..20] == Put(p[..20], 10, high, low);
    BytesOfWord(0xffff - sum);
    Complement(sum, Total(p[..20]));
    PassesIff(0, WithHeaderSum(p)[..20]);
  }

  lemma UdpSumPasses(p: seq<byte>)
    requires 28 <= |p| < 0x1_0000 && p[26] == 0 && p[27] == 0
    ensures var q := WithUdpSum(p); Passes(Sum(Sum((17 + (|p| - 20)) % 0x1_0000, q[12..20]), q[20..]))
    ensures UdpSum(p) != 0
  {
    var q, start := WithUdpSum(p), (17 + (|p| - 20)) % 0x1_0000;
    var sum := Sum(Sum(start, p[12..20]), p[20..]);
    SumCongruent(start, p[12..20]);
    SumCongruent(Sum(start, p[12..20]), p[20..]);
    SumOfParts(start, p[12..20], p[20..]);
    var high, low: byte := UdpSum(p) / 256, UdpSum(p) % 256;
    assert q[12..20] == p[12..20] && q[20..] == Put(p[20..], 6, high, low);
    TotalPut(p[20..], 6, high, low);
    BytesOfWord(UdpSum(p));
    UdpComplement(sum, start + Total(p[12..20]) + Total(p[20..]));
    SumOfParts(start, q[12..20], q[20..]);
  }

  lemma UdpComplement(sum: Word16, total: nat)
    requires Congruent(sum, total)
    ensures Congruent(total + if sum != 0xffff then 0xffff - sum else 0xffff, 0)
  {
    if sum != 0xffff {
      Complement(sum, total);
    }
  }

  /** The checksums that a relayed answer gets pass the check, and the UDP checksum is not switched off. */
  lemma RelayedPasses(p: seq<byte>)
    requires 28 <= |p| < 0x1_0000 && p[0] == 0x45 && p[9] == 17 && Word(p[2], p[3]) == |p|
    requires p[10] == 0 && p[11] == 0 && p[26] == 0 && p[27] == 0
    ensures var q := WithUdpSum(WithHeaderSum(p)); Readable(q) && Check(q) == 0 && Word(q[26], q[27]) != 0
  {
    var h := WithHeaderSum(p);
    var q := WithUdpSum(h);
    HeaderSumPasses(p);
    assert q[..20] == h[..20];
    UdpSumPasses(h);
    BytesOfWord(UdpSum(h));
  }
}
