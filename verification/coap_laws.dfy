/**
 What CoAP messages mean on the wire, in terms of option numbers and bytes (section 3 of draft-ietf-core-coap-07):
 which options are refused or ignored, and what the written ones look like.
 */
module CoapLaws {
  import opened Bytes
  import opened Coap
  import opened CoapRoundTrip

  // The options that the implementation takes, the fence post among them
  const KNOWN: set<nat> := {1, 2, 4, 5, 6, 7, 8, 9, 10, 11, 12, 13, 14, 15, 17, 19, 21}
  const PROXY_URI := 3

  // An option that is taken or ignored: a critical one has an odd number.
  predicate Takeable(n: nat) { n in KNOWN || (n % 2 == 0 && n != PROXY_URI) }

  lemma TakenIff(f: Fields, n: nat, bytes: seq<byte>)
    ensures Absorb(f, n, bytes).Took? <==> Takeable(n)
    ensures !Takeable(n) ==> Absorb(f, n, bytes) == Refused(if n == PROXY_URI then 165 else 130)
    ensures n !in KNOWN && n % 2 == 0 ==> Absorb(f, n, bytes) == Took(Fields(f.values, f.seen + {n}))
  {
  }

  // Option `o` comes after options that are all taken or ignored.
  predicate Reaches(r: Raw, o: Opt)
    decreases r
  {
    r.Read? && (r.o == o || (Takeable(r.o.number) && Reaches(r.next, o)))
  }

  // The options of a datagram
  function OptionsOf(data: seq<byte>): Raw
    requires |data| >= 4
  {
    OptionsIn(data, 4, data[0] % 16, 0)
  }

  lemma {:induction false} RefusedOption(f: Fields, r: Raw, o: Opt)
    requires Reaches(r, o) && !Takeable(o.number)
    ensures AbsorbAll(f, r) == Failed(if o.number == PROXY_URI then 165 else 130)
    decreases r
  {
    TakenIff(f, r.o.number, r.o.value);
    if r.o != o {
      RefusedOption(Absorb(f, r.o.number, r.o.value).fields, r.next, o);
    }
  }

  lemma {:induction false} FailedOption(f: Fields, r: Raw) returns (o: Opt)
    requires AbsorbAll(f, r).Failed?
    ensures Reaches(r, o) && !Takeable(o.number)
    decreases r
  {
    o := r.o;
    TakenIff(f, r.o.number, r.o.value);
    if Takeable(o.number) {
      o := FailedOption(Absorb(f, r.o.number, r.o.value).fields, r.next);
    }
  }

  /** An unknown critical option behind options that are taken makes the answer 4.02, Proxy-Uri 5.05. */
  lemma CriticalRefused(data: seq<byte>, o: Opt)
    requires |data| >= 4 && data[0] / 64 == 1 && Reaches(OptionsOf(data), o) && !Takeable(o.number)
    ensures Parse(data) == Error(if o.number == PROXY_URI then 165 else 130)
  {
    RefusedOption(NOTHING, OptionsOf(data), o);
  }

  /** A datagram is refused exactly for its version or for such an option. */
  lemma RefusedIff(data: seq<byte>)
    requires |data| >= 4
    ensures Parse(data).Error? <==>
      data[0] / 64 != 1 || exists o :: Reaches(OptionsOf(data), o) && !Takeable(o.number)
    ensures data[0] / 64 != 1 ==> Parse(data) == Error(128)
  {
    var r := OptionsOf(data);
    if data[0] / 64 == 1 {
      if AbsorbAll(NOTHING, r).Failed? {
        var o := FailedOption(NOTHING, r);
      }
      if o :| Reaches(r, o) && !Takeable(o.number) {
        RefusedOption(NOTHING, r, o);
      }
    }
  }

  // An unknown option that may be ignored
  predicate Elective(n: nat) { n !in KNOWN && n % 2 == 0 }

  // `s` is what `r` is without the unknown elective options, wherever the two end.
  predicate Sheds(r: Raw, s: Raw)
    decreases r
  {
    match r
    case Stop(_, complete) => s.Stop? && s.complete == complete
    case Read(o, next) => if Elective(o.number) then Sheds(next, s) else s.Read? && s.o == o && Sheds(next, s.next)
  }

  lemma {:induction false} ShedValues(f: Fields, g: Fields, r: Raw, s: Raw)
    requires Sheds(r, s) && f.values == g.values
    ensures var x, y := AbsorbAll(f, r), AbsorbAll(g, s);
      if !x.Done? then y == x
      else y.Done? && x.at == End(r) && y.at == End(s) && y.fields.values == x.fields.values
    decreases r
  {
    if r.Read? {
      TakenIff(f, r.o.number, r.o.value);
      if Elective(r.o.number) {
        ShedValues(Absorb(f, r.o.number, r.o.value).fields, g, r.next, s);
      } else if Takeable(r.o.number) {
        TakenIff(g, r.o.number, r.o.value);
        ShedValues(Absorb(f, r.o.number, r.o.value).fields, Absorb(g, r.o.number, r.o.value).fields, r.next, s.next);
      } else {
        TakenIff(g, r.o.number, r.o.value);
      }
    }
  }

  // The bytes behind the options
  function Behind(data: seq<byte>): seq<byte>
    requires |data| >= 4
  {
    LaterEnd(data, 4, data[0] % 16, 0);
    data[End(OptionsOf(data))..]
  }

  // Two results that differ at most in the bitmap
  predicate SameMessage(x: Parsed, y: Parsed) {
    match x
    case Message(p, _) => y.Message? && y.p == p
    case Error(code) => y == Error(code)
    case Beyond => y == Beyond
  }

  /** Datagrams that differ in unknown elective options only are the same message: these options add nothing. */
  lemma ElectiveIgnored(d: seq<byte>, e: seq<byte>)
    requires |d| >= 4 && |e| >= 4 && d[0] / 16 == e[0] / 16 && d[1..4] == e[1..4]
    requires Sheds(OptionsOf(d), OptionsOf(e)) && Behind(d) == Behind(e)
    ensures SameMessage(Parse(d), Parse(e))
  {
    ShedValues(NOTHING, NOTHING, OptionsOf(d), OptionsOf(e));
    LaterEnd(d, 4, d[0] % 16, 0);
    LaterEnd(e, 4, e[0] % 16, 0);
    assert d[1] == d[1..4][0] == e[1] && d[2] == d[1..4][1] == e[2] && d[3] == d[1..4][2] == e[3];
    assert d[0] / 64 == d[0] / 16 / 4 && e[0] / 64 == e[0] / 16 / 4;
  }

  // ---------------------------------------------------------------- one datagram

  // A request for the path "a" with one more option behind it
  function OneMore(d: byte): (data: seq<byte>)
    requires d < 15
    ensures |data| == 7
  {
    [66, 1, 0, 7, 145, 97, d * 16]
  }

  lemma OneMoreRead(d: byte)
    requires d < 15
    ensures OptionsOf(OneMore(d)) == Read(Opt(9, [97]), Read(Opt(9 + d as nat, []), Stop(7, true)))
  {
    var data := OneMore(d);
    assert OptionsIn(data, 7, 0, 9 + d as nat) == Stop(7, true);
    LastRead(data, d);
    FirstRead(data);
  }

  lemma LastRead(data: seq<byte>, d: byte)
    requires d < 15 && |data| == 7 && data[6] == d * 16
    ensures OptionsIn(data, 6, 1, 9) == Read(Opt(9 + d as nat, []), Stop(7, true))
  {
    assert data[6] as nat / 16 == d as nat && data[6] % 16 == 0 && data[7..7] == [];
    var next := OptionsIn(data, 7, 0, 9 + d as nat);
    assert Inside(data, 6) && OptionsIn(data, 6, 1, 9) == Read(Opt(9 + d as nat, data[7..7]), next);
  }

  lemma FirstRead(data: seq<byte>)
    requires |data| == 7 && data[4] == 145 && data[5] == 97
    ensures OptionsIn(data, 4, 2, 0) == Read(Opt(9, [97]), OptionsIn(data, 6, 1, 9))
  {
    assert data[4] as nat / 16 == 9 && data[4] % 16 == 1 && data[5..6] == [97];
    assert Inside(data, 4);
  }

  /** An option that is not known is ignored in it if its number is even, and refused if it is odd. */
  lemma OneMoreOption(d: byte)
    requires d < 15 && (9 + d) as nat !in KNOWN
    ensures Parse(OneMore(d)) ==
      if d % 2 == 1 then Message(Packet(0, 1, 7, map[9 := Text([97])], []), {9, 9 + d as nat}) else Error(130)
  {
    var n := 9 + d as nat;
    var f := Fields(map[9 := Text([97])], {9});
    OneMoreRead(d);
    assert Absorb(NOTHING, 9, [97]) == Took(f);
    TakenIff(f, n, []);
    assert f.seen + {n} == {9, n};
    var last := Read(Opt(n, []), Stop(7, true));
    assert AbsorbAll(NOTHING, OptionsOf(OneMore(d))) == AbsorbAll(f, last);
    ParseForm(OneMore(d), 0, 1, 7, 2);
  }

  // ---------------------------------------------------------------- repeated options

  // `n` options with this number, and the numbers in them
  predicate AllOf(r: Raw, number: nat)
    decreases r
  {
    r.Read? ==> r.o.number == number && AllOf(r.next, number)
  }

  function NumbersIn(r: Raw): seq<nat>
    decreases r
  {
    if r.Stop? then [] else [BytesInt(r.o.value) % 0x1_0000] + NumbersIn(r.next)
  }

  function FirstTwo(vs: seq<nat>): seq<nat> { if |vs| <= 2 then vs else vs[..2] }

  // The numbers of the options Accept so far
  function Accepts(f: Fields): seq<nat> { if 12 in f.values && f.values[12].List? then f.values[12].vs else [] }

  predicate AtMostTwo(f: Fields) { |Accepts(f)| <= 2 }

  lemma AcceptTaken(f: Fields, bytes: seq<byte>)
    requires AtMostTwo(f)
    ensures var vs := FirstTwo(Accepts(f) + [BytesInt(bytes) % 0x1_0000]);
      Absorb(f, 12, bytes) == Took(Fields(f.values[12 := List(vs)], f.seen + {12}))
  {
    var more := Accepts(f) + [BytesInt(bytes) % 0x1_0000];
    assert |Accepts(f)| == 2 ==> more[..2] == Accepts(f);
  }

  /** Of an opaque value the first eight bytes are kept. */
  lemma OpaqueKept(f: Fields, n: nat, bytes: seq<byte>)
    requires n in {4, 11, 13}
    ensures Absorb(f, n, bytes).Took? && n in Absorb(f, n, bytes).fields.values
    ensures var v := Absorb(f, n, bytes).fields.values[n];
      v.Blob? && v.bytes <= bytes && |v.bytes| == if |bytes| < 8 then |bytes| else 8
  {
  }

  /** Of the options Accept the first two count. */
  lemma {:induction false} TwoAccepts(f: Fields, r: Raw)
    requires AllOf(r, 12) && AtMostTwo(f) && AbsorbAll(f, r).Done?
    ensures AbsorbAll(f, r).fields.values ==
      if r.Stop? then f.values else f.values[12 := List(FirstTwo(Accepts(f) + NumbersIn(r)))]
    decreases r
  {
    if r.Read? {
      AcceptTaken(f, r.o.value);
      var v := BytesInt(r.o.value) % 0x1_0000;
      var g := Absorb(f, 12, r.o.value).fields;
      TwoAccepts(g, r.next);
      FirstTwoMore(Accepts(f), v, NumbersIn(r.next));
      assert Accepts(f) + [v] + [] == Accepts(f) + [v];
    }
  }

  lemma FirstTwoMore(vs: seq<nat>, v: nat, more: seq<nat>)
    requires |vs| <= 2
    ensures FirstTwo(FirstTwo(vs + [v]) + more) == FirstTwo(vs + ([v] + more))
  {
    assert vs + ([v] + more) == (vs + [v]) + more;
  }

  // ---------------------------------------------------------------- what is written

  predicate Without(sep: byte, bytes: seq<byte>) { sep !in bytes }

  /**
   An option as the table of the draft has it: numbers of at most two or four bytes, opaque values of at most eight, an
   empty If-None-Match, and path segments and query arguments that have no separator but as their first byte.
   */
  predicate InTable(o: Opt) {
    && o.number in KNOWN - {14}
    && (o.number in {1, 7, 10, 12} ==> |o.value| <= 2)
    && (o.number in {2, 17, 19} ==> |o.value| <= 4)
    && (o.number in {4, 11, 13} ==> |o.value| <= 8)
    && (o.number == 21 ==> o.value == [])
    && (o.number in {6, 9} && o.value != [] ==> Without(0x2f, o.value[1..]))
    && (o.number in {8, 15} && o.value != [] ==> Without(0x26, o.value[1..]))
  }

  // 256^n
  function Power(n: nat): nat { if n == 0 then 1 else 256 * Power(n - 1) }

  lemma {:induction false} IntLength(v: nat, n: nat)
    requires v < Power(n)
    ensures |IntBytes(v)| <= n
    decreases n
  {
    if v > 0 {
      assert n > 0 && v / 256 < Power(n - 1);
      IntLength(v / 256, n - 1);
    }
  }

  lemma ShortInts(v: nat)
    ensures v < 0x1_0000 ==> |IntBytes(v)| <= 2
    ensures v < 0x1_0000_0000 ==> |IntBytes(v)| <= 4
  {
    assert Power(1) == 256 && Power(2) == 0x1_0000 && Power(3) == 0x100_0000 && Power(4) == 0x1_0000_0000;
    if v < 0x1_0000 {
      IntLength(v, 2);
    }
    if v < 0x1_0000_0000 {
      IntLength(v, 4);
    }
  }

  // A part that has no separator behind its first byte
  predicate PartOk(part: seq<byte>, sep: byte) { part != [] ==> Without(sep, part[1..]) }

  lemma {:induction false} PartsOk(s: seq<byte>, sep: byte, start: nat, j: nat)
    requires start <= j <= |s| && forall i | start < i < j :: s[i] != sep
    ensures forall part | part in PartsFrom(s, sep, start, j) :: PartOk(part, sep)
    decreases |s| - j
  {
    if j == |s| {
      assert forall i | 0 <= i < |s[start..]| :: s[start..][i] == s[start + i];
    } else if s[j] == sep {
      var k := SkipSlashes(s, j + 1);
      assert forall i | 0 <= i < j - start :: s[start..j][i] == s[start + i];
      assert PartOk(s[start..j], sep);
      if k < |s| {
        PartsOk(s, sep, k, k + 1);
        assert PartsFrom(s, sep, start, j) == [s[start..j]] + PartsFrom(s, sep, k, k + 1);
      }
    } else {
      PartsOk(s, sep, start, j + 1);
    }
  }

  lemma {:induction false} NumberBytes(vs: seq<nat>)
    requires forall v | v in vs :: v < 0x1_0000
    ensures forall bytes | bytes in Numbers(vs) :: |bytes| <= 2
    decreases vs
  {
    if vs != [] {
      assert vs[0] in vs && forall v | v in vs[1..] :: v in vs;
      ShortInts(vs[0]);
      NumberBytes(vs[1..]);
    }
  }

  lemma BlockCodeFits(v: Value)
    requires v.Block? && BlockOk(v.num, v.size)
    ensures BlockCode(v.num, v.more, v.size) < 0x1_0000_0000
  {
    var szx :=
      if v.size == 16 then 0 else if v.size == 32 then 1 else if v.size == 64 then 2 else if v.size == 128 then 3
      else if v.size == 256 then 4 else if v.size == 512 then 5 else if v.size == 1024 then 6 else 7;
    assert BlockSize(szx) == v.size;
    BlockRoundTrip(v.num, v.more, szx);
  }

  lemma ValueInTable(n: nat, v: Value, bytes: seq<byte>)
    requires Typed(n, v) && bytes in Encodings(n, v)
    ensures InTable(Opt(n, bytes))
  {
    match KindOf(n)
    case IntKind(_) => ShortInts(v.v);
    case TextKind(sep) =>
      PartsOk(v.text, sep, 0, 0);
      assert PartOk(bytes, sep);
    case AcceptKind => NumberBytes(v.vs);
    case BlockKind =>
      BlockCodeFits(v);
      ShortInts(BlockCode(v.num, v.more, v.size));
    case _ =>
  }

  lemma {:induction false} TagIn(n: nat, bs: seq<seq<byte>>, o: Opt)
    requires o in Tag(n, bs)
    ensures o.number == n && o.value in bs
    decreases bs
  {
    if o != Opt(n, bs[0]) {
      assert Tag(n, bs) == [Opt(n, bs[0])] + Tag(n, bs[1..]);
      TagIn(n, bs[1..], o);
    }
  }

  /** Every option that is written is as in the table. */
  lemma {:induction false} WrittenInTable(values: map<nat, Value>, n: nat, o: Opt)
    requires AllTyped(values) && o in AllOptions(values, n)
    ensures InTable(o) && o.number in values
    decreases LAST_OPTION + 1 - n
  {
    if n in values && o in Tag(n, Encodings(n, values[n])) {
      assert TypedAt(values, n);
      TagIn(n, Encodings(n, values[n]), o);
      ValueInTable(n, values[n], o.value);
    } else {
      WrittenInTable(values, n + 1, o);
    }
  }

  /** Numbers are written with their most significant byte first and without leading zeros. */
  lemma IntBytesFirst(a: byte, b: byte)
    ensures IntBytes(0) == []
    ensures a > 0 ==> IntBytes(a) == [a] && IntBytes(256 * a as nat + b) == [a, b]
  {
    var v := 256 * a as nat + b;
    assert v / 256 == a as nat && v % 256 == b as nat;
    var q := a as nat / 256;
    assert q == 0 && IntBytes(q) == [];
    assert a > 0 ==> IntBytes(a) == IntBytes(q) + [a];
  }

  /** A block option is the number, a bit for more blocks, and three bits for the power of two that is the size. */
  lemma BlockFields(num: nat, more: bool, szx: nat)
    requires szx < 8 && num * BlockSize(szx) < 0x1_0000_0000
    ensures BlockSize(0) == 16 && (szx < 7 ==> BlockSize(szx + 1) == 2 * BlockSize(szx))
    ensures BlockCode(num, more, BlockSize(szx)) == 16 * num + 8 * (if more then 1 else 0) + szx
  {
    LogOfSize(szx);
  }
}
