/**
 A CoAP message that does not come back (apps/er-coap-07/er-coap-07.c): its options are 14 apart, so the header counts
 a fence post that is not written, and the payload is read as one more piece of the query.
 */
module CoapSamples {
  import opened Bytes
  import opened Coap
  import opened CoapRoundTrip

  // No option has a number from `n` to `m`.
  lemma {:induction false} NoneBetween(values: map<nat, Value>, n: nat, m: nat, current: nat)
    requires n <= m <= LAST_OPTION + 1 && forall k | k in values :: k < n || m <= k
    ensures AllOptions(values, n) == AllOptions(values, m)
    ensures Counted(values, n, current) == Counted(values, m, current)
    ensures Gaps(values, n, current) == Gaps(values, m, current)
    ensures Fence(values, n, current) == Fence(values, m, current)
    decreases m - n
  {
    if n < m {
      NoneBetween(values, n + 1, m, current);
      assert AllOptions(values, n) == AllOptions(values, n + 1);
    }
  }

  // A content type and a query of one letter
  function Sample(format: nat, letter: byte): map<nat, Value> {
    map[1 := Int(format), 15 := Text([letter])]
  }

  lemma OneNumber(v: nat)
    ensures Encodings(1, Int(v)) == [IntBytes(v)]
  {
  }

  lemma SampleEncodings(format: nat, letter: byte)
    requires 0 < format < 256 && letter != 38
    ensures Encodings(1, Int(format)) == [[format]] && Encodings(15, Text([letter])) == [[letter]]
    ensures AllTyped(Sample(format, letter))
  {
    var q := format / 256;
    assert q == 0 && IntBytes(q) == [] && format % 256 == format;
    assert IntBytes(format) == [format];
    OneNumber(format);
    var text := [letter];
    assert text[0..] == text && PartsFrom(text, 38, 0, 1) == [text];
    assert Parts(text, 38) == PartsFrom(text, 38, 0, 1);
  }

  lemma SampleOptions(format: nat, letter: byte)
    requires 0 < format < 256 && letter != 38
    ensures AllOptions(Sample(format, letter), 1) == [Opt(1, [format]), Opt(15, [letter])]
  {
    var values := Sample(format, letter);
    SampleEncodings(format, letter);
    NoneBetween(values, 2, 15, 1);
    NoneBetween(values, 16, LAST_OPTION + 1, 15);
    TagOne(1, [format]);
    TagOne(15, [letter]);
  }

  lemma TagOne(n: nat, bytes: seq<byte>)
    ensures Tag(n, [bytes]) == [Opt(n, bytes)]
  {
    assert [bytes][1..] == [];
  }

  lemma SampleCounts(format: nat, letter: byte)
    requires 0 < format < 256 && letter != 38
    ensures Counted(Sample(format, letter), 1, 0) == 3 && Gaps(Sample(format, letter), 1, 0) == 1
    ensures !Fence(Sample(format, letter), 1, 0)
  {
    var values := Sample(format, letter);
    SampleEncodings(format, letter);
    NoneBetween(values, 2, 15, 1);
    NoneBetween(values, 16, LAST_OPTION + 1, 15);
  }

  lemma SampleBody(format: nat, letter: byte)
    requires 0 < format < 256 && letter != 38
    ensures AllTyped(Sample(format, letter))
    ensures Body(Sample(format, letter)) == [17, format, 225, letter]
  {
    SampleEncodings(format, letter);
    SampleOptions(format, letter);
    TwoPieces([Opt(1, [format]), Opt(15, [letter])]);
  }

  lemma FlattenTwo(pieces: seq<seq<byte>>)
    requires |pieces| == 2
    ensures Flatten(pieces) == pieces[0] + pieces[1]
  {
    var tail := pieces[1..];
    assert tail == [pieces[1]] && |tail[1..]| == 0;
    assert Flatten(tail) == tail[0] + Flatten(tail[1..]);
  }

  lemma TwoPieces(opts: seq<Opt>)
    requires |opts| == 2 && opts[0].number == 1 && opts[1].number == 15
    requires |opts[0].value| == |opts[1].value| == 1
    ensures Ascending(0, opts) && Encode(0, opts) == [17, opts[0].value[0], 225, opts[1].value[0]]
    ensures Last(0, opts) == 15
  {
    var tail := opts[1..];
    assert tail == [opts[1]] && |tail[1..]| == 0;
    assert Ascending(1, tail) && Last(1, tail) == 15;
    assert Pieces(1, tail) == [OptBytes(1, opts[1])];
    FlattenTwo(Pieces(0, opts));
  }

  // A message with these options
  function SamplePacket(format: nat, letter: byte, payload: seq<byte>): Packet {
    Packet(0, 1, 0, Sample(format, letter), payload)
  }

  /** What is read: the first byte of the payload is the header of one more part of the query. */
  lemma SampleParses(format: nat, letter: byte, more: byte)
    requires 0 < format < 256 && letter != 38
    ensures PacketOk(SamplePacket(format, letter, [1, more])) && Fits(SamplePacket(format, letter, [1, more]))
    ensures Parse(Wire(SamplePacket(format, letter, [1, more]))) ==
      Message(Packet(0, 1, 0, map[1 := Int(format), 15 := Text([letter, 38, more])], []), {1, 15})
  {
    var p := SamplePacket(format, letter, [1, more]);
    SampleBody(format, letter);
    SampleCounts(format, letter);
    WireLooks(p);
    WireParses(p, Wire(p));
    SampleBehind(format, letter, more, Wire(p));
    SampleAbsorbs(format, letter, more);
  }

  lemma SampleBehind(format: nat, letter: byte, more: byte, data: seq<byte>)
    requires 0 < format < 256 && letter != 38
    requires |data| == 10 && data[8..] == [1, more]
    ensures AllTyped(Sample(format, letter))
    ensures Behind(Sample(format, letter), data) == Read(Opt(15, [more]), Stop(10, true))
  {
    SampleBody(format, letter);
    SampleCounts(format, letter);
    SampleOptions(format, letter);
    TwoPieces([Opt(1, [format]), Opt(15, [letter])]);
    assert data[8] == 1 && data[9] == more && data[9..10] == [more];
  }

  lemma SampleAbsorbs(format: nat, letter: byte, more: byte)
    requires 0 < format < 256 && letter != 38
    ensures AbsorbAll(Everything(Sample(format, letter)), Read(Opt(15, [more]), Stop(10, true))) ==
      Done(Fields(map[1 := Int(format), 15 := Text([letter, 38, more])], {1, 15}), 10)
  {
    var values := Sample(format, letter);
    SampleEncodings(format, letter);
    SampleCounts(format, letter);
    var text := [letter];
    assert MergeAll([], Parts(text, 38), 38) == text;
    assert ReturnedFrom(values, 1) == values;
    assert SeenFrom(values, 1, 0) == {1, 15};
    assert text + [38] + [more] == [letter, 38, more];
  }
}
