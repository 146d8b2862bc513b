/**
 The serial line framing of tools/tunslip.c (RFC 1055): the encoder with its output buffer, which
 the system may take in pieces, and the decoder, which may run out of input anywhere.
 */
module Slip {
  import opened Bytes

  const END: byte := 0xc0
  const ESC: byte := 0xdb
  const ESC_END: byte := 0xdc
  const ESC_ESC: byte := 0xdd
  const BUFFER_SIZE := 2000

  // ---------------------------------------------------------------- encoding

  function Escaped(c: byte): (bytes: seq<byte>)
    ensures 1 <= |bytes| <= 2
  {
    if c == END then [ESC, ESC_END] else if c == ESC then [ESC, ESC_ESC] else [c]
  }

  function EscapedAll(p: seq<byte>): seq<byte> {
    if p == [] then [] else Escaped(p[0]) + EscapedAll(p[1..])
  }

  function Frame(p: seq<byte>): seq<byte> { EscapedAll(p) + [END] }

  function Frames(ps: seq<seq<byte>>): seq<byte> {
    if ps == [] then [] else Frame(ps[0]) + Frames(ps[1..])
  }

  // The byte at `i` is not END, and if it is ESC one of the two codes follows it.
  predicate RightAt(bytes: seq<byte>, i: nat)
    requires i < |bytes|
  {
    bytes[i] != 0xc0 && (bytes[i] == 0xdb ==> i + 1 < |bytes| && bytes[i + 1] in {0xdc, 0xdd})
  }

  ghost predicate RightOnLine(bytes: seq<byte>) { forall i: nat | i < |bytes| :: RightAt(bytes, i) }

  lemma RightJoined(x: seq<byte>, y: seq<byte>)
    requires RightOnLine(x) && RightOnLine(y)
    ensures RightOnLine(x + y)
  {
    forall i: nat | i < |x + y|
      ensures RightAt(x + y, i)
    {
      if i < |x| {
        assert RightAt(x, i);
      } else {
        assert RightAt(y, i - |x|);
      }
    }
  }

  /**
   The bytes on the line, as section "Protocol" of RFC 1055 gives them: END only ends a packet, and ESC is
   followed by one of two codes.
   */
  lemma {:induction false} FrameOnLine(p: seq<byte>)
    ensures RightOnLine(EscapedAll(p)) && |p| <= |EscapedAll(p)| <= 2 * |p|
  {
    if p != [] {
      FrameOnLine(p[1..]);
      assert RightOnLine(Escaped(p[0]));
      RightJoined(Escaped(p[0]), EscapedAll(p[1..]));
    }
  }

  // Other bytes are sent as they are.
  lemma {:induction false} PlainOnLine(p: seq<byte>)
    requires 0xc0 !in p && 0xdb !in p
    ensures EscapedAll(p) == p
  {
    if p != [] {
      assert p[0] in p;
      PlainOnLine(p[1..]);
      assert p == [p[0]] + p[1..];
    }
  }

  // The two escapes
  lemma EscapesOnLine()
    ensures Frame([0xc0]) == [0xdb, 0xdc, 0xc0] && Frame([0xdb]) == [0xdb, 0xdd, 0xc0]
  {
    assert [0xc0 as byte][1..] == [] && [0xdb as byte][1..] == [];
    assert EscapedAll([0xc0]) == Escaped(0xc0) && EscapedAll([0xdb]) == Escaped(0xdb);
  }

  // ---------------------------------------------------------------- decoding

  // The bytes of the current packet, whether an ESC was the last byte, and the packets that are complete
  datatype Decoding = Decoding(current: seq<byte>, escaped: bool, packets: seq<seq<byte>>)

  const START := Decoding([], false, [])

  // One more byte of the packet; a packet that fills the buffer is lost.
  function Grow(d: Decoding, c: byte): Decoding {
    Decoding(if |d.current| + 1 >= BUFFER_SIZE then [] else d.current + [c], false, d.packets)
  }

  function Feed(d: Decoding, c: byte): Decoding {
    if d.escaped then Grow(d, if c == ESC_END then END else if c == ESC_ESC then ESC else c)
    else if c == END then Decoding([], false, if d.current == [] then d.packets else d.packets + [d.current])
    else if c == ESC then d.(escaped := true)
    else Grow(d, c)
  }

  function FeedAll(d: Decoding, bytes: seq<byte>): Decoding
    decreases bytes
  {
    if bytes == [] then d else FeedAll(Feed(d, bytes[0]), bytes[1..])
  }

  lemma {:induction false} FeedConcat(d: Decoding, x: seq<byte>, y: seq<byte>)
    ensures FeedAll(d, x + y) == FeedAll(FeedAll(d, x), y)
    decreases x
  {
    if x == [] {
      assert x + y == y;
    } else {
      assert (x + y)[1..] == x[1..] + y;
      FeedConcat(Feed(d, x[0]), x[1..], y);
    }
  }

  lemma FeedEscaped(d: Decoding, c: byte)
    requires !d.escaped && |d.current| + 1 < BUFFER_SIZE
    ensures FeedAll(d, Escaped(c)) == d.(current := d.current + [c])
  {
    var bytes := Escaped(c);
    var next := Feed(d, bytes[0]);
    assert FeedAll(d, bytes) == FeedAll(next, bytes[1..]);
    if |bytes| == 2 {
      assert bytes[1..] == [bytes[1]] && [bytes[1]][1..] == [];
      assert FeedAll(next, [bytes[1]]) == Feed(next, bytes[1]);
    } else {
      assert bytes[1..] == [];
    }
  }

  lemma {:induction false} FeedEscapedAll(d: Decoding, p: seq<byte>)
    requires !d.escaped && |d.current| + |p| < BUFFER_SIZE
    ensures FeedAll(d, EscapedAll(p)) == d.(current := d.current + p)
    decreases p
  {
    if p == [] {
      assert d.current + p == d.current;
    } else {
      var next := d.(current := d.current + [p[0]]);
      FeedConcat(d, Escaped(p[0]), EscapedAll(p[1..]));
      FeedEscaped(d, p[0]);
      FeedEscapedAll(next, p[1..]);
      assert d.current + [p[0]] + p[1..] == d.current + p;
    }
  }

  predicate Sendable(p: seq<byte>) { 0 < |p| < BUFFER_SIZE }

  lemma FeedFrame(d: Decoding, p: seq<byte>)
    requires !d.escaped && d.current == [] && Sendable(p)
    ensures FeedAll(d, Frame(p)) == d.(packets := d.packets + [p])
  {
    FeedConcat(d, EscapedAll(p), [END]);
    FeedEscapedAll(d, p);
    assert d.current + p == p;
    var full := d.(current := p);
    assert [END][1..] == [];
    assert FeedAll(full, [END]) == Feed(full, END);
  }

  /** Decoding the frames of some packets of at most 1999 bytes gives exactly these packets. */
  lemma {:induction false} FeedFrames(d: Decoding, ps: seq<seq<byte>>)
    requires !d.escaped && d.current == [] && forall p | p in ps :: Sendable(p)
    ensures FeedAll(d, Frames(ps)) == d.(packets := d.packets + ps)
    decreases ps
  {
    if ps == [] {
      assert d.packets + ps == d.packets;
    } else {
      var next := d.(packets := d.packets + [ps[0]]);
      FeedConcat(d, Frame(ps[0]), Frames(ps[1..]));
      FeedFrame(d, ps[0]);
      FeedFrames(next, ps[1..]);
      assert d.packets + [ps[0]] + ps[1..] == d.packets + ps;
    }
  }

  lemma {:induction false} PacketsGrow(d: Decoding, x: seq<byte>)
    ensures d.packets <= FeedAll(d, x).packets
    decreases x
  {
    if x != [] {
      PacketsGrow(Feed(d, x[0]), x[1..]);
    }
  }

  // Decoding input that arrives in bursts
  function FeedBursts(d: Decoding, bursts: seq<seq<byte>>): Decoding
    decreases bursts
  {
    if bursts == [] then d else FeedBursts(FeedAll(d, bursts[0]), bursts[1..])
  }

  lemma {:induction false} BurstsDoNotMatter(d: Decoding, bursts: seq<seq<byte>>)
    ensures FeedBursts(d, bursts) == FeedAll(d, Flatten(bursts))
    decreases bursts
  {
    if bursts != [] {
      FeedConcat(d, bursts[0], Flatten(bursts[1..]));
      BurstsDoNotMatter(FeedAll(d, bursts[0]), bursts[1..]);
    }
  }

  /**
   However the stream is cut into bursts: what has left the output buffer decodes to a part of the
   packets written, in order, and once everything has left it to all of them.
   */
  lemma RoundTrip(ps: seq<seq<byte>>, bursts: seq<seq<byte>>, pending: seq<byte>)
    requires (forall p | p in ps :: Sendable(p)) && Flatten(bursts) + pending == Frames(ps)
    ensures FeedBursts(START, bursts).packets <= ps
    ensures pending == [] ==> FeedBursts(START, bursts) == Decoding([], false, ps)
  {
    var out := Flatten(bursts);
    BurstsDoNotMatter(START, bursts);
    FeedFrames(START, ps);
    FeedConcat(START, out, pending);
    PacketsGrow(FeedAll(START, out), pending);
    assert [] + ps == ps;
    if pending == [] {
      assert out + pending == out;
    }
  }

  lemma Regroup<T>(x: seq<T>, y: seq<T>, z: seq<T>)
    ensures x + y + z == x + (y + z)
  {
  }

  // ---------------------------------------------------------------- the output buffer

  /** The buffer of bytes to send; `out` is what the line has taken. */
  class Writer {
    const buffer: array<byte>
    var begin: nat
    var end: nat
    var out: seq<byte>

    constructor ()
      ensures Valid() && fresh(buffer) && Stream() == [] && end == 0
    {
      buffer := new byte[BUFFER_SIZE](_ => 0);
      begin, end, out := 0, 0, [];
    }

    ghost predicate Valid()
      reads this
    {
      buffer.Length == BUFFER_SIZE && begin <= end <= BUFFER_SIZE
    }

    // All bytes that have been put into the buffer
    ghost function Stream(): seq<byte>
      requires Valid()
      reads this, buffer
    {
      out + buffer[begin..end]
    }

    // slip_send; the original exits when the buffer is full.
    method SlipSend(c: byte) returns (ok: bool)
      requires Valid()
      modifies this`end, buffer
      ensures Valid() && ok == (old(end) < BUFFER_SIZE)
      ensures end == if ok then old(end) + 1 else old(end)
      ensures Stream() == if ok then old(Stream()) + [c] else old(Stream())
    {
      if end >= BUFFER_SIZE {
        return false;
      }
      buffer[end] := c;
      end := end + 1;
      assert buffer[begin..end] == old(buffer[begin..end]) + [c];
      ok := true;
    }

    // slip_flushbuf, where the system takes `n` bytes or reports an error that is not fatal
    method FlushBuf(n: int)
      requires Valid() && (n == -1 || 0 <= n <= end - begin)
      modifies this
      ensures Valid() && Stream() == old(Stream())
      ensures out == old(out) + old(buffer[begin..begin + if n < 0 then 0 else n])
    {
      if end == 0 || n == -1 {
        return;
      }
      ghost var taken := buffer[begin..begin + n];
      assert buffer[begin..end] == taken + buffer[begin + n..end];
      out := out + buffer[begin..begin + n];
      begin := begin + n;
      if begin == end {
        begin, end := 0, 0;
      }
    }

    // The escaping of one byte in write_to_serial
    method SendByte(c: byte) returns (ok: bool)
      requires Valid()
      modifies this`end, buffer
      ensures Valid() && ok == (old(end) + |Escaped(c)| <= BUFFER_SIZE)
      ensures ok ==> end == old(end) + |Escaped(c)| && Stream() == old(Stream()) + Escaped(c)
    {
      if c == END {
        ok := SlipSend(ESC);
        if ok {
          ok := SlipSend(ESC_END);
        }
      } else if c == ESC {
        ok := SlipSend(ESC);
        if ok {
          ok := SlipSend(ESC_ESC);
        }
      } else {
        ok := SlipSend(c);
      }
    }

    // The end of write_to_serial: a packet is framed if its frame fits behind what is in the buffer.
    method SendPacket(p: seq<byte>) returns (ok: bool)
      requires Valid()
      modifies this`end, buffer
      ensures Valid() && ok == (old(end) + |Frame(p)| <= BUFFER_SIZE)
      ensures ok ==> Stream() == old(Stream()) + Frame(p)
    {
      ghost var start, there := end, Stream();
      var i := 0;
      assert p[0..] == p;
      while i < |p|
        invariant 0 <= i <= |p| && Valid() && start <= end
        invariant Stream() + EscapedAll(p[i..]) == there + EscapedAll(p)
        invariant end + |EscapedAll(p[i..])| == start + |EscapedAll(p)|
      {
        assert p[i..][1..] == p[i + 1..];
        Regroup(Stream(), Escaped(p[i]), EscapedAll(p[i + 1..]));
        ok := SendByte(p[i]);
        if !ok {
          return;
        }
        i := i + 1;
      }
      assert Stream() == there + EscapedAll(p);
      Regroup(there, EscapedAll(p), [END]);
      ok := SlipSend(END);
    }
  }

  // ---------------------------------------------------------------- the input

  /** The decoder; `input` is what stdio has for it, at most an ESC that was put back. */
  class Reader {
    const inbuf: array<byte>
    var inbufptr: nat
    var input: seq<byte>
    var packets: seq<seq<byte>>

    constructor ()
      ensures Valid() && fresh(inbuf) && State() == START
    {
      inbuf := new byte[BUFFER_SIZE](_ => 0);
      inbufptr, input, packets := 0, [], [];
    }

    ghost predicate Valid()
      reads this
    {
      inbuf.Length == BUFFER_SIZE && inbufptr < BUFFER_SIZE && (input == [] || input == [ESC])
    }

    ghost function State(): Decoding
      requires Valid()
      reads this, inbuf
    {
      Decoding(inbuf[..inbufptr], input == [ESC], packets)
    }

    // One more byte of the packet
    method PutByte(c: byte)
      requires inbuf.Length == BUFFER_SIZE && inbufptr < BUFFER_SIZE
      modifies this`inbufptr, inbuf
      ensures inbufptr < BUFFER_SIZE
      ensures inbuf[..inbufptr] == Grow(Decoding(old(inbuf[..inbufptr]), false, packets), c).current
    {
      inbuf[inbufptr] := c;
      inbufptr := inbufptr + 1;
      if inbufptr >= BUFFER_SIZE {
        inbufptr := 0;
      }
    }

    // serial_to_tun until the input is used up; complete packets go to the checks that follow.
    method SerialToTun(burst: seq<byte>)
      requires Valid()
      modifies this, inbuf
      ensures Valid() && State() == FeedAll(old(State()), burst)
    {
      ghost var goal := FeedAll(State(), burst);
      input := input + burst;
      PutBack(inbuf[..inbufptr], old(input), packets, burst);
      while input != []
        invariant inbuf.Length == BUFFER_SIZE && inbufptr < BUFFER_SIZE
        invariant FeedAll(Decoding(inbuf[..inbufptr], false, packets), input) == goal
        decreases |input|
      {
        var c := input[0];
        if c == END {
          if inbufptr > 0 {
            packets := packets + [inbuf[..inbufptr]];
            inbufptr := 0;
          }
        } else if c == ESC {
          if |input| == 1 {
            assert input == [ESC] && input[1..] == [];
            return;
          }
          input := input[1..];
          c := input[0];
          if c == ESC_END {
            c := END;
          } else if c == ESC_ESC {
            c := ESC;
          }
          PutByte(c);
        } else {
          PutByte(c);
        }
        input := input[1..];
      }
    }
  }

  // An ESC that was put back stands in front of the next burst.
  lemma PutBack(current: seq<byte>, input: seq<byte>, packets: seq<seq<byte>>, burst: seq<byte>)
    requires input == [] || input == [ESC]
    ensures FeedAll(Decoding(current, input == [ESC], packets), burst) ==
      FeedAll(Decoding(current, false, packets), input + burst)
  {
    if input == [] {
      assert input + burst == burst;
    } else {
      assert (input + burst)[1..] == burst;
    }
  }

  // ---------------------------------------------------------------- both ends

  // What happens next: a packet is sent, the system takes some of the buffer, or the other end reads some bytes.
  datatype Action = Send(packet: seq<byte>) | Flush(taken: int) | Read(n: nat)

  // The packets that a run is given
  function Offered(actions: seq<Action>): seq<seq<byte>> {
    if actions == [] then []
    else (if actions[0].Send? then [actions[0].packet] else []) + Offered(actions[1..])
  }

  lemma {:induction false} OfferedConcat(xs: seq<Action>, ys: seq<Action>)
    ensures Offered(xs + ys) == Offered(xs) + Offered(ys)
    decreases xs
  {
    if xs == [] {
      assert xs + ys == ys;
    } else {
      assert (xs + ys)[1..] == xs[1..] + ys;
      OfferedConcat(xs[1..], ys);
    }
  }

  // One more action
  lemma OfferedNext(done: seq<Action>, a: Action)
    ensures Offered(done + [a]) == Offered(done) + if a.Send? then [a.packet] else []
  {
    var last := [a];
    assert |last[1..]| == 0;
    OfferedConcat(done, last);
  }

  lemma {:induction false} FramesNext(ps: seq<seq<byte>>, p: seq<byte>)
    ensures Frames(ps + [p]) == Frames(ps) + Frame(p)
    decreases ps
  {
    if ps == [] {
      assert ps + [p] == [p] && [p][1..] == [];
    } else {
      assert (ps + [p])[1..] == ps[1..] + [p];
      FramesNext(ps[1..], p);
      Regroup(Frame(ps[0]), Frames(ps[1..]), Frame(p));
    }
  }

  // The stream has the frames of the packets that were sent, and the other end has decoded its first `read` bytes.
  ghost predicate Linked(stream: seq<byte>, out: seq<byte>, read: nat, state: Decoding, sent: seq<seq<byte>>) {
    && stream == Frames(sent) && out <= stream && read <= |out| && state == FeedAll(START, out[..read])
    && forall p | p in sent :: Sendable(p)
  }

  // What that means for the packets at the other end
  lemma LinkedPackets(stream: seq<byte>, out: seq<byte>, read: nat, state: Decoding, sent: seq<seq<byte>>)
    requires Linked(stream, out, read, state, sent)
    ensures state.packets <= sent
    ensures read == |stream| ==> state == Decoding([], false, sent)
  {
    assert out[..read] == stream[..read] && stream[..read] + stream[read..] == stream;
    OneBurst(START, out[..read]);
    RoundTrip(sent, [out[..read]], stream[read..]);
  }

  lemma OneBurst(d: Decoding, bytes: seq<byte>)
    ensures FeedBursts(d, [bytes]) == FeedAll(d, bytes) && Flatten([bytes]) == bytes
  {
    var bursts := [bytes];
    assert |bursts[1..]| == 0;
    assert FeedBursts(d, bursts) == FeedBursts(FeedAll(d, bursts[0]), bursts[1..]);
    assert Flatten(bursts) == bursts[0] + Flatten(bursts[1..]);
  }

  /** Both ends; `read` is how many bytes have arrived, and `sent` are the packets whose frames fitted. */
  class Line {
    const writer: Writer
    const reader: Reader
    var read: nat
    var sent: seq<seq<byte>>

    constructor ()
      ensures Valid() && sent == [] && fresh(writer) && fresh(writer.buffer) && fresh(reader) && fresh(reader.inbuf)
    {
      writer := new Writer();
      reader := new Reader();
      read, sent := 0, [];
    }

    ghost predicate Valid()
      reads this, writer, writer.buffer, reader, reader.inbuf
    {
      && writer.Valid() && reader.Valid() && writer.buffer != reader.inbuf
      && Linked(writer.Stream(), writer.out, read, reader.State(), sent)
    }

    // The other end reads at most `n` of the bytes that have left the buffer.
    method ReadSome(n: nat)
      requires Valid()
      modifies this`read, reader, reader.inbuf
      ensures Valid() && read == if old(read) + n < |writer.out| then old(read) + n else |writer.out|
    {
      var next := if read + n < |writer.out| then read + n else |writer.out|;
      FeedConcat(START, writer.out[..read], writer.out[read..next]);
      assert writer.out[..next] == writer.out[..read] + writer.out[read..next];
      reader.SerialToTun(writer.out[read..next]);
      read := next;
    }

    // The system takes at most `n` of the bytes in the buffer.
    method FlushSome(n: int)
      requires Valid()
      modifies writer
      ensures Valid()
    {
      var there := writer.end - writer.begin;
      ghost var out := writer.out;
      writer.FlushBuf(if n < 0 then -1 else if n < there then n else there);
      assert writer.out[..read] == out[..read];
    }

    // A packet is sent, or it does not fit and the original exits.
    method SendNext(p: seq<byte>) returns (ok: bool)
      requires Valid() && Sendable(p)
      modifies this`sent, writer`end, writer.buffer
      ensures ok == (old(writer.end) + |Frame(p)| <= BUFFER_SIZE)
      ensures if ok then Valid() && sent == old(sent) + [p] else sent == old(sent)
    {
      FramesNext(sent, p);
      ok := writer.SendPacket(p);
      if ok {
        sent := sent + [p];
      }
    }

    method Act(a: Action) returns (ok: bool)
      requires Valid() && (a.Send? ==> Sendable(a.packet))
      modifies this, writer, writer.buffer, reader, reader.inbuf
      ensures ok ==> Valid() && sent == old(sent) + if a.Send? then [a.packet] else []
      ensures !ok ==> a.Send? && sent == old(sent) && reader.packets == old(reader.packets)
    {
      ok := true;
      match a
      case Send(p) => ok := SendNext(p);
      case Flush(n) => FlushSome(n);
      case Read(n) => ReadSome(n);
    }

    // One action of a run
    method Step(actions: seq<Action>, i: nat) returns (ok: bool)
      requires Valid() && i < |actions| && sent == Offered(actions[..i])
      requires forall a | a in actions && a.Send? :: Sendable(a.packet)
      modifies this, writer, writer.buffer, reader, reader.inbuf
      ensures ok ==> Valid() && sent == Offered(actions[..i + 1])
      ensures !ok ==> reader.packets <= sent <= Offered(actions)
    {
      LinkedPackets(writer.Stream(), writer.out, read, reader.State(), sent);
      OfferedPrefix(actions, i);
      assert actions[i] in actions;
      ok := Act(actions[i]);
    }

    /**
     A run of sending, flushing and reading in any order and in pieces of any size.  The packets that have arrived are
     always the first of those that were sent, and all of them once nothing is under way.
     */
    method Run(actions: seq<Action>) returns (ok: bool)
      requires Valid() && sent == [] && forall a | a in actions && a.Send? :: Sendable(a.packet)
      modifies this, writer, writer.buffer, reader, reader.inbuf
      ensures reader.packets <= sent <= Offered(actions)
      ensures ok ==> Valid() && sent == Offered(actions)
      ensures ok && read == |writer.Stream()| ==> reader.packets == sent
    {
      ok := true;
      var i := 0;
      assert actions[..0] == [];
      while i < |actions|
        invariant 0 <= i <= |actions| && Valid() && sent == Offered(actions[..i])
        modifies this, writer, writer.buffer, reader, reader.inbuf
      {
        ok := Step(actions, i);
        if !ok {
          return;
        }
        i := i + 1;
      }
      assert actions[..|actions|] == actions;
      LinkedPackets(writer.Stream(), writer.out, read, reader.State(), sent);
    }
  }

  lemma Slices<T>(s: seq<T>, i: nat)
    requires i < |s|
    ensures s[..i + 1] == s[..i] + [s[i]] && s == s[..i] + s[i..]
  {
  }

  lemma OfferedPrefix(actions: seq<Action>, i: nat)
    requires i < |actions|
    ensures Offered(actions[..i + 1]) ==
      Offered(actions[..i]) + if actions[i].Send? then [actions[i].packet] else []
    ensures Offered(actions[..i]) <= Offered(actions)
  {
    Slices(actions, i);
    OfferedNext(actions[..i], actions[i]);
    OfferedStart(actions[..i], actions[i..], actions);
  }

  lemma OfferedStart(done: seq<Action>, rest: seq<Action>, actions: seq<Action>)
    requires actions == done + rest
    ensures Offered(done) <= Offered(actions)
  {
    OfferedConcat(done, rest);
  }
}
