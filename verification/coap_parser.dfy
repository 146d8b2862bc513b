/**
 The in-place CoAP parser (apps/er-coap-07/er-coap-07.c).  Strings stay in the message: the packet
 points to them, and the parts of one string are moved to the end of the part before.
 */
module CoapParser {
  import opened Bytes
  import opened Coap

  // A field of the packet: a value of its own, or a string in the message
  datatype Slot = Kept(v: Value) | Pointer(at: nat, len: nat)

  // ---------------------------------------------------------------- what the fields mean

  // The field holds the value; strings lie before `end`.
  predicate Holds(s: Slot, v: Value, data: seq<byte>, end: nat) {
    match s
    case Kept(w) => w == v && !v.Text?
    case Pointer(at, len) => at + len <= end && end <= |data| && v == Text(data[at..at + len])
  }

  predicate HoldsAt(slots: map<nat, Slot>, values: map<nat, Value>, data: seq<byte>, current: nat, end: nat, n: nat) {
    n in slots ==> n in values && n <= current && Holds(slots[n], values[n], data, end)
  }

  // The strings of two options lie in the order of their numbers.
  predicate Ordered(slots: map<nat, Slot>, m: nat, n: nat) {
    m in slots && n in slots && m < n && slots[m].Pointer? && slots[n].Pointer? ==>
      slots[m].at + slots[m].len <= slots[n].at
  }

  /**
   The fields hold the values, of options up to number `current`, and their strings lie in the order
   of the option numbers before `end`.
   */
  ghost predicate Layout(slots: map<nat, Slot>, values: map<nat, Value>, data: seq<byte>, current: nat, end: nat) {
    && end <= |data| && slots.Keys == values.Keys
    && (forall n: nat :: HoldsAt(slots, values, data, current, end, n))
    && (forall m: nat, n: nat :: Ordered(slots, m, n))
  }

  // The message after a part has been appended to the string that ends at `end`
  function Appended(data: seq<byte>, end: nat, sep: byte, from: nat, to: nat): seq<byte>
    requires end < from <= to <= |data|
  {
    data[..end] + [sep] + data[from..to] + data[end + 1 + to - from..]
  }

  // Nothing in the message changes, and option `number` gets a value of its own.
  lemma KeepsLayout(slots: map<nat, Slot>, values: map<nat, Value>, data: seq<byte>, current: nat, at: nat,
                    number: nat, v: Value, to: nat)
    requires Layout(slots, values, data, current, at) && current <= number && at <= to <= |data| && !v.Text?
    ensures Layout(slots[number := Kept(v)], values[number := v], data, number, to)
  {
    var slots1, values1 := slots[number := Kept(v)], values[number := v];
    forall n: nat
      ensures HoldsAt(slots1, values1, data, number, to, n)
    {
      assert HoldsAt(slots, values, data, current, at, n);
    }
    forall m: nat, n: nat
      ensures Ordered(slots1, m, n)
    {
      assert Ordered(slots, m, n);
    }
  }

  // The last of the strings begins behind all others.
  lemma PointsLayout(slots: map<nat, Slot>, values: map<nat, Value>, data: seq<byte>, current: nat, at: nat,
                     number: nat, from: nat, to: nat)
    requires Layout(slots, values, data, current, at) && current <= number && at <= from <= to <= |data|
    ensures Layout(slots[number := Pointer(from, to - from)], values[number := Text(data[from..to])], data, number, to)
  {
    var slots1, values1 := slots[number := Pointer(from, to - from)], values[number := Text(data[from..to])];
    forall n: nat
      ensures HoldsAt(slots1, values1, data, number, to, n)
    {
      assert HoldsAt(slots, values, data, current, at, n);
    }
    forall m: nat, n: nat
      ensures Ordered(slots1, m, n)
    {
      assert Ordered(slots, m, n) && HoldsAt(slots, values, data, current, at, m);
      assert HoldsAt(slots, values, data, current, at, n);
    }
  }

  lemma IgnoresLayout(slots: map<nat, Slot>, values: map<nat, Value>, data: seq<byte>, current: nat, at: nat,
                      number: nat, to: nat)
    requires Layout(slots, values, data, current, at) && current <= number && at <= to <= |data|
    ensures Layout(slots, values, data, number, to)
  {
    forall n: nat
      ensures HoldsAt(slots, values, data, number, to, n)
    {
      assert HoldsAt(slots, values, data, current, at, n);
    }
  }

  // The parts of the message that appending leaves alone, and what it makes
  lemma AppendedParts(data: seq<byte>, start: nat, end: nat, sep: byte, from: nat, to: nat)
    requires start <= end < from <= to <= |data|
    ensures var d := Appended(data, end, sep, from, to);
      && |d| == |data| && d[..end] == data[..end] && d[to..] == data[to..]
      && d[start..end + 1 + to - from] == data[start..end] + [sep] + data[from..to]
  {
    var d := Appended(data, end, sep, from, to);
    assert d[start..end + 1 + to - from] == d[..end + 1 + to - from][start..];
  }

  /**
   Appending a part to the last string writes only over bytes that have been read, makes the
   string, and leaves all other strings as they are.
   */
  lemma AppendsLayout(slots: map<nat, Slot>, values: map<nat, Value>, data: seq<byte>, current: nat, at: nat,
                      number: nat, sep: byte, from: nat, to: nat)
    requires Layout(slots, values, data, current, at) && current <= number && at < from <= to <= |data|
    requires number in slots && slots[number].Pointer?
    ensures var s := slots[number]; var end := s.at + s.len;
      end < from && values[number].Text? &&
      Layout(slots[number := Pointer(s.at, s.len + 1 + to - from)],
        values[number := Text(values[number].text + [sep] + data[from..to])],
        Appended(data, end, sep, from, to), number, to)
  {
    var s := slots[number];
    var end := s.at + s.len;
    assert HoldsAt(slots, values, data, current, at, number);
    var d := Appended(data, end, sep, from, to);
    AppendedParts(data, s.at, end, sep, from, to);
    var slots1, values1 := slots[number := Pointer(s.at, s.len + 1 + to - from)],
      values[number := Text(values[number].text + [sep] + data[from..to])];
    forall n: nat
      ensures HoldsAt(slots1, values1, d, number, to, n)
    {
      assert HoldsAt(slots, values, data, current, at, n);
      if n != number && n in slots && slots[n].Pointer? {
        assert Ordered(slots, n, number);
        BeforeEnd(data, d, end, slots[n].at, slots[n].at + slots[n].len);
      }
    }
    forall m: nat, n: nat
      ensures Ordered(slots1, m, n)
    {
      assert Ordered(slots, m, n) && HoldsAt(slots, values, data, current, at, n);
    }
  }

  lemma BeforeEnd(data: seq<byte>, d: seq<byte>, end: nat, from: nat, to: nat)
    requires |d| == |data| && from <= to <= end <= |data| && d[..end] == data[..end]
    ensures d[from..to] == data[from..to]
  {
    assert d[from..to] == d[..end][from..to];
  }

  // coap_parse_int_option
  method ParseInt(data: seq<byte>) returns (v: nat)
    ensures v == BytesInt(data)
  {
    v := 0;
    var i := 0;
    while i < |data|
      invariant 0 <= i <= |data| && v == BytesInt(data[..i])
    {
      v := (v * 256 + data[i]) % 0x1_0000_0000;
      i := i + 1;
      assert data[..i][..i - 1] == data[..i - 1];
    }
    assert data[..|data|] == data;
  }

  // The separator and the memmove of coap_merge_multi_option
  method MoveBehind(data: array<byte>, end: nat, sep: byte, from: nat, to: nat)
    requires end < from <= to <= data.Length
    modifies data
    ensures data[..] == Appended(old(data[..]), end, sep, from, to) && data[to..] == old(data[to..])
  {
    ghost var after := Appended(data[..], end, sep, from, to);
    data[end] := sep;
    forall i | 0 <= i < to - from {
      data[end + 1 + i] := data[from + i];
    }
    forall k | 0 <= k < data.Length
      ensures data[k] == after[k]
    {
      AppendedAt(old(data[..]), end, sep, from, to, k);
    }
  }

  lemma AppendedAt(data: seq<byte>, end: nat, sep: byte, from: nat, to: nat, k: nat)
    requires end < from <= to <= |data| && k < |data|
    ensures Appended(data, end, sep, from, to)[k] ==
      if k == end then sep else if end < k <= end + to - from then data[from + k - end - 1] else data[k]
  {
  }

  // The message from `at` on is as it arrived.
  ghost predicate Unread(data: seq<byte>, message: seq<byte>, at: nat) {
    at <= |message| < |data| && forall k | at <= k < |message| :: data[k] == message[k]
  }

  // Whatever is done before `to` leaves the rest unread.
  lemma StillUnread(before: seq<byte>, after: seq<byte>, message: seq<byte>, at: nat, to: nat)
    requires Unread(before, message, at) && at <= to <= |message| && |after| == |before| && after[to..] == before[to..]
    ensures Unread(after, message, to)
  {
    assert forall k | to <= k < |message| :: after[k] == after[to..][k - to] == before[to..][k - to] == before[k];
  }

  // Reading one more option
  lemma OptionsStep(data: seq<byte>, at: nat, n: nat, current: nat, raw: Raw)
    requires n > 0 && raw == OptionsIn(data, at, n, current)
    ensures if !Inside(data, at) then raw == Stop(at, false)
      else
        var number, from := current + data[at] as nat / 16, at + HeaderSize(data, at);
        var to := from + ValueSize(data, at);
        raw.Read? && raw.o == Opt(number, data[from..to]) && raw.next == OptionsIn(data, to, n - 1, number)
  {
  }

  // An option is refused with an error, or makes `g` of what is known.
  predicate TakenAs(f: Fields, o: Opt, error: nat, g: Fields) {
    match Absorb(f, o.number, o.value)
    case Refused(c) => error == c && error > 0
    case Took(h) => error == 0 && g == h
  }

  lemma AbsorbNext(f: Fields, raw: Raw, error: nat, g: Fields)
    requires raw.Read? && TakenAs(f, raw.o, error, g)
    ensures AbsorbAll(f, raw) == if error > 0 then Failed(error) else AbsorbAll(g, raw.next)
  {
  }

  // The string that an option has so far
  function TextOf(f: Fields, number: nat): seq<byte> {
    if number in f.values && f.values[number].Text? then f.values[number].text else []
  }

  lemma AbsorbText(f: Fields, number: nat, bytes: seq<byte>)
    requires KindOf(number).TextKind?
    ensures Absorb(f, number, bytes) == Took(Fields(
      f.values[number := Text(Merge(TextOf(f, number), bytes, KindOf(number).sep))], f.seen + {number}))
  {
  }

  // ---------------------------------------------------------------- the packet

  /** The packet that the parser fills, with the message it points into */
  class Received {
    const data: array<byte>
    var slots: map<nat, Slot>
    var seen: set<nat>
    var mtype: nat
    var code: byte
    var mid: nat
    var payloadAt: nat
    var payloadLen: nat

    constructor (data: array<byte>)
      ensures this.data == data && slots == map[] && seen == {}
    {
      this.data, slots, seen := data, map[], {};
      mtype, code, mid, payloadAt, payloadLen := 0, 0, 0, 0, 0;
    }

    // The fields say what is known after the options up to the one that ends at `at`.
    ghost predicate Knows(f: Fields, current: nat, at: nat)
      reads this, data
    {
      seen == f.seen && Layout(slots, f.values, data[..], current, at)
    }

    // The number that an option for one value gets
    function Prior(number: nat): Value
      reads this
    {
      if number in slots && slots[number].Kept? then slots[number].v else Present
    }

    // The option is kept as a value of its own.
    method Keep(number: nat, v: Value, ghost f: Fields, ghost current: nat, ghost at: nat, ghost to: nat)
      requires Knows(f, current, at) && current <= number && at <= to <= data.Length && !v.Text?
      modifies this`slots, this`seen
      ensures Knows(Fields(f.values[number := v], f.seen + {number}), number, to)
    {
      KeepsLayout(slots, f.values, data[..], current, at, number, v, to);
      slots := slots[number := Kept(v)];
      seen := seen + {number};
    }

    // The option is only noted.
    method Note(number: nat, ghost f: Fields, ghost current: nat, ghost at: nat, ghost to: nat)
      requires Knows(f, current, at) && current <= number && at <= to <= data.Length
      modifies this`seen
      ensures Knows(Fields(f.values, f.seen + {number}), number, to)
    {
      IgnoresLayout(slots, f.values, data[..], current, at, number, to);
      seen := seen + {number};
    }

    // The option is a string by itself.
    method Point(number: nat, from: nat, to: nat, ghost f: Fields, ghost current: nat, ghost at: nat)
      requires Knows(f, current, at) && current <= number && at <= from <= to <= data.Length
      modifies this`slots, this`seen
      ensures Knows(Fields(f.values[number := Text(data[from..to])], f.seen + {number}), number, to)
    {
      PointsLayout(slots, f.values, data[..], current, at, number, from, to);
      assert data[..][from..to] == data[from..to];
      slots := slots[number := Pointer(from, to - from)];
      seen := seen + {number};
    }

    // The option continues a string: coap_merge_multi_option for a string that is not empty
    method Append(number: nat, sep: byte, from: nat, to: nat, ghost goal: map<nat, Value>)
      requires number in slots && slots[number].Pointer?
      requires slots[number].at + slots[number].len < from <= to <= data.Length
      requires var s := slots[number];
        Layout(slots[number := Pointer(s.at, s.len + 1 + to - from)], goal,
          Appended(data[..], s.at + s.len, sep, from, to), number, to)
      modifies this`slots, this`seen, data
      ensures seen == old(seen) + {number} && Layout(slots, goal, data[..], number, to) && data[to..] == old(data[to..])
    {
      var s := slots[number];
      MoveBehind(data, s.at + s.len, sep, from, to);
      slots := slots[number := Pointer(s.at, s.len + 1 + to - from)];
      seen := seen + {number};
    }

    // The cases of strings in parts
    method TakeText(number: nat, sep: byte, from: nat, to: nat, ghost f: Fields, ghost current: nat, ghost at: nat)
      requires Knows(f, current, at) && current <= number && at < from <= to <= data.Length
      modifies this`slots, this`seen, data
      ensures data[to..] == old(data[to..])
      ensures var text := Text(Merge(TextOf(f, number), old(data[from..to]), sep));
        Knows(Fields(f.values[number := text], f.seen + {number}), number, to)
    {
      assert HoldsAt(slots, f.values, data[..], current, at, number);
      if number in slots && slots[number].Pointer? && slots[number].len > 0 {
        ghost var text := TextOf(f, number);
        AppendsLayout(slots, f.values, data[..], current, at, number, sep, from, to);
        assert data[..][from..to] == data[from..to];
        Append(number, sep, from, to, f.values[number := Text(text + [sep] + data[from..to])]);
      } else {
        assert TextOf(f, number) == [];
        Point(number, from, to, f, current, at);
      }
    }

    // The cases of options with one value each
    method TakeValue(number: nat, from: nat, to: nat, ghost f: Fields, ghost current: nat, ghost at: nat)
      requires var kind := KindOf(number); kind.IntKind? || kind.BlobKind? || kind.BlockKind? || kind.FlagKind?
      requires Knows(f, current, at) && current <= number && at < from <= to <= data.Length
      modifies this`slots, this`seen
      ensures Absorb(f, number, data[from..to]).Took? && Knows(Absorb(f, number, data[from..to]).fields, number, to)
    {
      var bytes := data[from..to];
      var value;
      match KindOf(number)
      case IntKind(limit) =>
        value := ParseInt(bytes);
        Keep(number, Int(if limit == 0x1_0000 then value % 0x1_0000 else value), f, current, at, to);
      case BlobKind =>
        Keep(number, Blob(if |bytes| <= 8 then bytes else bytes[..8]), f, current, at, to);
      case BlockKind =>
        value := ParseInt(bytes);
        Keep(number, BlockOf(value), f, current, at, to);
      case FlagKind =>
        Keep(number, Present, f, current, at, to);
    }

    // The case of Accept
    method TakeAccept(number: nat, from: nat, to: nat, ghost f: Fields, ghost current: nat, ghost at: nat)
      requires KindOf(number).AcceptKind?
      requires Knows(f, current, at) && current <= number && at < from <= to <= data.Length
      modifies this`slots, this`seen
      ensures Absorb(f, number, data[from..to]).Took? && Knows(Absorb(f, number, data[from..to]).fields, number, to)
    {
      assert HoldsAt(slots, f.values, data[..], current, at, number);
      var prior := Prior(number);
      var vs := if prior.List? then prior.vs else [];
      if |vs| < 2 {
        var value := ParseInt(data[from..to]);
        vs := vs + [value % 0x1_0000];
      }
      Keep(number, List(vs), f, current, at, to);
    }

    // The switch over the option numbers
    method TakeOption(number: nat, from: nat, to: nat, ghost f: Fields, ghost current: nat, ghost at: nat)
      returns (error: nat, ghost g: Fields)
      requires Knows(f, current, at) && current <= number && at < from <= to <= data.Length
      modifies this`slots, this`seen, data
      ensures data[to..] == old(data[to..])
      ensures TakenAs(f, Opt(number, old(data[from..to])), error, g) && (error == 0 ==> Knows(g, number, to))
    {
      ghost var taken := Absorb(f, number, data[from..to]);
      g := if taken.Took? then taken.fields else f;
      error := 0;
      match KindOf(number)
      case ProxyKind => error := PROXYING_NOT_SUPPORTED;
      case OtherKind =>
        if number % 2 == 1 {
          error := BAD_OPTION;
        } else {
          Note(number, f, current, at, to);
        }
      case FenceKind => Note(number, f, current, at, to);
      case HostKind => Point(number, from, to, f, current, at);
      case TextKind(sep) =>
        AbsorbText(f, number, data[from..to]);
        TakeText(number, sep, from, to, f, current, at);
      case AcceptKind => TakeAccept(number, from, to, f, current, at);
      case _ => TakeValue(number, from, to, f, current, at);
    }

    /**
     coap_parse_message for a message of `length` bytes whose options end in it: an error, or the
     header fields, the fields that hold the values, and the payload, with a zero behind it
     */
    method ParseMessage(length: nat) returns (error: nat)
      requires 4 <= length < data.Length && slots == map[] && seen == {}
      requires !Parse(data[..length]).Beyond?
      modifies this, data
      ensures match Parse(old(data[..length]))
        case Error(c) => error == c && error > 0
        case Message(p, bits) => error == 0 && Shows(p, bits)
        case Beyond => true
    {
      ghost var message := data[..length];
      if data[0] / 64 != 1 {
        return BAD_REQUEST;
      }
      mtype, code, mid := data[0] / 16 % 4, data[1], data[2] as nat * 256 + data[3];
      var at;
      ghost var f;
      error, at, f := ParseAll(data[0] % 16, length, message);
      if error > 0 {
        return;
      }
      TakePayload(at, length, message, f);
    }

    // The payload, with a zero behind it
    method TakePayload(at: nat, length: nat, ghost message: seq<byte>, ghost f: Fields)
      requires |message| == length && Unread(data[..], message, at) && exists current :: Knows(f, current, at)
      modifies this`payloadAt, this`payloadLen, data
      ensures payloadAt == at && payloadAt + payloadLen < data.Length && data[payloadAt + payloadLen] == 0
      ensures data[payloadAt..payloadAt + payloadLen] == Shortened(message[at..])
      ensures seen == f.seen && slots.Keys == f.values.Keys
      ensures forall n | n in slots :: Holds(slots[n], f.values[n], data[..], at)
    {
      ghost var before := data[..];
      ghost var current :| Knows(f, current, at);
      payloadAt := at;
      payloadLen := if length - at > MAX_CHUNK_SIZE then MAX_CHUNK_SIZE else length - at;
      data[payloadAt + payloadLen] := 0;
      assert data[payloadAt..payloadAt + payloadLen] == message[at..at + payloadLen] == message[at..][..payloadLen];
      forall n | n in slots
        ensures Holds(slots[n], f.values[n], data[..], at)
      {
        assert HoldsAt(slots, f.values, before, current, at, n);
        if slots[n].Pointer? {
          BeforeEnd(before, data[..], at, slots[n].at, slots[n].at + slots[n].len);
        }
      }
    }

    // The packet shows the message and the bitmap.
    ghost predicate Shows(p: Packet, bits: set<nat>)
      reads this, data
    {
      && mtype == p.mtype && code == p.code && mid == p.mid && seen == bits
      && slots.Keys == p.values.Keys && (forall n | n in slots :: Holds(slots[n], p.values[n], data[..], payloadAt))
      && payloadAt + payloadLen < data.Length && data[payloadAt..payloadAt + payloadLen] == p.payload
      && data[payloadAt + payloadLen] == 0
    }

    // The loop over the options
    method ParseAll(count: nat, length: nat, ghost message: seq<byte>) returns (error: nat, at: nat, ghost f: Fields)
      requires 4 <= length < data.Length && slots == map[] && seen == {} && message == data[..length]
      requires !AbsorbAll(NOTHING, OptionsIn(message, 4, count, 0)).Overrun?
      modifies this`slots, this`seen, data
      ensures match AbsorbAll(NOTHING, OptionsIn(message, 4, count, 0))
        case Failed(c) => error == c && error > 0
        case Done(g, end) =>
          && error == 0 && end == at <= length && f == g && Unread(data[..], message, at)
          && exists current :: Knows(g, current, at)
    {
      ghost var raw := OptionsIn(message, 4, count, 0);
      ghost var outcome := AbsorbAll(NOTHING, raw);
      at, error, f := 4, 0, NOTHING;
      var current: nat, i: nat := 0, 0;
      while i < count
        invariant i <= count && at <= length && error == 0 && Knows(f, current, at)
        invariant Unread(data[..], message, at)
        invariant raw == OptionsIn(message, at, count - i, current) && outcome == AbsorbAll(f, raw)
      {
        ghost var left := count - i;
        error, current, at, f, raw := NextOption(at, current, length, message, left, f, raw, outcome);
        if error > 0 {
          return;
        }
        i := i + 1;
        assert left - 1 == count - i;
      }
    }

    // One option
    method NextOption(at: nat, current: nat, length: nat, ghost message: seq<byte>, ghost n: nat, ghost f: Fields,
                      ghost raw: Raw, ghost outcome: Outcome)
      returns (error: nat, number: nat, to: nat, ghost g: Fields, ghost rest: Raw)
      requires length == |message| && Unread(data[..], message, at) && n > 0
      requires Knows(f, current, at) && raw == OptionsIn(message, at, n, current)
      requires outcome == AbsorbAll(f, raw) && !outcome.Overrun?
      modifies this`slots, this`seen, data
      ensures error > 0 ==> outcome == Failed(error)
      ensures error == 0 ==> to <= length && Knows(g, number, to) && Unread(data[..], message, to)
      ensures error == 0 ==> rest == OptionsIn(message, to, n - 1, number) && outcome == AbsorbAll(g, rest)
    {
      OptionsStep(message, at, n, current, raw);
      rest := raw.next;
      var from;
      number, from, to := ReadHeader(at, current, length, message);
      ghost var before := data[..];
      error, g := TakeOption(number, from, to, f, current, at);
      StillUnread(before, data[..], message, at, to);
      AbsorbNext(f, raw, error, g);
    }

    // The number of the next option and the place of its value
    method ReadHeader(at: nat, current: nat, length: nat, ghost message: seq<byte>)
      returns (number: nat, from: nat, to: nat)
      requires length == |message| && Unread(data[..], message, at) && Inside(message, at)
      ensures number == current + message[at] as nat / 16 && from == at + HeaderSize(message, at)
      ensures to == from + ValueSize(message, at) && data[from..to] == message[from..to]
    {
      number := current + data[at] as nat / 16;
      if data[at] % 16 < 15 {
        from := at + 1;
        to := from + data[at] % 16;
      } else {
        from := at + 2;
        to := from + data[at + 1] as nat + 15;
      }
    }
  }
}
