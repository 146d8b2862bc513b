/**
 The CoAP serializer and the in-place parser on byte buffers (apps/er-coap-07/er-coap-07.c).

 The serializer of the original treats one option after the other in the order of their numbers;
 here this is a loop over the numbers.  The parser leaves strings in the message and merges the
 parts of one string by moving later parts to the end of the first.
 */
module CoapBuffer {
  import opened Bytes
  import opened Coap
  import opened CoapRoundTrip

  // memcpy, memmove
  method Store(buffer: array<byte>, at: nat, bytes: seq<byte>)
    requires at + |bytes| <= buffer.Length
    modifies buffer
    ensures buffer[..at + |bytes|] == old(buffer[..at]) + bytes
    ensures forall k | at + |bytes| <= k < buffer.Length :: buffer[k] == old(buffer[k])
  {
    forall i | 0 <= i < |bytes| {
      buffer[at + i] := bytes[i];
    }
  }

  // coap_set_option_header
  method SetOptionHeader(buffer: array<byte>, at: nat, delta: nat, length: nat) returns (next: nat)
    requires delta < 16 && at + |Header(delta, length)| <= buffer.Length
    modifies buffer
    ensures next == at + |Header(delta, length)| && buffer[..next] == old(buffer[..at]) + Header(delta, length)
    ensures forall k | next <= k < buffer.Length :: buffer[k] == old(buffer[k])
  {
    if length < 15 {
      buffer[at] := delta * 16 + length;
      next := at + 1;
    } else {
      buffer[at] := delta * 16 + 15;
      buffer[at + 1] := (length - 15) % 256;
      next := at + 2;
    }
  }

  // coap_insert_option_fence_posts
  method InsertFencePosts(buffer: array<byte>, at: nat, current: nat, number: nat) returns (next: nat, now: nat)
    requires current <= number <= LAST_OPTION && (Far(current, number) ==> at < buffer.Length) && at <= buffer.Length
    modifies buffer
    ensures now == (if Far(current, number) then 14 else current)
    ensures next == (if Far(current, number) then at + 1 else at)
    ensures buffer[..next] == old(buffer[..at]) + if Far(current, number) then Header(14 - current, 0) else []
  {
    next, now := at, current;
    while number > now + 15
      invariant (next == at && now == current) || (next == at + 1 && now == 14 && Far(current, number))
      invariant buffer[..next] == old(buffer[..at]) + if next > at then Header(14 - current, 0) else []
      decreases number - now
    {
      var delta := 14 - now % 14;
      next := SetOptionHeader(buffer, next, delta, 0);
      now := now + delta;
    }
  }

  lemma IntBytesForm(v: nat)
    requires v < 0x1_0000_0000
    ensures IntBytes(v) ==
      (if v >= 0x100_0000 then [v / 0x100_0000] else []) + (if v >= 0x1_0000 then [v / 0x1_0000 % 256] else []) +
      (if v >= 0x100 then [v / 0x100 % 256] else []) + if v >= 1 then [v % 256] else []
  {
    var q := v / 0x100;
    var r := q / 0x100;
    var s := r / 0x100;
    assert r == v / 0x1_0000 && s == v / 0x100_0000;
    assert s < 0x100 && IntBytes(s) == if s == 0 then [] else [s];
    assert IntBytes(r) == IntBytes(s) + if r == 0 then [] else [r % 256];
    assert IntBytes(q) == IntBytes(r) + if q == 0 then [] else [q % 256];
  }

  // The value bytes of an integer option, without leading zeros
  method PutInt(buffer: array<byte>, at: nat, v: nat) returns (next: nat)
    requires v < 0x1_0000_0000 && at + |IntBytes(v)| <= buffer.Length
    modifies buffer
    ensures next == at + |IntBytes(v)| <= at + 4 && buffer[..next] == old(buffer[..at]) + IntBytes(v)
  {
    IntBytesForm(v);
    next := at;
    if v >= 0x100_0000 {
      buffer[next] := v / 0x100_0000;
      next := next + 1;
    }
    if v >= 0x1_0000 {
      buffer[next] := v / 0x1_0000 % 256;
      next := next + 1;
    }
    if v >= 0x100 {
      buffer[next] := v / 0x100 % 256;
      next := next + 1;
    }
    if v >= 1 {
      buffer[next] := v % 256;
      next := next + 1;
    }
  }

  // What is there, a fence post if it is needed, the header and the value
  lemma FenceThenOption(current: nat, o: Opt, there: seq<byte>, fenced: seq<byte>, header: seq<byte>)
    requires current <= o.number <= LAST_OPTION
    requires fenced == there + if Far(current, o.number) then Header(14 - current, 0) else []
    requires header == Header(o.number - if Far(current, o.number) then 14 else current, |o.value|)
    ensures fenced + header + o.value == there + OptBytes(current, o)
  {
    if Far(current, o.number) {
      var fence := Header(14 - current, 0);
      assert there + fence + header + o.value == there + (fence + (header + o.value));
    } else {
      assert there + [] == there && there + header + o.value == there + (header + o.value);
    }
  }

  // The header in front of the value of an integer option
  method HeadInt(buffer: array<byte>, option: nat, delta: nat, next: nat, ghost before: seq<byte>,
                 ghost value: seq<byte>)
    requires delta < 16 && option + 1 <= next <= option + 15 && next <= buffer.Length
    requires |before| == option && buffer[..option] == before && buffer[option + 1..next] == value
    modifies buffer
    ensures buffer[..next] == before + Header(delta, |value|) + value
  {
    var end := SetOptionHeader(buffer, option, delta, next - option - 1);
    assert buffer[option + 1..next] == value;
    assert buffer[..next] == buffer[..end] + buffer[end..next];
  }

  // The value of an integer option is written first, its header afterwards in front of it.
  method PutIntOption(buffer: array<byte>, option: nat, delta: nat, v: nat) returns (next: nat)
    requires delta < 16 && v < 0x1_0000_0000 && option + 1 + |IntBytes(v)| <= buffer.Length
    modifies buffer
    ensures next == option + 1 + |IntBytes(v)|
    ensures buffer[..next] == old(buffer[..option]) + Header(delta, |IntBytes(v)|) + IntBytes(v)
  {
    ghost var before, there := buffer[..option], buffer[..option + 1];
    next := PutInt(buffer, option + 1, v);
    assert buffer[option + 1..next] == buffer[..next][option + 1..];
    assert buffer[..option] == buffer[..next][..option] == there[..option] == before;
    HeadInt(buffer, option, delta, next, before, IntBytes(v));
  }

  // coap_serialize_int_option
  method SerializeInt(buffer: array<byte>, at: nat, number: nat, current: nat, v: nat) returns (next: nat)
    requires v < 0x1_0000_0000 && current <= number <= LAST_OPTION
    requires at + OptSize(current, Opt(number, IntBytes(v))) <= buffer.Length
    modifies buffer
    ensures next == at + OptSize(current, Opt(number, IntBytes(v)))
    ensures buffer[..next] == old(buffer[..at]) + OptBytes(current, Opt(number, IntBytes(v)))
  {
    IntBytesForm(v);
    var option, now := InsertFencePosts(buffer, at, current, number);
    ghost var before, value := buffer[..option], IntBytes(v);
    next := PutIntOption(buffer, option, number - now, v);
    FenceThenOption(current, Opt(number, value), old(buffer[..at]), before, Header(number - now, |value|));
  }

  // A header and a value
  method PutOption(buffer: array<byte>, at: nat, delta: nat, value: seq<byte>) returns (next: nat)
    requires delta < 16 && at + |Header(delta, |value|)| + |value| <= buffer.Length
    modifies buffer
    ensures next == at + |Header(delta, |value|)| + |value|
    ensures buffer[..next] == old(buffer[..at]) + Header(delta, |value|) + value
  {
    var from := SetOptionHeader(buffer, at, delta, |value|);
    Store(buffer, from, value);
    next := from + |value|;
  }

  // coap_serialize_array_option for a value that is not split
  method SerializeArray(buffer: array<byte>, at: nat, number: nat, current: nat, value: seq<byte>) returns (next: nat)
    requires current <= number <= LAST_OPTION && at + OptSize(current, Opt(number, value)) <= buffer.Length
    modifies buffer
    ensures next == at + OptSize(current, Opt(number, value))
    ensures buffer[..next] == old(buffer[..at]) + OptBytes(current, Opt(number, value))
  {
    var option, now := InsertFencePosts(buffer, at, current, number);
    ghost var before := buffer[..option];
    next := PutOption(buffer, option, number - now, value);
    FenceThenOption(current, Opt(number, value), old(buffer[..at]), before, Header(number - now, |value|));
  }

  // The bytes of options with one number, the first with this difference
  function PartBytes(delta: nat, parts: seq<seq<byte>>): seq<byte>
    requires delta < 16
    decreases parts
  {
    if parts == [] then [] else Header(delta, |parts[0]|) + parts[0] + PartBytes(0, parts[1..])
  }

  lemma PartBytesStep(delta: nat, part: seq<byte>, parts: seq<seq<byte>>, there: seq<byte>)
    requires delta < 16
    ensures there + PartBytes(delta, [part] + parts) == there + Header(delta, |part|) + part + PartBytes(0, parts)
  {
    assert ([part] + parts)[1..] == parts;
    assert there + (Header(delta, |part|) + part + PartBytes(0, parts))
        == there + Header(delta, |part|) + part + PartBytes(0, parts);
  }

  lemma {:induction false} SameNumberBytes(number: nat, parts: seq<seq<byte>>)
    requires number <= LAST_OPTION
    ensures Ascending(number, Tag(number, parts)) && Encode(number, Tag(number, parts)) == PartBytes(0, parts)
    decreases parts
  {
    var opts := Tag(number, parts);
    if parts != [] {
      assert opts[1..] == Tag(number, parts[1..]);
      SameNumberBytes(number, parts[1..]);
      assert Pieces(number, opts)[1..] == Pieces(number, opts[1..]);
    }
  }

  lemma TagFirst(current: nat, number: nat, parts: seq<seq<byte>>)
    requires current <= number <= LAST_OPTION && parts != [] && Ascending(number, Tag(number, parts[1..]))
    ensures Ascending(current, Tag(number, parts))
    ensures Pieces(current, Tag(number, parts)) ==
      [OptBytes(current, Opt(number, parts[0]))] + Pieces(number, Tag(number, parts[1..]))
  {
    assert Tag(number, parts)[1..] == Tag(number, parts[1..]);
  }

  lemma FlattenFirst(piece: seq<byte>, pieces: seq<seq<byte>>)
    ensures Flatten([piece] + pieces) == piece + Flatten(pieces)
  {
    assert ([piece] + pieces)[1..] == pieces;
  }

  // The fence post and the parts make the options.
  lemma TaggedBytes(current: nat, number: nat, parts: seq<seq<byte>>)
    requires current <= number <= LAST_OPTION && parts != []
    ensures Ascending(current, Tag(number, parts))
    ensures Encode(current, Tag(number, parts)) ==
      if Far(current, number) then Header(14 - current, 0) + PartBytes(number - 14, parts)
      else PartBytes(number - current, parts)
  {
    SameNumberBytes(number, parts[1..]);
    TagFirst(current, number, parts);
    FlattenFirst(OptBytes(current, Opt(number, parts[0])), Pieces(number, Tag(number, parts[1..])));
  }

  // The parts of a string that are still to be written
  function PartsLeft(text: seq<byte>, sep: byte, start: nat, j: nat): seq<seq<byte>> {
    if start <= j <= |text| then PartsFrom(text, sep, start, j) else []
  }

  lemma PartsGoOn(text: seq<byte>, sep: byte, start: nat, j: nat)
    requires j < |text| && text[j] != sep
    ensures PartsLeft(text, sep, start, j) == if start <= j then PartsLeft(text, sep, start, j + 1) else []
  {
  }

  // coap_serialize_array_option for a string in parts, which are counted; the bytes behind the string,
  // which the original looks at, make no difference.
  method SerializeParts(buffer: array<byte>, at: nat, number: nat, current: nat, text: seq<byte>, sep: byte)
    returns (next: nat, count: nat)
    requires current <= number <= LAST_OPTION && Ascending(current, Tag(number, Parts(text, sep)))
    requires at + |Encode(current, Tag(number, Parts(text, sep)))| <= buffer.Length
    modifies buffer
    ensures count == |Parts(text, sep)| && next == at + |Encode(current, Tag(number, Parts(text, sep)))|
    ensures buffer[..next] == old(buffer[..at]) + Encode(current, Tag(number, Parts(text, sep)))
  {
    TaggedBytes(current, number, Parts(text, sep));
    ghost var there, goal := buffer[..at], buffer[..at] + Encode(current, Tag(number, Parts(text, sep)));
    var now: nat;
    next, now := InsertFencePosts(buffer, at, current, number);
    FenceThenParts(current, number, there, buffer[..next], PartBytes(number - now, Parts(text, sep)), goal);
    next, count := PutParts(buffer, next, number, now, text, sep, goal);
  }

  lemma FenceThenParts(current: nat, number: nat, there: seq<byte>, fenced: seq<byte>, parts: seq<byte>,
                       goal: seq<byte>)
    requires current <= number <= LAST_OPTION
    requires fenced == there + if Far(current, number) then Header(14 - current, 0) else []
    requires goal == there + if Far(current, number) then Header(14 - current, 0) + parts else parts
    ensures fenced + parts == goal
  {
  }

  // One part, and the place where the next one starts
  method PutPart(buffer: array<byte>, at: nat, number: nat, current: nat, text: seq<byte>, sep: byte, start: nat,
                 j: nat, ghost left: seq<seq<byte>>, ghost goal: seq<byte>)
    returns (next: nat, now: nat, from: nat, ghost more: seq<seq<byte>>)
    requires current <= number <= current + 15 && start <= j <= |text| && (j == |text| || text[j] == sep)
    requires at <= buffer.Length && |goal| <= buffer.Length && left == PartsFrom(text, sep, start, j)
    requires buffer[..at] + PartBytes(number - current, left) == goal
    modifies buffer
    ensures now == number && next <= buffer.Length && j < from
    ensures more == PartsLeft(text, sep, from, from + 1) && |left| == 1 + |more|
    ensures buffer[..next] + PartBytes(0, more) == goal
  {
    from := j + 1;
    while from < |text| && text[from] == 0x2f
      invariant j < |text| ==> from <= |text| && SkipSlashes(text, from) == SkipSlashes(text, j + 1)
      invariant j < from && (j == |text| ==> from == j + 1)
    {
      from := from + 1;
    }
    more := PartsLeft(text, sep, from, from + 1);
    assert text[start..] == text[start..|text|];
    assert j < |text| ==> SkipSlashes(text, j + 1) == from;
    assert PartsFrom(text, sep, start, j) == [text[start..j]] + more;
    PartBytesStep(number - current, text[start..j], more, buffer[..at]);
    next := PutOption(buffer, at, number - current, text[start..j]);
    now := number;
  }

  // What is written and the parts that are left make the goal; `start` and `j` are in the text until it ends.
  ghost predicate Parting(text: seq<byte>, sep: byte, delta: int, start: nat, j: nat, left: seq<seq<byte>>,
                          there: seq<byte>, goal: seq<byte>)
  {
    && 0 <= delta <= 15 && left == PartsLeft(text, sep, start, j) && there + PartBytes(delta, left) == goal
    && if j <= |text| then start <= j else left == []
  }

  // One turn of the loop over a string
  method PartTurn(buffer: array<byte>, at: nat, number: nat, current: nat, text: seq<byte>, sep: byte, start: nat,
                  j: nat, ghost left: seq<seq<byte>>, ghost goal: seq<byte>)
    returns (next: nat, now: nat, from: nat, to: nat, n: nat, ghost more: seq<seq<byte>>)
    requires at <= buffer.Length && |goal| <= buffer.Length && j <= |text|
    requires Parting(text, sep, number - current, start, j, left, buffer[..at], goal)
    modifies buffer
    ensures next <= buffer.Length && j < to && n + |more| == |left|
    ensures Parting(text, sep, number - now, from, to, more, buffer[..next], goal)
  {
    if j == |text| || text[j] == sep {
      next, now, from, more := PutPart(buffer, at, number, current, text, sep, start, j, left, goal);
      to, n := from + 1, 1;
    } else {
      next, now, from, to, n, more := at, current, start, j + 1, 0, left;
      PartsGoOn(text, sep, start, j);
    }
  }

  // The loop over a string
  method PutParts(buffer: array<byte>, at: nat, number: nat, current: nat, text: seq<byte>, sep: byte,
                  ghost goal: seq<byte>)
    returns (next: nat, count: nat)
    requires current <= number <= current + 15 && at <= buffer.Length && |goal| <= buffer.Length
    requires buffer[..at] + PartBytes(number - current, Parts(text, sep)) == goal
    modifies buffer
    ensures count == |Parts(text, sep)| && next == |goal| && buffer[..next] == goal
  {
    var j: nat, start: nat, now: nat, n := 0, 0, current, 0;
    next, count := at, 0;
    ghost var left := Parts(text, sep);
    while j <= |text|
      invariant next <= buffer.Length && Parting(text, sep, number - now, start, j, left, buffer[..next], goal)
      invariant count + |left| == |Parts(text, sep)|
      decreases |text| + 1 - j
    {
      next, now, start, j, n, left := PartTurn(buffer, next, number, now, text, sep, start, j, left, goal);
      count := count + n;
    }
    assert left == [];
  }

  // ---------------------------------------------------------------- whole values and messages

  // The bytes of all options of a value
  function ValueBytes(current: nat, n: nat, v: Value): seq<byte>
    requires current <= n && Typed(n, v)
  {
    TaggedBytes(current, n, Encodings(n, v));
    Encode(current, Tag(n, Encodings(n, v)))
  }

  lemma OneOption(current: nat, n: nat, bytes: seq<byte>)
    requires current <= n <= LAST_OPTION
    ensures Ascending(current, Tag(n, [bytes])) && Encode(current, Tag(n, [bytes])) == OptBytes(current, Opt(n, bytes))
  {
    TaggedBytes(current, n, [bytes]);
    assert [bytes][1..] == [];
    var opts := Tag(n, [bytes]);
    assert opts == [Opt(n, bytes)] && Pieces(current, opts) == [OptBytes(current, Opt(n, bytes))];
    assert Flatten(Pieces(current, opts)) == OptBytes(current, Opt(n, bytes)) + Flatten(Pieces(current, opts)[1..]);
  }

  lemma {:induction false} AscendingConcat(current: nat, xs: seq<Opt>, ys: seq<Opt>)
    requires Ascending(current, xs + ys)
    ensures Ascending(current, xs) && Ascending(Last(current, xs), ys)
    decreases xs
  {
    if xs == [] {
      assert xs + ys == ys;
    } else {
      assert (xs + ys)[1..] == xs[1..] + ys;
      AscendingConcat(xs[0].number, xs[1..], ys);
    }
  }

  lemma {:induction false} PiecesConcat(current: nat, xs: seq<Opt>, ys: seq<Opt>)
    requires Ascending(current, xs + ys) && Ascending(current, xs) && Ascending(Last(current, xs), ys)
    ensures Pieces(current, xs + ys) == Pieces(current, xs) + Pieces(Last(current, xs), ys)
    decreases xs
  {
    if xs == [] {
      assert xs + ys == ys;
    } else {
      var first, next := [OptBytes(current, xs[0])], xs[0].number;
      assert (xs + ys)[1..] == xs[1..] + ys;
      PiecesConcat(next, xs[1..], ys);
      assert Pieces(current, xs + ys) == first + Pieces(next, xs[1..] + ys);
      assert Pieces(current, xs) == first + Pieces(next, xs[1..]);
    }
  }

  lemma EncodeConcat(current: nat, xs: seq<Opt>, ys: seq<Opt>)
    requires Ascending(current, xs + ys)
    ensures Ascending(current, xs) && Ascending(Last(current, xs), ys)
    ensures Encode(current, xs + ys) == Encode(current, xs) + Encode(Last(current, xs), ys)
  {
    AscendingConcat(current, xs, ys);
    PiecesConcat(current, xs, ys);
    FlattenConcat(Pieces(current, xs), Pieces(Last(current, xs), ys));
  }

  // Two numbers for one option
  method SerializeBoth(buffer: array<byte>, at: nat, n: nat, current: nat, v: nat, w: nat) returns (next: nat)
    requires v < 0x1_0000_0000 && w < 0x1_0000_0000 && current <= n <= LAST_OPTION
    requires at + OptSize(current, Opt(n, IntBytes(v))) + OptSize(n, Opt(n, IntBytes(w))) <= buffer.Length
    modifies buffer
    ensures next == at + OptSize(current, Opt(n, IntBytes(v))) + OptSize(n, Opt(n, IntBytes(w)))
    ensures buffer[..next] ==
      old(buffer[..at]) + OptBytes(current, Opt(n, IntBytes(v))) + OptBytes(n, Opt(n, IntBytes(w)))
  {
    next := SerializeInt(buffer, at, n, current, v);
    next := SerializeInt(buffer, next, n, n, w);
  }

  // The numbers of an Accept option
  method SerializeNumbers(buffer: array<byte>, at: nat, n: nat, current: nat, vs: seq<nat>)
    returns (next: nat, count: nat)
    requires KindOf(n).AcceptKind? && current <= n && Typed(n, List(vs))
    requires at + |ValueBytes(current, n, List(vs))| <= buffer.Length
    modifies buffer
    ensures count == |vs| && next == at + |ValueBytes(current, n, List(vs))|
    ensures buffer[..next] == old(buffer[..at]) + ValueBytes(current, n, List(vs))
  {
    assert vs[0] in vs;
    OneOption(current, n, IntBytes(vs[0]));
    if |vs| == 1 {
      assert Numbers(vs) == [IntBytes(vs[0])];
      next := SerializeInt(buffer, at, n, current, vs[0]);
    } else {
      assert vs[1] in vs;
      TwoOptions(current, n, vs);
      next := SerializeBoth(buffer, at, n, current, vs[0], vs[1]);
    }
    count := |vs|;
  }

  lemma TwoOptions(current: nat, n: nat, vs: seq<nat>)
    requires KindOf(n).AcceptKind? && current <= n && Typed(n, List(vs)) && |vs| == 2
    ensures ValueBytes(current, n, List(vs)) ==
      OptBytes(current, Opt(n, IntBytes(vs[0]))) + OptBytes(n, Opt(n, IntBytes(vs[1])))
  {
    var a, b := IntBytes(vs[0]), IntBytes(vs[1]);
    assert vs[1..] == [vs[1]] && Numbers(vs[1..]) == [b] && Numbers(vs) == [a, b];
    TaggedBytes(current, n, Numbers(vs));
    assert [a, b][1..] == [b];
    assert Tag(n, [a, b]) == Tag(n, [a]) + Tag(n, [b]);
    EncodeConcat(current, Tag(n, [a]), Tag(n, [b]));
    LastTag(current, n, [a]);
    OneOption(current, n, a);
    OneOption(n, n, b);
  }

  // The part of coap_serialize_message for one option that is set
  method SerializeValue(buffer: array<byte>, at: nat, n: nat, current: nat, v: Value) returns (next: nat, count: nat)
    requires current <= n && Typed(n, v) && at + |ValueBytes(current, n, v)| <= buffer.Length
    modifies buffer
    ensures count == |Encodings(n, v)| && next == at + |ValueBytes(current, n, v)|
    ensures buffer[..next] == old(buffer[..at]) + ValueBytes(current, n, v)
  {
    count := 1;
    match v
    case Int(i) =>
      OneOption(current, n, IntBytes(i));
      next := SerializeInt(buffer, at, n, current, i);
    case Blob(bytes) =>
      OneOption(current, n, bytes);
      next := SerializeArray(buffer, at, n, current, bytes);
    case Text(text) =>
      if KindOf(n).TextKind? {
        TaggedBytes(current, n, Parts(text, KindOf(n).sep));
        next, count := SerializeParts(buffer, at, n, current, text, KindOf(n).sep);
      } else {
        OneOption(current, n, text);
        next := SerializeArray(buffer, at, n, current, text);
      }
    case List(vs) =>
      next, count := SerializeNumbers(buffer, at, n, current, vs);
    case Block(num, more, size, _) =>
      BlockCodeFits(num, more, size);
      OneOption(current, n, IntBytes(BlockCode(num, more, size)));
      next := SerializeInt(buffer, at, n, current, BlockCode(num, more, size));
    case Present =>
      OneOption(current, n, []);
      next := SerializeInt(buffer, at, n, current, 0);
  }

  lemma BlockCodeFits(num: nat, more: bool, size: nat)
    requires BlockOk(num, size)
    ensures BlockCode(num, more, size) < 0x1_0000_0000
  {
    var szx := if size == 16 then 0 else if size == 32 then 1 else if size == 64 then 2 else if size == 128 then 3
      else if size == 256 then 4 else if size == 512 then 5 else if size == 1024 then 6 else 7;
    assert BlockSize(szx) == size;
    BlockRoundTrip(num, more, szx);
  }

  // The bytes of the options from `n` on
  function BodyFrom(values: map<nat, Value>, n: nat, current: nat): seq<byte>
    requires AllTyped(values) && current <= n
  {
    CountedIsEmitted(values, n, current);
    Encode(current, AllOptions(values, n))
  }

  lemma BodyNext(values: map<nat, Value>, n: nat, current: nat)
    requires AllTyped(values) && current <= n <= LAST_OPTION
    ensures BodyFrom(values, n, current) ==
      if n in values then (assert TypedAt(values, n); ValueBytes(current, n, values[n])) + BodyFrom(values, n + 1, n)
      else BodyFrom(values, n + 1, current)
  {
    CountedIsEmitted(values, n, current);
    if n in values {
      var opts := Tag(n, Encodings(n, values[n]));
      assert TypedAt(values, n);
      EncodeConcat(current, opts, AllOptions(values, n + 1));
      LastTag(current, n, Encodings(n, values[n]));
    } else {
      assert AllOptions(values, n) == AllOptions(values, n + 1);
    }
  }

  // These bytes and this count are those of the options with numbers below `n`, the last of them `current`.
  ghost predicate SoFar(values: map<nat, Value>, n: nat, current: nat, bytes: seq<byte>, count: nat) {
    && AllTyped(values) && current < n
    && bytes + BodyFrom(values, n, current) == Body(values)
    && count + Counted(values, n, current) == Counted(values, 1, 0)
  }

  lemma SoFarStart(values: map<nat, Value>)
    requires AllTyped(values)
    ensures SoFar(values, 1, 0, [], 0)
  {
    assert [] + BodyFrom(values, 1, 0) == Body(values);
  }

  lemma SoFarNext(values: map<nat, Value>, n: nat, current: nat, bytes: seq<byte>, count: nat)
    requires SoFar(values, n, current, bytes, count) && n <= LAST_OPTION
    ensures n !in values ==> SoFar(values, n + 1, current, bytes, count)
    ensures n in values ==> Typed(n, values[n]) && |bytes| + |ValueBytes(current, n, values[n])| <= |Body(values)|
    ensures n in values ==>
      SoFar(values, n + 1, n, bytes + ValueBytes(current, n, values[n]),
        count + |Encodings(n, values[n])| + Formula(n, current))
  {
    BodyNext(values, n, current);
    assert TypedAt(values, n);
    if n in values {
      var v := ValueBytes(current, n, values[n]);
      assert bytes + (v + BodyFrom(values, n + 1, n)) == bytes + v + BodyFrom(values, n + 1, n);
    }
  }

  lemma SoFarEnd(values: map<nat, Value>, n: nat, current: nat, bytes: seq<byte>, count: nat)
    requires SoFar(values, n, current, bytes, count) && n > LAST_OPTION
    ensures bytes == Body(values) && count == Counted(values, 1, 0)
  {
    assert BodyFrom(values, n, current) == [];
  }

  // The loop over the options, from the first byte after the header
  method SerializeOptions(buffer: array<byte>, values: map<nat, Value>) returns (at: nat, count: nat)
    requires AllTyped(values) && 4 + |Body(values)| <= buffer.Length
    modifies buffer
    ensures at == 4 + |Body(values)| && buffer[4..at] == Body(values) && count == Counted(values, 1, 0)
  {
    at, count := 4, 0;
    var current: nat, n: nat := 0, 1;
    SoFarStart(values);
    while n <= LAST_OPTION
      invariant 4 <= at <= buffer.Length && SoFar(values, n, current, buffer[4..at], count)
    {
      SoFarNext(values, n, current, buffer[4..at], count);
      if n in values {
        at, count, current := SerializeNext(buffer, at, n, current, values, count);
      }
      n := n + 1;
    }
    SoFarEnd(values, n, current, buffer[4..at], count);
  }

  // One option that is set
  method SerializeNext(buffer: array<byte>, at: nat, n: nat, current: nat, values: map<nat, Value>, count: nat)
    returns (next: nat, total: nat, number: nat)
    requires current < n <= LAST_OPTION && n in values && Typed(n, values[n]) && 4 <= at
    requires at + |ValueBytes(current, n, values[n])| <= buffer.Length
    modifies buffer
    ensures number == n && next == at + |ValueBytes(current, n, values[n])|
    ensures buffer[4..next] == old(buffer[4..at]) + ValueBytes(current, n, values[n])
    ensures total == count + |Encodings(n, values[n])| + Formula(n, current)
  {
    var more;
    next, more := SerializeValue(buffer, at, n, current, values[n]);
    assert buffer[4..next] == buffer[..next][4..];
    total := count + more + if n >= 15 then (n - current) / 14 else 0;
    number := n;
  }

  // The header fields
  method PutHead(buffer: array<byte>, p: Packet, count: nat)
    requires p.mtype < 4 && p.mid < 0x1_0000 && count == Counted(p.values, 1, 0) && 4 <= buffer.Length
    modifies buffer
    ensures buffer[..4] == Head(p) && buffer[4..] == old(buffer[4..])
  {
    buffer[0] := 64 + p.mtype * 16 + count % 16;
    buffer[1] := p.code;
    buffer[2] := p.mid / 256;
    buffer[3] := p.mid % 256;
  }

  // The options and the payload behind them, or 0 if the options do not fit
  method PutBody(buffer: array<byte>, p: Packet) returns (length: nat, count: nat)
    requires PacketOk(p) && |Wire(p)| <= buffer.Length
    modifies buffer
    ensures length == if Fits(p) then |Wire(p)| else 0
    ensures Fits(p) ==> buffer[4..length] == Body(p.values) + p.payload && count == Counted(p.values, 1, 0)
  {
    var option;
    option, count := SerializeOptions(buffer, p.values);
    if option > MAX_HEADER_SIZE {
      return 0, count;
    }
    ghost var body := buffer[4..option];
    Store(buffer, option, p.payload);
    length := option + |p.payload|;
    assert buffer[4..length] == buffer[..length][4..] == body + p.payload;
  }

  lemma WireParts(p: Packet, data: seq<byte>, length: nat)
    requires PacketOk(p) && length == |Wire(p)| <= |data|
    requires data[..4] == Head(p) && data[4..length] == Body(p.values) + p.payload
    ensures data[..length] == Wire(p)
  {
    assert data[..length] == data[..4] + data[4..length];
    assert Head(p) + (Body(p.values) + p.payload) == Wire(p);
  }

  /** coap_serialize_message: the message, or 0 if its options do not fit */
  method SerializeMessage(p: Packet, buffer: array<byte>) returns (length: nat)
    requires PacketOk(p) && |Wire(p)| <= buffer.Length
    modifies buffer
    ensures length == if Fits(p) then |Wire(p)| else 0
    ensures Fits(p) ==> buffer[..length] == Wire(p)
  {
    var count;
    length, count := PutBody(buffer, p);
    if length == 0 {
      return;
    }
    ghost var behind := buffer[4..];
    PutHead(buffer, p, count);
    assert buffer[..][4..length] == behind[..length - 4];
    WireParts(p, buffer[..], length);
    assert buffer[..length] == buffer[..][..length];
  }
}
