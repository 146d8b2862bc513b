/**
 CoAP messages in the format of section 3 of draft-ietf-core-coap-07, as apps/er-coap-07/er-coap-07.c
 writes and reads them: a header with a count of options, options in the order of their numbers,
 each with the difference to the number before it, and a payload.

 A difference of more than 15 is bridged by fence posts, empty options whose numbers are multiples
 of 14.
 */
module Coap {
  import opened Bytes

  const MAX_HEADER_SIZE := 50
  const MAX_CHUNK_SIZE := 128
  const LAST_OPTION := 21

  // ---------------------------------------------------------------- options and their values

  datatype Kind =
    | IntKind(limit: nat)      // a number below `limit`
    | BlobKind                 // at most eight bytes
    | HostKind                 // a string in one option
    | TextKind(sep: byte)      // a string in one option for each part
    | AcceptKind               // at most two numbers
    | BlockKind | FlagKind | FenceKind | ProxyKind | OtherKind

  function KindOf(n: nat): Kind {
    match n
    case 1 => IntKind(0x1_0000)        // Content-Type
    case 2 => IntKind(0x1_0000_0000)   // Max-Age
    case 3 => ProxyKind                // Proxy-Uri
    case 4 => BlobKind                 // ETag
    case 5 => HostKind                 // Uri-Host
    case 6 => TextKind(0x2f)           // Location-Path, parts separated by '/'
    case 7 => IntKind(0x1_0000)        // Uri-Port
    case 8 => TextKind(0x26)           // Location-Query, parts separated by '&'
    case 9 => TextKind(0x2f)           // Uri-Path
    case 10 => IntKind(0x1_0000)       // Observe
    case 11 => BlobKind                // Token
    case 12 => AcceptKind              // Accept
    case 13 => BlobKind                // If-Match
    case 14 => FenceKind
    case 15 => TextKind(0x26)          // Uri-Query
    case 17 => BlockKind               // Block2
    case 19 => BlockKind               // Block1
    case 21 => FlagKind                // If-None-Match
    case _ => OtherKind
  }

  datatype Value =
    | Int(v: nat)
    | Blob(bytes: seq<byte>)
    | Text(text: seq<byte>)
    | List(vs: seq<nat>)
    | Block(num: nat, more: bool, size: nat, offset: nat)
    | Present

  // What is known about a message after reading some options: their values, and the bitmap
  datatype Fields = Fields(values: map<nat, Value>, seen: set<nat>)

  datatype Opt = Opt(number: nat, value: seq<byte>)

  datatype Packet = Packet(mtype: nat, code: byte, mid: nat, values: map<nat, Value>, payload: seq<byte>)

  // ---------------------------------------------------------------- numbers

  // The bytes of a number without leading zeros, most significant first
  function IntBytes(v: nat): seq<byte> {
    if v == 0 then [] else IntBytes(v / 256) + [v % 256]
  }

  // coap_parse_int_option, in 32 bits
  function BytesInt(bytes: seq<byte>): nat {
    if bytes == [] then 0
    else (BytesInt(bytes[..|bytes| - 1]) * 256 + bytes[|bytes| - 1]) % 0x1_0000_0000
  }

  lemma {:induction false} IntRoundTrip(v: nat)
    requires v < 0x1_0000_0000
    ensures BytesInt(IntBytes(v)) == v
  {
    if v > 0 {
      IntRoundTrip(v / 256);
      var bytes := IntBytes(v);
      assert bytes[..|bytes| - 1] == IntBytes(v / 256);
    }
  }

  // The place of the highest bit, coap_log_2
  function Log2(v: nat): nat {
    if v < 2 then 0 else 1 + Log2(v / 2)
  }

  function BlockSize(szx: nat): nat {
    match szx
    case 0 => 16
    case 1 => 32
    case 2 => 64
    case 3 => 128
    case 4 => 256
    case 5 => 512
    case 6 => 1024
    case _ => 2048
  }

  lemma LogOfSize(szx: nat)
    requires szx < 8
    ensures Log2(BlockSize(szx) / 16) == szx
  {
    assert Log2(1) == 0 && Log2(2) == 1 && Log2(4) == 2 && Log2(8) == 3;
    assert Log2(16) == 4 && Log2(32) == 5 && Log2(64) == 6 && Log2(128) == 7;
  }

  // A block option as a number
  function BlockCode(num: nat, more: bool, size: nat): nat {
    var szx := Log2(size / 16) % 16;
    num * 16 + if more && szx < 8 then 8 + szx else szx
  }

  // A block option from a number
  function BlockOf(code: nat): Value {
    var szx := code % 8;
    Block(code / 16, code / 8 % 2 == 1, BlockSize(szx), code / 16 * BlockSize(szx) % 0x1_0000_0000)
  }

  lemma LowBits(num: nat, low: nat)
    requires low < 16
    ensures var code := num * 16 + low;
      code / 16 == num && code % 8 == low % 8 && code / 8 % 2 == low / 8
  {
    var code := num * 16 + low;
    assert code / 8 == 2 * num + low / 8 && code == 8 * (2 * num) + low;
  }

  lemma LeastSize(num: nat, szx: nat)
    requires num * BlockSize(szx) < 0x1_0000_0000
    ensures num * 16 + 15 < 0x1_0000_0000
  {
  }

  lemma CodeOfSize(num: nat, more: bool, szx: nat)
    requires szx < 8
    ensures BlockCode(num, more, BlockSize(szx)) == num * 16 + if more then 8 + szx else szx
  {
    LogOfSize(szx);
  }

  lemma BlockOfCode(num: nat, more: bool, szx: nat)
    requires szx < 8
    ensures BlockOf(num * 16 + if more then 8 + szx else szx) ==
      Block(num, more, BlockSize(szx), num * BlockSize(szx) % 0x1_0000_0000)
  {
    LowBits(num, if more then 8 + szx else szx);
  }

  lemma BlockRoundTrip(num: nat, more: bool, szx: nat)
    requires szx < 8 && num * BlockSize(szx) < 0x1_0000_0000
    ensures BlockOf(BlockCode(num, more, BlockSize(szx))) == Block(num, more, BlockSize(szx), num * BlockSize(szx))
    ensures BlockCode(num, more, BlockSize(szx)) < 0x1_0000_0000
  {
    CodeOfSize(num, more, szx);
    BlockOfCode(num, more, szx);
    LeastSize(num, szx);
  }

  // ---------------------------------------------------------------- strings in parts

  // Slashes are skipped after every separator.
  function SkipSlashes(s: seq<byte>, j: nat): (k: nat)
    requires j <= |s|
    ensures j <= k <= |s|
    decreases |s| - j
  {
    if j < |s| && s[j] == 0x2f then SkipSlashes(s, j + 1) else j
  }

  // The parts from `start` on, found so far up to `j`; the first byte of a part other than the first is
  // not taken for a separator.
  function PartsFrom(s: seq<byte>, sep: byte, start: nat, j: nat): (parts: seq<seq<byte>>)
    requires start <= j <= |s|
    ensures |parts| >= 1
    decreases |s| - j
  {
    if j == |s| then [s[start..]]
    else if s[j] == sep then
      var k := SkipSlashes(s, j + 1);
      [s[start..j]] + if k == |s| then [] else PartsFrom(s, sep, k, k + 1)
    else PartsFrom(s, sep, start, j + 1)
  }

  function Parts(s: seq<byte>, sep: byte): seq<seq<byte>> { PartsFrom(s, sep, 0, 0) }

  // coap_merge_multi_option
  function Merge(s: seq<byte>, part: seq<byte>, sep: byte): seq<byte> {
    if |s| > 0 then s + [sep] + part else part
  }

  function MergeAll(s: seq<byte>, parts: seq<seq<byte>>, sep: byte): seq<byte>
    decreases parts
  {
    if parts == [] then s else MergeAll(Merge(s, parts[0], sep), parts[1..], sep)
  }

  // After every separator that ends a part there is a byte other than '/'.
  predicate CleanFrom(s: seq<byte>, sep: byte, j: nat)
    requires j <= |s|
    decreases |s| - j
  {
    j == |s| ||
    if s[j] == sep then j + 1 < |s| && s[j + 1] != 0x2f && CleanFrom(s, sep, j + 2) else CleanFrom(s, sep, j + 1)
  }

  // The strings that come back as they were
  predicate Clean(s: seq<byte>, sep: byte) { s == [] || (s[0] != sep && CleanFrom(s, sep, 0)) }

  // The parts from `start` on, merged to what is there
  function Back(there: seq<byte>, s: seq<byte>, sep: byte, start: nat, j: nat): seq<byte>
    requires start <= j <= |s|
    decreases |s| - j
  {
    if j == |s| then Merge(there, s[start..], sep)
    else if s[j] == sep then
      var next, k := Merge(there, s[start..j], sep), SkipSlashes(s, j + 1);
      if k == |s| then next else Back(next, s, sep, k, k + 1)
    else Back(there, s, sep, start, j + 1)
  }

  lemma {:induction false} BackMerges(there: seq<byte>, s: seq<byte>, sep: byte, start: nat, j: nat)
    requires start <= j <= |s|
    ensures MergeAll(there, PartsFrom(s, sep, start, j), sep) == Back(there, s, sep, start, j)
    decreases |s| - j
  {
    var parts := PartsFrom(s, sep, start, j);
    if j < |s| && s[j] != sep {
      BackMerges(there, s, sep, start, j + 1);
    } else if j < |s| && SkipSlashes(s, j + 1) < |s| {
      var k := SkipSlashes(s, j + 1);
      assert parts[1..] == PartsFrom(s, sep, k, k + 1);
      BackMerges(Merge(there, s[start..j], sep), s, sep, k, k + 1);
    } else {
      assert parts[1..] == [];
    }
  }

  lemma {:induction false} BackLength(there: seq<byte>, s: seq<byte>, sep: byte, start: nat, j: nat)
    requires start <= j <= |s|
    ensures |Back(there, s, sep, start, j)| <= |there| + (if there == [] then 0 else 1) + |s| - start
    decreases |s| - j
  {
    if j < |s| && s[j] != sep {
      BackLength(there, s, sep, start, j + 1);
    } else if j < |s| && SkipSlashes(s, j + 1) < |s| {
      var k := SkipSlashes(s, j + 1);
      BackLength(Merge(there, s[start..j], sep), s, sep, k, k + 1);
    }
  }

  lemma SplitPart(there: seq<byte>, s: seq<byte>, sep: byte, start: nat, e: nat)
    requires start <= e < |s| && s[e] == sep
    ensures there + [sep] + s[start..e] + [sep] + s[e + 1..] == there + [sep] + s[start..]
  {
    assert s[start..] == s[start..e] + [sep] + s[e + 1..];
  }

  lemma {:induction false} BackIff(there: seq<byte>, s: seq<byte>, sep: byte, start: nat, j: nat)
    requires start <= j <= |s| && |there| > 0
    ensures if CleanFrom(s, sep, j) then Back(there, s, sep, start, j) == there + [sep] + s[start..]
      else |Back(there, s, sep, start, j)| < |there| + 1 + |s| - start
    decreases |s| - j
  {
    if j < |s| && s[j] != sep {
      BackIff(there, s, sep, start, j + 1);
    } else if j < |s| && SkipSlashes(s, j + 1) < |s| {
      var next, k := there + [sep] + s[start..j], SkipSlashes(s, j + 1);
      BackLength(next, s, sep, k, k + 1);
      SplitPart(there, s, sep, start, j);
      if k == j + 1 {
        BackIff(next, s, sep, k, k + 1);
      }
    }
  }

  // The first part
  lemma {:induction false} FirstPart(s: seq<byte>, sep: byte, j: nat)
    requires j <= |s|
    ensures j == 0 < |s| && s[0] == sep ==> |Back([], s, sep, 0, j)| < |s|
    ensures (0 < j || s == [] || s[0] != sep) && CleanFrom(s, sep, j) ==> Back([], s, sep, 0, j) == s
    ensures (0 < j || s == [] || s[0] != sep) && !CleanFrom(s, sep, j) ==> |Back([], s, sep, 0, j)| < |s|
    decreases |s| - j
  {
    if j < |s| && s[j] != sep {
      FirstPart(s, sep, j + 1);
    } else if j < |s| && SkipSlashes(s, j + 1) < |s| {
      var k := SkipSlashes(s, j + 1);
      BackLength(s[0..j], s, sep, k, k + 1);
      if j > 0 && k == j + 1 {
        assert s[0..j] + [sep] + s[k..] == s;
        BackIff(s[0..j], s, sep, k, k + 1);
      }
    }
  }

  /** Splitting a string into options and merging them again gives the string back exactly if it is clean. */
  lemma PartsMergeIff(s: seq<byte>, sep: byte)
    ensures MergeAll([], Parts(s, sep), sep) == s <==> Clean(s, sep)
  {
    BackMerges([], s, sep, 0, 0);
    FirstPart(s, sep, 0);
  }

  // ---------------------------------------------------------------- the format

  // coap_set_option_header
  function Header(delta: nat, length: nat): (bytes: seq<byte>)
    requires delta < 16
    ensures |bytes| == if length < 15 then 1 else 2
  {
    if length < 15 then [delta * 16 + length] else [delta * 16 + 15, (length - 15) % 256]
  }

  // Option numbers are at most 21, so one fence post, with number 14, bridges any difference over 15.
  predicate Far(current: nat, number: nat) { number > current + 15 }

  predicate Ascending(current: nat, opts: seq<Opt>)
    decreases opts
  {
    opts == [] || (current <= opts[0].number <= LAST_OPTION && Ascending(opts[0].number, opts[1..]))
  }

  // The number of bytes of an option after one with number `current`
  function OptSize(current: nat, o: Opt): nat {
    (if Far(current, o.number) then 1 else 0) + (if |o.value| < 15 then 1 else 2) + |o.value|
  }

  function OptBytes(current: nat, o: Opt): (bytes: seq<byte>)
    requires current <= o.number <= LAST_OPTION
    ensures |bytes| == OptSize(current, o)
  {
    if Far(current, o.number) then Header(14 - current, 0) + (Header(o.number - 14, |o.value|) + o.value)
    else Header(o.number - current, |o.value|) + o.value
  }

  function Pieces(current: nat, opts: seq<Opt>): seq<seq<byte>>
    requires Ascending(current, opts)
    decreases opts
  {
    if opts == [] then [] else [OptBytes(current, opts[0])] + Pieces(opts[0].number, opts[1..])
  }

  function Encode(current: nat, opts: seq<Opt>): seq<byte>
    requires Ascending(current, opts)
  {
    Flatten(Pieces(current, opts))
  }

  // The number of options in these bytes, fence posts included
  function Emitted(current: nat, opts: seq<Opt>): nat
    requires Ascending(current, opts)
    decreases opts
  {
    if opts == [] then 0 else (if Far(current, opts[0].number) then 2 else 1) + Emitted(opts[0].number, opts[1..])
  }

  // ---------------------------------------------------------------- reading options

  datatype Absorbed = Took(fields: Fields) | Refused(code: nat)

  // What the parser does with one option
  function Absorb(f: Fields, n: nat, bytes: seq<byte>): Absorbed {
    var seen := f.seen + {n};
    var prior := if n in f.values then f.values[n] else Present;
    var short := if |bytes| <= 8 then bytes else bytes[..8];
    match KindOf(n)
    case IntKind(limit) =>
      var v := if limit == 0x1_0000 then BytesInt(bytes) % 0x1_0000 else BytesInt(bytes);
      Took(Fields(f.values[n := Int(v)], seen))
    case BlobKind => Took(Fields(f.values[n := Blob(short)], seen))
    case HostKind => Took(Fields(f.values[n := Text(bytes)], seen))
    case TextKind(sep) =>
      Took(Fields(f.values[n := Text(Merge(if prior.Text? then prior.text else [], bytes, sep))], seen))
    case AcceptKind =>
      var vs := if prior.List? then prior.vs else [];
      Took(Fields(f.values[n := List(if |vs| < 2 then vs + [BytesInt(bytes) % 0x1_0000] else vs)], seen))
    case BlockKind => Took(Fields(f.values[n := BlockOf(BytesInt(bytes))], seen))
    case FlagKind => Took(Fields(f.values[n := Present], seen))
    case FenceKind => Took(Fields(f.values, seen))
    case ProxyKind => Refused(PROXYING_NOT_SUPPORTED)
    case OtherKind => if n % 2 == 1 then Refused(BAD_OPTION) else Took(Fields(f.values, seen))
  }

  const PROXYING_NOT_SUPPORTED := 165
  const BAD_OPTION := 130
  const BAD_REQUEST := 128

  // The length of the header of the option at `at`, and of its value
  function HeaderSize(data: seq<byte>, at: nat): nat
    requires at < |data|
  {
    if data[at] % 16 < 15 then 1 else 2
  }

  function ValueSize(data: seq<byte>, at: nat): nat
    requires at < |data| && at + HeaderSize(data, at) <= |data|
  {
    if data[at] % 16 < 15 then data[at] % 16 else data[at + 1] as nat + 15
  }

  // The option at `at` lies within the message.
  predicate Inside(data: seq<byte>, at: nat) {
    && at < |data| && at + HeaderSize(data, at) <= |data|
    && at + HeaderSize(data, at) + ValueSize(data, at) <= |data|
  }

  // The options read up to the position behind them, and whether all of them lie within the message
  datatype Raw = Read(o: Opt, next: Raw) | Stop(at: nat, complete: bool)

  // `n` options from `at` on
  function OptionsIn(data: seq<byte>, at: nat, n: nat, current: nat): Raw
    decreases n
  {
    if n == 0 then Stop(at, true)
    else if !Inside(data, at) then Stop(at, false)
    else
      var number, from := current + data[at] as nat / 16, at + HeaderSize(data, at);
      var to := from + ValueSize(data, at);
      Read(Opt(number, data[from..to]), OptionsIn(data, to, n - 1, number))
  }

  // Reading ends with the values and the position of the payload, with an error, or outside of the message.
  datatype Outcome = Done(fields: Fields, at: nat) | Failed(code: nat) | Overrun

  // What the options make of what is known, or the error of the first one that is refused
  function AbsorbAll(f: Fields, r: Raw): Outcome
    decreases r
  {
    match r
    case Stop(at, complete) => if complete then Done(f, at) else Overrun
    case Read(o, next) =>
      match Absorb(f, o.number, o.value)
      case Refused(code) => Failed(code)
      case Took(g) => AbsorbAll(g, next)
  }

  // ---------------------------------------------------------------- reading messages

  // What is known about a message that was read, or why it was not; `Beyond` if its options end outside of it
  datatype Parsed = Message(p: Packet, seen: set<nat>) | Error(code: nat) | Beyond

  function Shortened(payload: seq<byte>): seq<byte> {
    if |payload| > MAX_CHUNK_SIZE then payload[..MAX_CHUNK_SIZE] else payload
  }

  // The message with these header fields, after its options have been read
  function Assemble(mtype: nat, code: byte, mid: nat, data: seq<byte>, options: Outcome): Parsed {
    match options
    case Failed(error) => Error(error)
    case Overrun => Beyond
    case Done(f, at) =>
      Message(Packet(mtype, code, mid, f.values, Shortened(if at <= |data| then data[at..] else [])), f.seen)
  }

  // coap_parse_message
  function Parse(data: seq<byte>): Parsed
    requires |data| >= 4
  {
    if data[0] / 64 != 1 then Error(BAD_REQUEST)
    else Assemble(data[0] / 16 % 4, data[1], data[2] as nat * 256 + data[3], data,
      AbsorbAll(NOTHING, OptionsIn(data, 4, data[0] % 16, 0)))
  }

  const NOTHING := Fields(map[], {})
}
