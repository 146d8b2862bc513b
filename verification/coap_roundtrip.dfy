/**
 Writing a CoAP message and reading it back (apps/er-coap-07/er-coap-07.c): which messages come
 back as they were.
 */
module CoapRoundTrip {
  import opened Bytes
  import opened Coap

  // ---------------------------------------------------------------- one option

  // The option at `at` is read as this difference and value.
  predicate OneAt(data: seq<byte>, at: nat, delta: nat, value: seq<byte>) {
    && Inside(data, at) && data[at] / 16 == delta && ValueSize(data, at) == |value|
    && HeaderSize(data, at) == (if |value| < 15 then 1 else 2)
    && data[at + HeaderSize(data, at)..at + HeaderSize(data, at) + |value|] == value
  }

  lemma HeaderReads(data: seq<byte>, at: nat, delta: nat, value: seq<byte>)
    requires delta < 16 && |value| <= 270 && At(data, at, Header(delta, |value|) + value)
    ensures OneAt(data, at, delta, value)
  {
    var header := Header(delta, |value|);
    AtParts(data, at, header, value);
    assert data[at] == data[at..at + |header|][0] == header[0];
    if |header| == 2 {
      assert data[at + 1] == data[at..at + |header|][1] == header[1];
    }
  }

  // The option at `at`, with its fence post, is read as `o`.
  predicate OptAt(data: seq<byte>, at: nat, current: nat, o: Opt)
    requires current <= o.number <= LAST_OPTION
  {
    if Far(current, o.number) then OneAt(data, at, 14 - current, []) && OneAt(data, at + 1, o.number - 14, o.value)
    else OneAt(data, at, o.number - current, o.value)
  }

  lemma OptReads(data: seq<byte>, at: nat, current: nat, o: Opt)
    requires current <= o.number <= LAST_OPTION && |o.value| <= 270 && At(data, at, OptBytes(current, o))
    ensures OptAt(data, at, current, o)
  {
    if Far(current, o.number) {
      AtParts(data, at, Header(14 - current, 0), Header(o.number - 14, |o.value|) + o.value);
      assert Header(14 - current, 0) + [] == Header(14 - current, 0);
      HeaderReads(data, at, 14 - current, []);
      HeaderReads(data, at + 1, o.number - 14, o.value);
    } else {
      HeaderReads(data, at, o.number - current, o.value);
    }
  }

  lemma ReadsOpt(data: seq<byte>, at: nat, current: nat, o: Opt, n: nat, next: nat)
    requires current <= o.number <= LAST_OPTION && OptAt(data, at, current, o)
    requires next == at + OptSize(current, o) && n >= if Far(current, o.number) then 2 else 1
    ensures Far(current, o.number) ==>
      OptionsIn(data, at, n, current) == Read(Opt(14, []), Read(o, OptionsIn(data, next, n - 2, o.number)))
    ensures !Far(current, o.number) ==>
      OptionsIn(data, at, n, current) == Read(o, OptionsIn(data, next, n - 1, o.number))
  {
  }

  // ---------------------------------------------------------------- all options

  predicate ShortValues(opts: seq<Opt>) { forall o | o in opts :: |o.value| <= 270 }

  // The number of the last option
  function Last(current: nat, opts: seq<Opt>): nat
    decreases opts
  {
    if opts == [] then current else Last(opts[0].number, opts[1..])
  }

  // Options that were written after one with number `current`, with their fence posts, and what follows
  function PutAll(current: nat, opts: seq<Opt>, r: Raw): Raw
    decreases opts
  {
    if opts == [] then r
    else
      var later := Read(opts[0], PutAll(opts[0].number, opts[1..], r));
      if Far(current, opts[0].number) then Read(Opt(14, []), later) else later
  }

  // The options are read one after the other from `at` to `end`.
  ghost predicate AllAt(data: seq<byte>, at: nat, current: nat, opts: seq<Opt>, end: nat)
    requires Ascending(current, opts)
    decreases opts
  {
    if opts == [] then at == end
    else
      OptAt(data, at, current, opts[0]) &&
      AllAt(data, at + OptSize(current, opts[0]), opts[0].number, opts[1..], end)
  }

  lemma {:induction false} PiecesRead(data: seq<byte>, at: nat, current: nat, opts: seq<Opt>)
    requires Ascending(current, opts) && ShortValues(opts) && PiecesAt(data, at, Pieces(current, opts))
    ensures AllAt(data, at, current, opts, at + |Encode(current, opts)|)
    decreases opts
  {
    if opts != [] {
      assert Pieces(current, opts)[1..] == Pieces(opts[0].number, opts[1..]);
      OptReads(data, at, current, opts[0]);
      PiecesRead(data, at + OptSize(current, opts[0]), opts[0].number, opts[1..]);
    }
  }

  // Reading `n` options, `k` of which are behind the written ones
  lemma {:induction false} ReadsAllAt(data: seq<byte>, at: nat, current: nat, opts: seq<Opt>, n: nat, end: nat, k: nat)
    requires Ascending(current, opts) && AllAt(data, at, current, opts, end) && n == Emitted(current, opts) + k
    ensures OptionsIn(data, at, n, current) == PutAll(current, opts, OptionsIn(data, end, k, Last(current, opts)))
    decreases opts
  {
    if opts != [] {
      var o, tail := opts[0], opts[1..];
      var next := at + OptSize(current, o);
      ReadsOpt(data, at, current, o, n, next);
      ReadsAllAt(data, next, o.number, tail, if Far(current, o.number) then n - 2 else n - 1, end, k);
    }
  }

  /** Options that were written are read one by one, and reading goes on behind them. */
  lemma ReadsAll(data: seq<byte>, at: nat, current: nat, opts: seq<Opt>, n: nat, k: nat)
    requires Ascending(current, opts) && ShortValues(opts) && At(data, at, Encode(current, opts))
    requires n == Emitted(current, opts) + k
    ensures OptionsIn(data, at, n, current) ==
      PutAll(current, opts, OptionsIn(data, at + |Encode(current, opts)|, k, Last(current, opts)))
  {
    FlattenedAt(data, at, Pieces(current, opts));
    PiecesRead(data, at, current, opts);
    ReadsAllAt(data, at, current, opts, n, at + |Encode(current, opts)|, k);
  }

  // ---------------------------------------------------------------- values

  // The bytes of the options for a value
  function Encodings(n: nat, v: Value): seq<seq<byte>> {
    match v
    case Int(i) => [IntBytes(i)]
    case Blob(bytes) => [bytes]
    case Text(text) => if KindOf(n).TextKind? then Parts(text, KindOf(n).sep) else [text]
    case List(vs) => Numbers(vs)
    case Block(num, more, size, _) => [IntBytes(BlockCode(num, more, size))]
    case Present => [[]]
  }

  function Numbers(vs: seq<nat>): (bs: seq<seq<byte>>)
    ensures |bs| == |vs|
  {
    if vs == [] then [] else [IntBytes(vs[0])] + Numbers(vs[1..])
  }

  // A value of the kind that its option has
  predicate Typed(n: nat, v: Value) {
    match KindOf(n)
    case IntKind(limit) => v.Int? && v.v < limit
    case BlobKind => v.Blob? && |v.bytes| <= 8
    case HostKind => v.Text?
    case TextKind(_) => v.Text?
    case AcceptKind => v.List? && 1 <= |v.vs| <= 2 && forall i | i in v.vs :: i < 0x1_0000
    case BlockKind => v.Block? && BlockOk(v.num, v.size) && v.offset == v.num * v.size
    case FlagKind => v == Present
    case _ => false
  }

  // A size that is a power of two from 16 to 2048, and an offset of 32 bits
  predicate BlockOk(num: nat, size: nat) {
    size in {16, 32, 64, 128, 256, 512, 1024, 2048} && num * size < 0x1_0000_0000
  }

  // What is read for a value
  function Returned(n: nat, v: Value): Value {
    match KindOf(n)
    case TextKind(sep) => if v.Text? then Text(MergeAll([], Parts(v.text, sep), sep)) else v
    case _ => v
  }

  // What options with one number and these values make of what is known
  function AbsorbBytes(f: Fields, n: nat, bs: seq<seq<byte>>): Absorbed
    decreases bs
  {
    if bs == [] then Took(f)
    else match Absorb(f, n, bs[0])
         case Refused(code) => Refused(code)
         case Took(g) => AbsorbBytes(g, n, bs[1..])
  }

  lemma {:induction false} AbsorbsParts(f: Fields, n: nat, text: seq<byte>, parts: seq<seq<byte>>)
    requires KindOf(n).TextKind? && n in f.values && f.values[n] == Text(text) && n in f.seen
    ensures AbsorbBytes(f, n, parts) ==
      Took(Fields(f.values[n := Text(MergeAll(text, parts, KindOf(n).sep))], f.seen))
    decreases parts
  {
    var sep := KindOf(n).sep;
    if parts == [] {
      assert f.values == f.values[n := Text(text)];
    } else {
      var next := Merge(text, parts[0], sep);
      var g := Fields(f.values[n := Text(next)], f.seen + {n});
      assert g.seen == f.seen && Absorb(f, n, parts[0]) == Took(g);
      AbsorbsParts(g, n, next, parts[1..]);
      assert g.values[n := Text(MergeAll(next, parts[1..], sep))] == f.values[n := Text(MergeAll(text, parts, sep))];
    }
  }

  // The parts of a text, or the first of them
  lemma AbsorbsSome(f: Fields, n: nat, parts: seq<seq<byte>>)
    requires KindOf(n).TextKind? && n !in f.values && parts != []
    ensures AbsorbBytes(f, n, parts) ==
      Took(Fields(f.values[n := Text(MergeAll([], parts, KindOf(n).sep))], f.seen + {n}))
  {
    var sep, first := KindOf(n).sep, parts[0];
    var g := Fields(f.values[n := Text(first)], f.seen + {n});
    assert Absorb(f, n, first) == Took(g);
    AbsorbsParts(g, n, first, parts[1..]);
    var all := Text(MergeAll(first, parts[1..], sep));
    assert g.values[n := all] == f.values[n := all];
  }

  lemma AbsorbsText(f: Fields, n: nat, text: seq<byte>)
    requires KindOf(n).TextKind? && n !in f.values
    ensures AbsorbBytes(f, n, Encodings(n, Text(text))) ==
      Took(Fields(f.values[n := Returned(n, Text(text))], f.seen + {n}))
  {
    AbsorbsSome(f, n, Parts(text, KindOf(n).sep));
  }

  // One more number of an Accept option
  lemma AbsorbsNumber(f: Fields, n: nat, vs: seq<nat>, v: nat, bytes: seq<byte>)
    requires KindOf(n).AcceptKind? && |vs| < 2 && BytesInt(bytes) == v < 0x1_0000
    requires if vs == [] then n !in f.values else n in f.values && f.values[n] == List(vs)
    ensures Absorb(f, n, bytes) == Took(Fields(f.values[n := List(vs + [v])], f.seen + {n}))
  {
  }

  lemma AbsorbsOne(f: Fields, n: nat, v: nat, a: seq<byte>)
    requires KindOf(n).AcceptKind? && n !in f.values && BytesInt(a) == v < 0x1_0000
    ensures AbsorbBytes(f, n, [a]) == Took(Fields(f.values[n := List([v])], f.seen + {n}))
  {
    AbsorbsNumber(f, n, [], v, a);
    assert [] + [v] == [v];
    var g := Fields(f.values[n := List([v])], f.seen + {n});
    assert AbsorbBytes(g, n, [a][1..]) == Took(g);
  }

  lemma AbsorbsTwo(f: Fields, n: nat, v: nat, w: nat, a: seq<byte>, b: seq<byte>)
    requires KindOf(n).AcceptKind? && n !in f.values && BytesInt(a) == v < 0x1_0000 && BytesInt(b) == w < 0x1_0000
    ensures AbsorbBytes(f, n, [a, b]) == Took(Fields(f.values[n := List([v, w])], f.seen + {n}))
  {
    AbsorbsNumber(f, n, [], v, a);
    assert [] + [v] == [v];
    var g := Fields(f.values[n := List([v])], f.seen + {n});
    AbsorbsNumber(g, n, [v], w, b);
    assert [v] + [w] == [v, w];
    var h := Fields(f.values[n := List([v, w])], f.seen + {n});
    assert Absorb(g, n, b) == Took(h);
    assert [a, b][1..] == [b] && AbsorbBytes(h, n, [b][1..]) == Took(h);
  }

  lemma AbsorbsList(f: Fields, n: nat, vs: seq<nat>)
    requires KindOf(n).AcceptKind? && n !in f.values && Typed(n, List(vs))
    ensures AbsorbBytes(f, n, Numbers(vs)) == Took(Fields(f.values[n := List(vs)], f.seen + {n}))
  {
    assert vs[0] in vs;
    IntRoundTrip(vs[0]);
    if |vs| == 1 {
      assert vs == [vs[0]] && Numbers(vs) == [IntBytes(vs[0])];
      AbsorbsOne(f, n, vs[0], IntBytes(vs[0]));
    } else {
      assert vs[1] in vs;
      IntRoundTrip(vs[1]);
      assert vs == [vs[0], vs[1]] && Numbers(vs) == [IntBytes(vs[0]), IntBytes(vs[1])];
      AbsorbsTwo(f, n, vs[0], vs[1], IntBytes(vs[0]), IntBytes(vs[1]));
    }
  }

  lemma AbsorbsBlock(f: Fields, n: nat, v: Value)
    requires KindOf(n).BlockKind? && Typed(n, v)
    ensures AbsorbBytes(f, n, Encodings(n, v)) == Took(Fields(f.values[n := v], f.seen + {n}))
  {
    var szx :=
      if v.size == 16 then 0 else if v.size == 32 then 1 else if v.size == 64 then 2 else if v.size == 128 then 3
      else if v.size == 256 then 4 else if v.size == 512 then 5 else if v.size == 1024 then 6 else 7;
    assert BlockSize(szx) == v.size;
    BlockRoundTrip(v.num, v.more, szx);
    var code := BlockCode(v.num, v.more, v.size);
    IntRoundTrip(code);
    assert Encodings(n, v)[1..] == [];
  }

  lemma AbsorbsSingle(f: Fields, n: nat, v: Value)
    requires Typed(n, v) && !KindOf(n).TextKind? && !KindOf(n).AcceptKind? && !KindOf(n).BlockKind?
    ensures AbsorbBytes(f, n, Encodings(n, v)) == Took(Fields(f.values[n := v], f.seen + {n}))
  {
    var g := Fields(f.values[n := v], f.seen + {n});
    match KindOf(n)
    case IntKind(_) =>
      IntRoundTrip(v.v);
      AbsorbsInt(f, n, v.v, IntBytes(v.v));
      AbsorbsFirst(f, g, n, IntBytes(v.v));
    case BlobKind => AbsorbsFirst(f, g, n, v.bytes);
    case HostKind => AbsorbsFirst(f, g, n, v.text);
    case FlagKind => AbsorbsFirst(f, g, n, []);
  }

  lemma AbsorbsInt(f: Fields, n: nat, v: nat, bytes: seq<byte>)
    requires KindOf(n).IntKind? && v < KindOf(n).limit && BytesInt(bytes) == v
    ensures Absorb(f, n, bytes) == Took(Fields(f.values[n := Int(v)], f.seen + {n}))
  {
    Small16(v);
  }

  lemma Small16(v: nat)
    ensures v < 0x1_0000 ==> v % 0x1_0000 == v
  {
  }

  lemma AbsorbsFirst(f: Fields, g: Fields, n: nat, bytes: seq<byte>)
    requires Absorb(f, n, bytes) == Took(g)
    ensures AbsorbBytes(f, n, [bytes]) == Took(g)
  {
    var bs := [bytes];
    assert bs[0] == bytes && |bs[1..]| == 0;
    assert AbsorbBytes(g, n, bs[1..]) == Took(g);
  }

  /** Reading the options of a value gives the value back, strings up to how they are split. */
  lemma AbsorbsValue(f: Fields, n: nat, v: Value)
    requires Typed(n, v) && n !in f.values
    ensures AbsorbBytes(f, n, Encodings(n, v)) == Took(Fields(f.values[n := Returned(n, v)], f.seen + {n}))
  {
    match KindOf(n)
    case TextKind(_) => AbsorbsText(f, n, v.text);
    case AcceptKind => AbsorbsList(f, n, v.vs);
    case BlockKind => AbsorbsBlock(f, n, v);
    case _ => AbsorbsSingle(f, n, v);
  }

  // ---------------------------------------------------------------- whole messages

  function Tag(n: nat, bs: seq<seq<byte>>): (opts: seq<Opt>)
    ensures |opts| == |bs|
  {
    if bs == [] then [] else [Opt(n, bs[0])] + Tag(n, bs[1..])
  }

  // The options of all values with numbers from `n` on, in the order of their numbers
  function AllOptions(values: map<nat, Value>, n: nat): seq<Opt>
    decreases LAST_OPTION + 1 - n, |values|
  {
    if n > LAST_OPTION then []
    else (if n in values then Tag(n, Encodings(n, values[n])) else []) + AllOptions(values, n + 1)
  }

  lemma {:induction false} AbsorbsSame(f: Fields, n: nat, bs: seq<seq<byte>>, r: Raw)
    ensures AbsorbAll(f, PutAll(n, Tag(n, bs), r)) ==
      match AbsorbBytes(f, n, bs)
      case Refused(code) => Failed(code)
      case Took(g) => AbsorbAll(g, r)
    decreases bs
  {
    if bs != [] {
      assert Tag(n, bs)[1..] == Tag(n, bs[1..]);
      match Absorb(f, n, bs[0])
      case Refused(_) =>
      case Took(g) => AbsorbsSame(g, n, bs[1..], r);
    }
  }

  // What is known after the options of one value
  function Grow(f: Fields, current: nat, n: nat, v: Value): Fields {
    Fields(f.values[n := Returned(n, v)], f.seen + {n} + if Far(current, n) then {14} else {})
  }

  // The options of one value, the first of them with a fence post if it is far from number `current`
  lemma AbsorbsTagged(f: Fields, current: nat, n: nat, v: Value, r: Raw)
    requires Typed(n, v) && n !in f.values
    ensures AbsorbAll(f, PutAll(current, Tag(n, Encodings(n, v)), r)) ==
      AbsorbAll(Grow(f, current, n, v), r)
  {
    var bs := Encodings(n, v);
    var g := if Far(current, n) then f.(seen := f.seen + {14}) else f;
    AbsorbsValue(g, n, v);
    AbsorbsSame(g, n, bs, r);
    assert g.seen + {n} == f.seen + {n} + if Far(current, n) then {14} else {};
    var first, later := Tag(n, bs)[0], PutAll(n, Tag(n, bs)[1..], r);
    assert PutAll(n, Tag(n, bs), r) == Read(first, later);
    var same := Read(first, later);
    assert PutAll(current, Tag(n, bs), r) == if Far(current, n) then Read(Opt(14, []), same) else same;
  }

  lemma {:induction false} PutConcat(current: nat, xs: seq<Opt>, ys: seq<Opt>, r: Raw)
    ensures PutAll(current, xs + ys, r) == PutAll(current, xs, PutAll(Last(current, xs), ys, r))
    decreases xs
  {
    if xs == [] {
      assert xs + ys == ys;
    } else {
      assert (xs + ys)[1..] == xs[1..] + ys;
      PutConcat(xs[0].number, xs[1..], ys, r);
    }
  }

  lemma {:induction false} LastTag(current: nat, n: nat, bs: seq<seq<byte>>)
    ensures Last(current, Tag(n, bs)) == if bs == [] then current else n
    decreases bs
  {
    if bs != [] {
      assert Tag(n, bs)[1..] == Tag(n, bs[1..]);
      LastTag(n, n, bs[1..]);
    }
  }

  predicate TypedAt(values: map<nat, Value>, n: nat) { n in values ==> Typed(n, values[n]) }

  ghost predicate AllTyped(values: map<nat, Value>) { forall n: nat :: TypedAt(values, n) }

  // What is known after reading the options of the values with numbers from `n` on
  function Known(values: map<nat, Value>, n: nat, current: nat, f: Fields): Fields
    decreases LAST_OPTION + 1 - n, |values|
  {
    if n > LAST_OPTION then f
    else if n !in values then Known(values, n + 1, current, f)
    else Known(values, n + 1, n, Grow(f, current, n, values[n]))
  }

  // One value and those after it
  lemma OptionsOfNext(values: map<nat, Value>, n: nat, current: nat, r: Raw)
    requires n <= LAST_OPTION && AllTyped(values)
    ensures PutAll(current, AllOptions(values, n), r) ==
      if n in values then PutAll(current, Tag(n, Encodings(n, values[n])), PutAll(n, AllOptions(values, n + 1), r))
      else PutAll(current, AllOptions(values, n + 1), r)
  {
    if n in values {
      var bs := Encodings(n, values[n]);
      assert TypedAt(values, n) && bs != [];
      PutConcat(current, Tag(n, bs), AllOptions(values, n + 1), r);
      LastTag(current, n, bs);
    } else {
      assert AllOptions(values, n) == AllOptions(values, n + 1);
    }
  }

  // What is read at the options of the values with numbers from `n` on
  function ReadFrom(values: map<nat, Value>, n: nat, current: nat, r: Raw): Raw
    decreases LAST_OPTION + 1 - n, |values|
  {
    if n > LAST_OPTION then r
    else if n in values then PutAll(current, Tag(n, Encodings(n, values[n])), ReadFrom(values, n + 1, n, r))
    else ReadFrom(values, n + 1, current, r)
  }

  lemma {:induction false} ReadFromPuts(values: map<nat, Value>, n: nat, current: nat, r: Raw)
    requires AllTyped(values)
    ensures ReadFrom(values, n, current, r) == PutAll(current, AllOptions(values, n), r)
    decreases LAST_OPTION + 1 - n, |values|
  {
    if n <= LAST_OPTION {
      OptionsOfNext(values, n, current, r);
      ReadFromPuts(values, n + 1, if n in values then n else current, r);
    }
  }

  lemma {:induction false} AbsorbsFrom(values: map<nat, Value>, n: nat, current: nat, f: Fields, r: Raw)
    requires AllTyped(values) && forall k | k in f.values :: k < n
    ensures AbsorbAll(f, ReadFrom(values, n, current, r)) == AbsorbAll(Known(values, n, current, f), r)
    decreases LAST_OPTION + 1 - n, |values|
  {
    if n <= LAST_OPTION {
      assert TypedAt(values, n);
      if n in values {
        AbsorbsTagged(f, current, n, values[n], ReadFrom(values, n + 1, n, r));
        AbsorbsFrom(values, n + 1, n, Grow(f, current, n, values[n]), r);
      } else {
        AbsorbsFrom(values, n + 1, current, f, r);
      }
    }
  }

  // A fence post is among the options.
  predicate Fence(values: map<nat, Value>, n: nat, current: nat)
    decreases LAST_OPTION + 1 - n, |values|
  {
    n <= LAST_OPTION &&
    if n in values then Far(current, n) || Fence(values, n + 1, n) else Fence(values, n + 1, current)
  }

  // What is read for the values with numbers from `n` on
  function ReturnedFrom(values: map<nat, Value>, n: nat): map<nat, Value> {
    map k | k in values && n <= k :: Returned(k, values[k])
  }

  predicate SmallNumbers(values: map<nat, Value>) { forall k | k in values :: k <= LAST_OPTION }

  lemma ReturnedNext(values: map<nat, Value>, n: nat, there: map<nat, Value>)
    ensures n in values ==>
      there[n := Returned(n, values[n])] + ReturnedFrom(values, n + 1) == there + ReturnedFrom(values, n)
    ensures n !in values ==> ReturnedFrom(values, n + 1) == ReturnedFrom(values, n)
  {
  }

  lemma {:induction false} KnownValues(values: map<nat, Value>, n: nat, current: nat, f: Fields)
    requires SmallNumbers(values)
    ensures Known(values, n, current, f).values == f.values + ReturnedFrom(values, n)
    decreases LAST_OPTION + 1 - n, |values|
  {
    if n > LAST_OPTION {
      assert ReturnedFrom(values, n) == map[];
    } else {
      ReturnedNext(values, n, f.values);
      if n in values {
        KnownValues(values, n + 1, n, Grow(f, current, n, values[n]));
      } else {
        KnownValues(values, n + 1, current, f);
      }
    }
  }

  // The numbers of the options from `n` on, and of their fence post
  function SeenFrom(values: map<nat, Value>, n: nat, current: nat): set<nat> {
    ReturnedFrom(values, n).Keys + if Fence(values, n, current) then {14} else {}
  }

  lemma SeenNext(values: map<nat, Value>, n: nat, current: nat)
    requires n <= LAST_OPTION
    ensures SeenFrom(values, n, current) ==
      if n in values then {n} + (if Far(current, n) then {14} else {}) + SeenFrom(values, n + 1, n)
      else SeenFrom(values, n + 1, current)
  {
    var keys, later := ReturnedFrom(values, n).Keys, ReturnedFrom(values, n + 1).Keys;
    assert keys == (if n in values then {n} else {}) + later;
  }

  lemma {:induction false} KnownSeen(values: map<nat, Value>, n: nat, current: nat, f: Fields)
    requires SmallNumbers(values)
    ensures Known(values, n, current, f).seen == f.seen + SeenFrom(values, n, current)
    decreases LAST_OPTION + 1 - n, |values|
  {
    if n > LAST_OPTION {
      assert SeenFrom(values, n, current) == {};
    } else {
      SeenNext(values, n, current);
      if n in values {
        var g := Grow(f, current, n, values[n]);
        KnownSeen(values, n + 1, n, g);
        assert g.seen == f.seen + ({n} + if Far(current, n) then {14} else {});
      } else {
        KnownSeen(values, n + 1, current, f);
      }
    }
  }

  // ---------------------------------------------------------------- the header

  // The number of options that the serializer writes into the header
  function Counted(values: map<nat, Value>, n: nat, current: nat): nat
    decreases LAST_OPTION + 1 - n, |values|
  {
    if n > LAST_OPTION then 0
    else if n !in values then Counted(values, n + 1, current)
    else |Encodings(n, values[n])| + Formula(n, current) + Counted(values, n + 1, n)
  }

  // How often the next option has a number larger by 14 or 15
  function Gaps(values: map<nat, Value>, n: nat, current: nat): nat
    decreases LAST_OPTION + 1 - n, |values|
  {
    if n > LAST_OPTION then 0
    else if n !in values then Gaps(values, n + 1, current)
    else (if n == current + 14 || n == current + 15 then 1 else 0) + Gaps(values, n + 1, n)
  }

  lemma {:induction false} AscendingTag(current: nat, n: nat, bs: seq<seq<byte>>, more: seq<Opt>)
    requires current <= n <= LAST_OPTION && Ascending(n, more)
    ensures Ascending(current, Tag(n, bs) + more)
    ensures Emitted(current, Tag(n, bs) + more) ==
      if bs == [] then Emitted(current, more) else |bs| + (if Far(current, n) then 1 else 0) + Emitted(n, more)
    decreases bs
  {
    if bs == [] {
      assert Tag(n, bs) + more == more;
      AscendingLower(current, n, more);
    } else {
      assert (Tag(n, bs) + more)[1..] == Tag(n, bs[1..]) + more;
      AscendingTag(n, n, bs[1..], more);
    }
  }

  lemma AscendingLower(current: nat, n: nat, opts: seq<Opt>)
    requires current <= n && Ascending(n, opts)
    ensures Ascending(current, opts)
  {
  }

  // The formula for fence posts
  function Formula(n: nat, current: nat): nat {
    if n >= 15 && n >= current then (n - current) / 14 else 0
  }

  lemma FormulaOff(n: nat, current: nat)
    requires current <= n <= LAST_OPTION && n != 14
    ensures Formula(n, current) ==
      (if Far(current, n) then 1 else 0) + if n == current + 14 || n == current + 15 then 1 else 0
  {
  }

  lemma AllOptionsNext(values: map<nat, Value>, n: nat, current: nat)
    requires n <= LAST_OPTION && n in values && Typed(n, values[n]) && current <= n
    requires Ascending(n, AllOptions(values, n + 1))
    ensures n != 14 && Ascending(current, AllOptions(values, n))
    ensures Emitted(current, AllOptions(values, n)) ==
      |Encodings(n, values[n])| + (if Far(current, n) then 1 else 0) + Emitted(n, AllOptions(values, n + 1))
  {
    AscendingTag(current, n, Encodings(n, values[n]), AllOptions(values, n + 1));
  }

  // One more option that is set
  lemma CountedStep(values: map<nat, Value>, n: nat, current: nat)
    requires AllTyped(values) && current <= n <= LAST_OPTION && n in values && Ascending(n, AllOptions(values, n + 1))
    requires Counted(values, n + 1, n) == Emitted(n, AllOptions(values, n + 1)) + Gaps(values, n + 1, n)
    ensures Ascending(current, AllOptions(values, n))
    ensures Counted(values, n, current) == Emitted(current, AllOptions(values, n)) + Gaps(values, n, current)
  {
    assert TypedAt(values, n);
    AllOptionsNext(values, n, current);
    FormulaOff(n, current);
  }

  /** The count in the header exceeds the options written by the number of gaps of 14 or 15. */
  lemma {:induction false} CountedIsEmitted(values: map<nat, Value>, n: nat, current: nat)
    requires AllTyped(values) && current <= n
    ensures Ascending(current, AllOptions(values, n))
    ensures Counted(values, n, current) == Emitted(current, AllOptions(values, n)) + Gaps(values, n, current)
    decreases LAST_OPTION + 1 - n, |values|
  {
    if n <= LAST_OPTION {
      if n in values {
        CountedIsEmitted(values, n + 1, n);
        CountedStep(values, n, current);
      } else {
        CountedIsEmitted(values, n + 1, current);
        assert AllOptions(values, n) == AllOptions(values, n + 1);
      }
    }
  }

  // The bytes of all options
  function Body(values: map<nat, Value>): seq<byte>
    requires AllTyped(values)
  {
    CountedIsEmitted(values, 1, 0);
    Encode(0, AllOptions(values, 1))
  }

  ghost predicate PacketOk(p: Packet) {
    p.mtype < 4 && p.mid < 0x1_0000 && AllTyped(p.values) && |p.payload| <= MAX_CHUNK_SIZE
  }

  function Head(p: Packet): seq<byte>
    requires p.mtype < 4 && p.mid < 0x1_0000
  {
    [64 + p.mtype * 16 + Counted(p.values, 1, 0) % 16, p.code, p.mid / 256, p.mid % 256]
  }

  // What coap_serialize_message writes, if the options fit
  function Wire(p: Packet): seq<byte>
    requires PacketOk(p)
  {
    Head(p) + Body(p.values) + p.payload
  }

  predicate Fits(p: Packet)
    requires PacketOk(p)
  {
    4 + |Body(p.values)| <= MAX_HEADER_SIZE
  }

  lemma {:induction false} ValueSizes(current: nat, opts: seq<Opt>, o: Opt)
    requires Ascending(current, opts) && o in opts
    ensures |o.value| <= |Encode(current, opts)|
    decreases opts
  {
    if o != opts[0] {
      assert o in opts[1..];
      ValueSizes(opts[0].number, opts[1..], o);
    }
    var pieces := Pieces(current, opts);
    assert pieces[1..] == Pieces(opts[0].number, opts[1..]);
  }

  lemma TypedNumbers(values: map<nat, Value>)
    requires AllTyped(values)
    ensures SmallNumbers(values) && 0 !in values && 14 !in values
  {
    forall k | k in values
      ensures k <= LAST_OPTION && k != 0 && k != 14
    {
      assert TypedAt(values, k);
    }
    assert TypedAt(values, 0) && TypedAt(values, 14);
  }

  lemma ShortBody(values: map<nat, Value>)
    requires AllTyped(values) && |Body(values)| <= 270
    ensures Ascending(0, AllOptions(values, 1)) && ShortValues(AllOptions(values, 1))
  {
    CountedIsEmitted(values, 1, 0);
    forall o | o in AllOptions(values, 1)
      ensures |o.value| <= 270
    {
      ValueSizes(0, AllOptions(values, 1), o);
    }
  }

  // As many options as the header counts: those that were written, and one for each gap from behind them
  lemma BodyReads(values: map<nat, Value>, opts: seq<Opt>, data: seq<byte>)
    requires AllTyped(values) && opts == AllOptions(values, 1) && Ascending(0, opts) && ShortValues(opts)
    requires At(data, 4, Encode(0, opts))
    ensures OptionsIn(data, 4, Counted(values, 1, 0), 0) ==
      PutAll(0, opts, OptionsIn(data, 4 + |Encode(0, opts)|, Gaps(values, 1, 0), Last(0, opts)))
  {
    var n, k := Counted(values, 1, 0), Gaps(values, 1, 0);
    CountedIsEmitted(values, 1, 0);
    ReadsAll(data, 4, 0, opts, n, k);
  }

  // What is known after all options of a message
  function Everything(values: map<nat, Value>): Fields { Fields(ReturnedFrom(values, 1), SeenFrom(values, 1, 0)) }

  lemma BodyAbsorbed(values: map<nat, Value>, r: Raw)
    requires AllTyped(values)
    ensures AbsorbAll(NOTHING, PutAll(0, AllOptions(values, 1), r)) == AbsorbAll(Everything(values), r)
  {
    ReadFromPuts(values, 1, 0, r);
    AbsorbsFrom(values, 1, 0, NOTHING, r);
    TypedNumbers(values);
    KnownValues(values, 1, 0, NOTHING);
    KnownSeen(values, 1, 0, NOTHING);
    assert Known(values, 1, 0, NOTHING) == Everything(values);
  }

  // What a message that was written looks like to the parser
  ghost predicate Looks(p: Packet, data: seq<byte>)
    requires PacketOk(p)
  {
    && |data| == 4 + |Body(p.values)| + |p.payload|
    && data[0] / 64 == 1 && data[0] / 16 % 4 == p.mtype && data[0] % 16 == Counted(p.values, 1, 0) % 16
    && data[1] == p.code && data[2] as nat * 256 + data[3] == p.mid
    && At(data, 4, Body(p.values)) && data[4 + |Body(p.values)|..] == p.payload
  }

  lemma WireLooks(p: Packet)
    requires PacketOk(p)
    ensures Looks(p, Wire(p))
  {
    var data := Wire(p);
    assert data == Head(p) + (Body(p.values) + p.payload);
  }

  // What is read behind the options of a message that was written
  function Behind(values: map<nat, Value>, data: seq<byte>): Raw
    requires AllTyped(values)
  {
    OptionsIn(data, 4 + |Body(values)|, Gaps(values, 1, 0), Last(0, AllOptions(values, 1)))
  }

  // What reading the options of a message that was written comes to
  lemma BodyOutcome(values: map<nat, Value>, opts: seq<Opt>, data: seq<byte>)
    requires AllTyped(values) && opts == AllOptions(values, 1) && Ascending(0, opts) && ShortValues(opts)
    requires At(data, 4, Encode(0, opts))
    ensures AbsorbAll(NOTHING, OptionsIn(data, 4, Counted(values, 1, 0), 0)) ==
      AbsorbAll(Everything(values), Behind(values, data))
  {
    BodyReads(values, opts, data);
    BodyAbsorbed(values, Behind(values, data));
  }

  lemma OptionsOutcome(values: map<nat, Value>, data: seq<byte>)
    requires AllTyped(values) && |Body(values)| <= 270 && At(data, 4, Body(values))
    ensures AbsorbAll(NOTHING, OptionsIn(data, 4, Counted(values, 1, 0), 0)) ==
      AbsorbAll(Everything(values), Behind(values, data))
  {
    ShortBody(values);
    BodyOutcome(values, AllOptions(values, 1), data);
  }

  // The position of the payload
  function PayloadAt(p: Packet): nat
    requires PacketOk(p)
  {
    4 + |Body(p.values)|
  }

  // How a message that was written is parsed
  lemma WireParses(p: Packet, data: seq<byte>)
    requires PacketOk(p) && Fits(p) && Counted(p.values, 1, 0) <= 15 && Looks(p, data)
    ensures Parse(data) ==
      Assemble(p.mtype, p.code, p.mid, data, AbsorbAll(Everything(p.values), Behind(p.values, data)))
  {
    OptionsOutcome(p.values, data);
    Below16(Counted(p.values, 1, 0));
    ParseForm(data, p.mtype, p.code, p.mid, Counted(p.values, 1, 0));
  }

  lemma ParseForm(data: seq<byte>, mtype: nat, code: byte, mid: nat, n: nat)
    requires |data| >= 4 && data[0] / 64 == 1 && data[0] / 16 % 4 == mtype && data[0] % 16 == n
    requires data[1] == code && data[2] as nat * 256 + data[3] == mid
    ensures Parse(data) == Assemble(mtype, code, mid, data, AbsorbAll(NOTHING, OptionsIn(data, 4, n, 0)))
  {
  }

  lemma Below16(c: nat)
    requires c < 16
    ensures c % 16 == c
  {
  }

  /** Without gaps of 14 or 15 a message is read as it was written, strings up to how they are split. */
  lemma RoundTrip(p: Packet, data: seq<byte>)
    requires PacketOk(p) && Fits(p) && Counted(p.values, 1, 0) <= 15 && Gaps(p.values, 1, 0) == 0 && Looks(p, data)
    ensures Parse(data) == Message(p.(values := ReturnedFrom(p.values, 1)), SeenFrom(p.values, 1, 0))
  {
    WireParses(p, data);
    assert Behind(p.values, data) == Stop(PayloadAt(p), true);
  }

  // The position where reading ends
  function End(r: Raw): nat {
    match r
    case Read(_, next) => End(next)
    case Stop(at, _) => at
  }

  lemma {:induction false} AbsorbedEnd(f: Fields, r: Raw)
    ensures AbsorbAll(f, r).Done? ==> AbsorbAll(f, r).at == End(r)
    decreases r
  {
    if r.Read? {
      var next := Absorb(f, r.o.number, r.o.value);
      if next.Took? {
        AbsorbedEnd(next.fields, r.next);
      }
    }
  }

  // Options that lie within the message take at least a byte each.
  lemma {:induction false} LaterEnd(data: seq<byte>, at: nat, n: nat, current: nat)
    requires at <= |data|
    ensures at <= End(OptionsIn(data, at, n, current)) <= |data|
    ensures n > 0 && Inside(data, at) ==> at < End(OptionsIn(data, at, n, current))
    decreases n
  {
    if n > 0 && Inside(data, at) {
      var to := at + HeaderSize(data, at) + ValueSize(data, at);
      LaterEnd(data, to, n - 1, current + data[at] as nat / 16);
    }
  }

  lemma GapOutcome(values: map<nat, Value>, data: seq<byte>, f: Fields)
    requires AllTyped(values) && Gaps(values, 1, 0) > 0 && 4 + |Body(values)| <= |data|
    ensures var a := AbsorbAll(f, Behind(values, data)); a.Done? ==> 4 + |Body(values)| < a.at <= |data|
  {
    LaterEnd(data, 4 + |Body(values)|, Gaps(values, 1, 0), Last(0, AllOptions(values, 1)));
    AbsorbedEnd(f, Behind(values, data));
  }

  /** With such a gap some of the payload is taken for options, so the message does not come back. */
  lemma GapsTakePayload(p: Packet, data: seq<byte>)
    requires PacketOk(p) && Fits(p) && Counted(p.values, 1, 0) <= 15 && Gaps(p.values, 1, 0) > 0 && Looks(p, data)
    ensures Parse(data).Message? ==> |Parse(data).p.payload| < |p.payload|
  {
    WireParses(p, data);
    GapOutcome(p.values, data, Everything(p.values));
  }

  // ---------------------------------------------------------------- more options than the header can count

  // There is at most one such gap.
  lemma {:induction false} FewGaps(values: map<nat, Value>, n: nat, current: nat)
    requires current <= n && current <= LAST_OPTION
    ensures 14 * Gaps(values, n, current) + current <= LAST_OPTION
    decreases LAST_OPTION + 1 - n, |values|
  {
    if n <= LAST_OPTION {
      FewGaps(values, n + 1, if n in values then n else current);
    }
  }

  // `r` is the first `m` options of `whole`.
  predicate Cut(r: Raw, whole: Raw, m: nat)
    decreases m
  {
    if m == 0 then r.Stop? else r.Read? && whole.Read? && r.o == whole.o && Cut(r.next, whole.next, m - 1)
  }

  // All of the options lie within the message.
  predicate Complete(r: Raw) {
    match r
    case Read(_, next) => Complete(next)
    case Stop(_, complete) => complete
  }

  function Drop(r: Raw, m: nat): Raw
    decreases m
  {
    if m == 0 || r.Stop? then r else Drop(r.next, m - 1)
  }

  lemma {:induction false} OptionsCut(data: seq<byte>, at: nat, m: nat, n: nat, current: nat)
    requires m <= n && Complete(OptionsIn(data, at, n, current))
    ensures Cut(OptionsIn(data, at, m, current), OptionsIn(data, at, n, current), m)
    decreases m
  {
    if m > 0 {
      assert Inside(data, at);
      var to := at + HeaderSize(data, at) + ValueSize(data, at);
      OptionsCut(data, to, m - 1, n - 1, current + data[at] as nat / 16);
    }
  }

  lemma {:induction false} PutComplete(current: nat, opts: seq<Opt>, r: Raw)
    requires Complete(r)
    ensures Complete(PutAll(current, opts, r))
    decreases opts
  {
    if opts != [] {
      PutComplete(opts[0].number, opts[1..], r);
    }
  }

  // Reading goes on behind the options with one number.
  lemma {:induction false} CutBehind(r: Raw, n: nat, bs: seq<seq<byte>>, rest: Raw, m: nat)
    requires |bs| <= m && Cut(r, PutAll(n, Tag(n, bs), rest), m)
    ensures r == PutAll(n, Tag(n, bs), Drop(r, |bs|)) && Cut(Drop(r, |bs|), rest, m - |bs|)
    decreases bs
  {
    if bs != [] {
      assert Tag(n, bs)[1..] == Tag(n, bs[1..]);
      CutBehind(r.next, n, bs[1..], rest, m - 1);
    }
  }

  // Reading ends among the options with one number.
  lemma {:induction false} CutWithin(f: Fields, r: Raw, n: nat, bs: seq<seq<byte>>, rest: Raw, m: nat)
    requires m <= |bs| && Cut(r, PutAll(n, Tag(n, bs), rest), m)
    ensures AbsorbAll(f, r).Done? ==> AbsorbBytes(f, n, bs[..m]) == Took(AbsorbAll(f, r).fields)
    decreases m
  {
    if m > 0 {
      assert Tag(n, bs)[1..] == Tag(n, bs[1..]);
      assert bs[..m][0] == bs[0] && bs[..m][1..] == bs[1..][..m - 1];
      var next := Absorb(f, n, bs[0]);
      if next.Took? {
        CutWithin(next.fields, r.next, n, bs[1..], rest, m - 1);
      }
    }
  }

  // No part of a string but the first can be empty.
  lemma {:induction false} LaterParts(s: seq<byte>, sep: byte, start: nat, j: nat)
    requires start <= j <= |s|
    ensures start < j ==> PartsFrom(s, sep, start, j)[0] != []
    ensures forall part | part in PartsFrom(s, sep, start, j)[1..] :: part != []
    decreases |s| - j
  {
    var parts := PartsFrom(s, sep, start, j);
    if j < |s| && s[j] != sep {
      LaterParts(s, sep, start, j + 1);
    } else if j < |s| && SkipSlashes(s, j + 1) < |s| {
      var k := SkipSlashes(s, j + 1);
      LaterParts(s, sep, k, k + 1);
      var later := PartsFrom(s, sep, k, k + 1);
      assert parts[1..] == later && later == [later[0]] + later[1..];
    }
  }

  lemma {:induction false} MergeConcat(s: seq<byte>, parts: seq<seq<byte>>, more: seq<seq<byte>>, sep: byte)
    requires forall part | part in more :: part != []
    ensures |MergeAll(s, parts + more, sep)| >= |MergeAll(s, parts, sep)| + |more|
    decreases |parts| + |more|
  {
    if parts != [] {
      assert (parts + more)[0] == parts[0] && (parts + more)[1..] == parts[1..] + more;
      MergeConcat(Merge(s, parts[0], sep), parts[1..], more, sep);
    } else if more != [] {
      assert parts + more == more && more[0] in more && [] + more[1..] == more[1..];
      assert forall part | part in more[1..] :: part in more;
      MergeConcat(Merge(s, more[0], sep), [], more[1..], sep);
    }
  }

  // Some of the parts of a string are not the whole string.
  lemma SomeParts(text: seq<byte>, sep: byte, k: nat)
    requires 0 < k < |Parts(text, sep)|
    ensures MergeAll([], Parts(text, sep)[..k], sep) != text
  {
    var parts := Parts(text, sep);
    LaterParts(text, sep, 0, 0);
    assert parts == parts[..k] + parts[k..];
    forall part | part in parts[k..]
      ensures part != []
    {
      assert part in parts[1..];
    }
    MergeConcat([], parts[..k], parts[k..], sep);
    BackMerges([], text, sep, 0, 0);
    BackLength([], text, sep, 0, 0);
  }

  // Some of the options of a value do not give the value.
  lemma SomeOptions(f: Fields, n: nat, v: Value, k: nat)
    requires Typed(n, v) && n !in f.values && k < |Encodings(n, v)|
    ensures var a := AbsorbBytes(f, n, Encodings(n, v)[..k]);
      a.Took? ==> n !in a.fields.values || a.fields.values[n] != v
  {
    var bs := Encodings(n, v);
    if k > 0 {
      assert bs[..k] != [];
      if KindOf(n).TextKind? {
        AbsorbsSome(f, n, bs[..k]);
        SomeParts(v.text, KindOf(n).sep, k);
      } else {
        assert v.vs[0] in v.vs && bs[..k] == [IntBytes(v.vs[0])];
        IntRoundTrip(v.vs[0]);
        AbsorbsOne(f, n, v.vs[0], IntBytes(v.vs[0]));
      }
    }
  }

  // How many options a value takes
  function Taken(current: nat, n: nat, v: Value): nat {
    |Encodings(n, v)| + if Far(current, n) then 1 else 0
  }

  // Reading ends before or among options with one number.
  lemma CutAmong(f: Fields, r: Raw, current: nat, n: nat, bs: seq<seq<byte>>, rest: Raw, m: nat)
    returns (g: Fields, k: nat)
    requires bs != [] && m < |bs| + (if Far(current, n) then 1 else 0)
    requires Cut(r, PutAll(current, Tag(n, bs), rest), m)
    ensures g.values == f.values && k < |bs|
    ensures AbsorbAll(f, r).Done? ==> AbsorbBytes(g, n, bs[..k]) == Took(AbsorbAll(f, r).fields)
  {
    FenceFirst(current, n, bs, rest);
    if !Far(current, n) {
      g, k := f, m;
      CutWithin(f, r, n, bs, rest, m);
    } else if m > 0 {
      g, k := f.(seen := f.seen + {14}), m - 1;
      assert r.o == Opt(14, []) && Absorb(f, 14, []) == Took(g);
      CutWithin(g, r.next, n, bs, rest, m - 1);
    } else {
      g, k := f, 0;
      assert bs[..0] == [];
    }
  }

  // Reading ends before or among the options of a value.
  lemma CutValue(f: Fields, r: Raw, current: nat, n: nat, v: Value, rest: Raw, m: nat)
    requires Typed(n, v) && n !in f.values && m < Taken(current, n, v)
    requires Cut(r, PutAll(current, Tag(n, Encodings(n, v)), rest), m)
    ensures var a := AbsorbAll(f, r); a.Done? ==> n !in a.fields.values || a.fields.values[n] != v
  {
    assert Encodings(n, v) != [];
    var g, k := CutAmong(f, r, current, n, Encodings(n, v), rest, m);
    SomeOptions(g, n, v, k);
  }

  lemma FenceFirst(current: nat, n: nat, bs: seq<seq<byte>>, rest: Raw)
    requires bs != []
    ensures var same := PutAll(n, Tag(n, bs), rest);
      PutAll(current, Tag(n, bs), rest) == if Far(current, n) then Read(Opt(14, []), same) else same
  {
  }

  // Reading goes on behind options with one number that make `g` of what is known.
  lemma CutSame(f: Fields, g: Fields, r: Raw, n: nat, bs: seq<seq<byte>>, rest: Raw, m: nat, k: nat)
    requires AbsorbBytes(f, n, bs) == Took(g) && k == |bs| <= m && Cut(r, PutAll(n, Tag(n, bs), rest), m)
    ensures AbsorbAll(f, r) == AbsorbAll(g, Drop(r, k)) && Cut(Drop(r, k), rest, m - k)
  {
    CutBehind(r, n, bs, rest, m);
    AbsorbsSame(f, n, bs, Drop(r, k));
  }

  // The same with a fence post in front of them
  lemma CutFenced(f: Fields, g: Fields, r: Raw, n: nat, bs: seq<seq<byte>>, rest: Raw, m: nat, k: nat)
    requires AbsorbBytes(f.(seen := f.seen + {14}), n, bs) == Took(g) && k == |bs| + 1 <= m
    requires Cut(r, Read(Opt(14, []), PutAll(n, Tag(n, bs), rest)), m)
    ensures AbsorbAll(f, r) == AbsorbAll(g, Drop(r, k)) && Cut(Drop(r, k), rest, m - k)
  {
    CutFence(f, r, PutAll(n, Tag(n, bs), rest), m, k);
    CutSame(f.(seen := f.seen + {14}), g, r.next, n, bs, rest, m - 1, k - 1);
  }

  lemma CutFence(f: Fields, r: Raw, same: Raw, m: nat, k: nat)
    requires 1 <= k <= m && Cut(r, Read(Opt(14, []), same), m)
    ensures r.Read? && Cut(r.next, same, m - 1) && Drop(r, k) == Drop(r.next, k - 1)
    ensures AbsorbAll(f, r) == AbsorbAll(f.(seen := f.seen + {14}), r.next)
  {
    assert r.o == Opt(14, []) && Absorb(f, 14, []) == Took(f.(seen := f.seen + {14}));
  }

  lemma CutOptions(f: Fields, g: Fields, r: Raw, current: nat, n: nat, bs: seq<seq<byte>>, rest: Raw, m: nat, k: nat)
    requires bs != [] && AbsorbBytes(Fenced(f, current, n), n, bs) == Took(g)
    requires k == |bs| + (if Far(current, n) then 1 else 0) <= m && Cut(r, PutAll(current, Tag(n, bs), rest), m)
    ensures AbsorbAll(f, r) == AbsorbAll(g, Drop(r, k)) && Cut(Drop(r, k), rest, m - k)
  {
    FenceFirst(current, n, bs, rest);
    if Far(current, n) {
      CutFenced(f, g, r, n, bs, rest, m, k);
    } else {
      CutSame(f, g, r, n, bs, rest, m, k);
    }
  }

  // What is known after the fence post, if there is one
  function Fenced(f: Fields, current: nat, n: nat): Fields {
    if Far(current, n) then f.(seen := f.seen + {14}) else f
  }

  lemma GrowTakes(f: Fields, current: nat, n: nat, v: Value)
    requires Typed(n, v) && n !in f.values
    ensures AbsorbBytes(Fenced(f, current, n), n, Encodings(n, v)) == Took(Grow(f, current, n, v))
    ensures Encodings(n, v) != []
  {
    AbsorbsValue(Fenced(f, current, n), n, v);
    assert Fenced(f, current, n).seen + {n} == Grow(f, current, n, v).seen;
  }

  // Reading goes on behind the options of a value.
  lemma CutNext(f: Fields, r: Raw, current: nat, n: nat, v: Value, rest: Raw, m: nat)
    requires Typed(n, v) && n !in f.values && Taken(current, n, v) <= m
    requires Cut(r, PutAll(current, Tag(n, Encodings(n, v)), rest), m)
    ensures AbsorbAll(f, r) == AbsorbAll(Grow(f, current, n, v), Drop(r, Taken(current, n, v)))
    ensures Cut(Drop(r, Taken(current, n, v)), rest, m - Taken(current, n, v))
  {
    GrowTakes(f, current, n, v);
    CutOptions(f, Grow(f, current, n, v), r, current, n, Encodings(n, v), rest, m, Taken(current, n, v));
  }

  lemma CountedNext(values: map<nat, Value>, n: nat, current: nat)
    requires AllTyped(values) && current <= n <= LAST_OPTION && n in values
    ensures Counted(values, n, current) - Gaps(values, n, current) ==
      Taken(current, n, values[n]) + Counted(values, n + 1, n) - Gaps(values, n + 1, n)
  {
    assert TypedAt(values, n);
    FormulaOff(n, current);
  }

  // What is read of the options of the values with numbers from `n` on ends before the last of them.
  ghost predicate CutsOff(values: map<nat, Value>, n: nat, current: nat, f: Fields, r: Raw, rest: Raw, m: nat) {
    && (forall k | k in f.values :: k < n) && current <= n
    && m + Gaps(values, n, current) < Counted(values, n, current) && Cut(r, ReadFrom(values, n, current, rest), m)
  }

  lemma CutsOffStep(values: map<nat, Value>, n: nat, current: nat, f: Fields, r: Raw, rest: Raw, m: nat, k: nat)
    requires AllTyped(values) && n in values && CutsOff(values, n, current, f, r, rest, m)
    requires k == Taken(current, n, values[n]) <= m
    ensures n <= LAST_OPTION && CutsOff(values, n + 1, n, Grow(f, current, n, values[n]), Drop(r, k), rest, m - k)
    ensures AbsorbAll(f, r) == AbsorbAll(Grow(f, current, n, values[n]), Drop(r, k))
  {
    assert TypedAt(values, n);
    CountedNext(values, n, current);
    CutNext(f, r, current, n, values[n], ReadFrom(values, n + 1, n, rest), m);
  }

  lemma CutsOffNext(values: map<nat, Value>, n: nat, current: nat, f: Fields, r: Raw, rest: Raw, m: nat)
    returns (g: Fields, later: Raw, left: nat)
    requires AllTyped(values) && n in values && CutsOff(values, n, current, f, r, rest, m)
    requires Taken(current, n, values[n]) <= m
    ensures n <= LAST_OPTION && CutsOff(values, n + 1, n, g, later, rest, left)
    ensures AbsorbAll(f, r) == AbsorbAll(g, later)
  {
    var k := Taken(current, n, values[n]);
    CutsOffStep(values, n, current, f, r, rest, m, k);
    g, later, left := Grow(f, current, n, values[n]), Drop(r, k), m - k;
  }

  lemma CutsOffSkip(values: map<nat, Value>, n: nat, current: nat, f: Fields, r: Raw, rest: Raw, m: nat)
    requires n !in values && CutsOff(values, n, current, f, r, rest, m)
    ensures n <= LAST_OPTION && CutsOff(values, n + 1, current, f, r, rest, m)
  {
  }

  lemma CutsOffHere(values: map<nat, Value>, n: nat, current: nat, f: Fields, r: Raw, rest: Raw, m: nat)
    requires AllTyped(values) && n in values && CutsOff(values, n, current, f, r, rest, m)
    requires m < Taken(current, n, values[n])
    ensures AbsorbAll(f, r).Done? ==> AbsorbAll(f, r).fields.values != values
  {
    assert TypedAt(values, n);
    CutValue(f, r, current, n, values[n], ReadFrom(values, n + 1, n, rest), m);
  }

  // Fewer options than were written do not give all values.
  lemma {:induction false} CutLoses(values: map<nat, Value>, n: nat, current: nat, f: Fields, r: Raw, rest: Raw, m: nat)
    requires AllTyped(values) && CutsOff(values, n, current, f, r, rest, m)
    ensures AbsorbAll(f, r).Done? ==> AbsorbAll(f, r).fields.values != values
    decreases LAST_OPTION + 1 - n, |values|
  {
    if n !in values {
      CutsOffSkip(values, n, current, f, r, rest, m);
      CutLoses(values, n + 1, current, f, r, rest, m);
    } else if Taken(current, n, values[n]) <= m {
      var g, later, left := CutsOffNext(values, n, current, f, r, rest, m);
      CutLoses(values, n + 1, n, g, later, rest, left);
    } else {
      CutsOffHere(values, n, current, f, r, rest, m);
    }
  }

  // Reading some of the options that were written
  lemma SomeRead(values: map<nat, Value>, opts: seq<Opt>, data: seq<byte>, n: nat, end: nat, m: nat)
    requires AllTyped(values) && opts == AllOptions(values, 1)
    requires m < n && n + Gaps(values, 1, 0) == Counted(values, 1, 0)
    requires OptionsIn(data, 4, n, 0) == PutAll(0, opts, Stop(end, true))
    ensures var a := AbsorbAll(NOTHING, OptionsIn(data, 4, m, 0)); a.Done? ==> a.fields.values != values
  {
    var rest := Stop(end, true);
    PutComplete(0, opts, rest);
    OptionsCut(data, 4, m, n, 0);
    ReadFromPuts(values, 1, 0, rest);
    CutLoses(values, 1, 0, NOTHING, OptionsIn(data, 4, m, 0), rest, m);
  }

  // Reading all of them
  lemma AllRead(values: map<nat, Value>, data: seq<byte>) returns (n: nat, end: nat)
    requires AllTyped(values) && |Body(values)| <= 270 && At(data, 4, Body(values))
    ensures n + Gaps(values, 1, 0) == Counted(values, 1, 0)
    ensures OptionsIn(data, 4, n, 0) == PutAll(0, AllOptions(values, 1), Stop(end, true))
  {
    ShortBody(values);
    CountedIsEmitted(values, 1, 0);
    var opts := AllOptions(values, 1);
    n, end := Emitted(0, opts), 4 + |Encode(0, opts)|;
    ReadsAll(data, 4, 0, opts, n, 0);
  }

  lemma WrapsBelow(counted: nat, gaps: nat, n: nat, m: nat)
    requires counted > 15 && m == counted % 16 && 14 * gaps <= LAST_OPTION && n + gaps == counted
    ensures m < n
  {
  }

  // The header counts options modulo 16: of more than 15 some are not read, and a value is lost.
  lemma TooManyLost(values: map<nat, Value>, data: seq<byte>, m: nat)
    requires AllTyped(values) && |Body(values)| <= 270 && At(data, 4, Body(values))
    requires m == Counted(values, 1, 0) % 16 && Counted(values, 1, 0) > 15
    ensures var a := AbsorbAll(NOTHING, OptionsIn(data, 4, m, 0)); a.Done? ==> a.fields.values != values
  {
    var n, end := AllRead(values, data);
    FewGaps(values, 1, 0);
    WrapsBelow(Counted(values, 1, 0), Gaps(values, 1, 0), n, m);
    SomeRead(values, AllOptions(values, 1), data, n, end, m);
  }

  /** A message with more than 15 options does not come back. */
  lemma CountWraps(p: Packet, data: seq<byte>)
    requires PacketOk(p) && Fits(p) && Counted(p.values, 1, 0) > 15 && Looks(p, data)
    ensures Parse(data).Message? ==> Parse(data).p.values != p.values
  {
    var m := Counted(p.values, 1, 0) % 16;
    TooManyLost(p.values, data, m);
    ParseForm(data, p.mtype, p.code, p.mid, m);
  }

  // Every string in parts is one that comes back.
  predicate AllClean(values: map<nat, Value>) {
    forall n | n in values && KindOf(n).TextKind? && values[n].Text? :: Clean(values[n].text, KindOf(n).sep)
  }

  lemma ReturnedIff(values: map<nat, Value>)
    requires AllTyped(values)
    ensures ReturnedFrom(values, 1) == values <==> AllClean(values)
  {
    TypedNumbers(values);
    forall n | n in values
      ensures Returned(n, values[n]) == values[n] <==>
        (KindOf(n).TextKind? && values[n].Text? ==> Clean(values[n].text, KindOf(n).sep))
    {
      if KindOf(n).TextKind? && values[n].Text? {
        PartsMergeIff(values[n].text, KindOf(n).sep);
      }
    }
    if ReturnedFrom(values, 1) == values {
      assert forall n | n in values :: ReturnedFrom(values, 1)[n] == values[n];
    }
  }

  /**
   The round trip: with options in at most 50 bytes, serializing and parsing gives back the header fields, every
   value and the payload, if and only if the header counts at most 15 options, no two consecutive ones are 14 or 15
   apart, and no string has a separator that is lost.
   */
  lemma RoundTripIff(p: Packet)
    requires PacketOk(p) && Fits(p)
    ensures Parse(Wire(p)) == Message(p, SeenFrom(p.values, 1, 0)) <==>
      Counted(p.values, 1, 0) <= 15 && Gaps(p.values, 1, 0) == 0 && AllClean(p.values)
  {
    WireLooks(p);
    LooksIff(p, Wire(p));
  }

  lemma LooksIff(p: Packet, data: seq<byte>)
    requires PacketOk(p) && Fits(p) && Looks(p, data)
    ensures Parse(data) == Message(p, SeenFrom(p.values, 1, 0)) <==>
      Counted(p.values, 1, 0) <= 15 && Gaps(p.values, 1, 0) == 0 && AllClean(p.values)
  {
    if Counted(p.values, 1, 0) > 15 {
      CountWraps(p, data);
    } else if Gaps(p.values, 1, 0) == 0 {
      RoundTrip(p, data);
      ReturnedIff(p.values);
    } else {
      GapsTakePayload(p, data);
    }
  }
}
