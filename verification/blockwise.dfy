/**
 Blockwise transfer of the resource list (apps/er-coap-07/er-coap-07-engine.c): the handler of
 /.well-known/core writes one window of the list in link format, the engine cuts it to a block,
 and the client loop asks for one block after the other.

 Offsets stay below 2^31 because block numbers have 20 bits and a block has at most 2048 bytes.
 */
module Blockwise {
  import opened Bytes
  import opened Options

  /** A resource; `listed` says whether it passes the filter of the query. */
  datatype Resource = Resource(url: seq<byte>, attributes: seq<byte>, listed: bool)

  // "BlockOutOfScope"
  const OUT_OF_SCOPE: seq<byte> := [66, 108, 111, 99, 107, 79, 117, 116, 79, 102, 83, 99, 111, 112, 101]

  const MAX_BLOCK_NUM := 0xF_FFFF

  // ---------------------------------------------------------------- the list in link format

  function Tail(r: Resource, last: bool): seq<byte> {
    (if r.attributes == [] then [] else [59] + r.attributes) + (if last then [] else [44])
  }

  // One entry: </url>;attributes, with a comma unless the resource is the last of all
  function Link(r: Resource, last: bool): seq<byte> {
    [60, 47] + r.url + [62] + Tail(r, last)
  }

  // The entries of the first `n` resources
  function Text(rs: seq<Resource>, n: nat): seq<byte>
    requires n <= |rs|
  {
    if n == 0 then []
    else if rs[n - 1].listed then Text(rs, n - 1) + Link(rs[n - 1], n == |rs|)
    else Text(rs, n - 1)
  }

  function Full(rs: seq<Resource>): seq<byte> { Text(rs, |rs|) }

  lemma {:induction false} TextGrows(rs: seq<Resource>, n: nat, m: nat)
    requires n <= m <= |rs|
    ensures Text(rs, n) <= Text(rs, m)
    decreases m
  {
    if n < m {
      TextGrows(rs, n, m - 1);
    }
  }

  function Min(a: nat, b: nat): nat { if a < b then a else b }

  // At most `size` bytes of a text from `offset` on
  function Window(text: seq<byte>, offset: nat, size: nat): (w: seq<byte>)
    ensures |w| <= size
  {
    if |text| <= offset then [] else text[offset..Min(offset + size, |text|)]
  }

  // The list ends with the attributes of a resource, not with '>' or ','.
  predicate EndsInAttributes(rs: seq<Resource>) {
    rs != [] && rs[|rs| - 1].listed && rs[|rs| - 1].attributes != []
  }

  // The handler says that this window is the last one.
  predicate Done(rs: seq<Resource>, offset: nat, size: nat) {
    var n := |Full(rs)|;
    n < offset + size || (n == offset + size && !EndsInAttributes(rs))
  }

  // ---------------------------------------------------------------- the handler

  datatype Reply = Reply(bad: bool, payload: seq<byte>, next: int)

  /** The variables of well_known_core_handler. */
  class Handler {
    const buffer: array<byte>
    const offset: nat
    const size: nat
    var bufpos: nat
    var strpos: nat

    constructor (buffer: array<byte>, offset: nat, size: nat)
      requires 0 < size < buffer.Length
      ensures Holds([]) && this.buffer == buffer && this.offset == offset && this.size == size
    {
      this.buffer, this.offset, this.size, bufpos, strpos := buffer, offset, size, 0, 0;
    }

    // The window of the text so far is in the buffer.
    ghost predicate Holds(text: seq<byte>)
      reads this, buffer
    {
      && 0 < size < buffer.Length
      && strpos == |text| && bufpos == |Window(text, offset, size)|
      && buffer[..bufpos] == Window(text, offset, size)
    }

    // The window of the text fills the buffer; `bufpos` may be too large.
    ghost predicate Filled(text: seq<byte>)
      reads this, buffer
    {
      && 0 < size < buffer.Length
      && size <= bufpos && offset + size <= |text| && buffer[..size] == text[offset..offset + size]
    }

    method PutChar(c: byte, ghost text: seq<byte>)
      requires Holds(text)
      modifies this, buffer
      ensures Holds(text + [c])
    {
      if strpos + 1 > offset {
        WindowGrows(text, [c], offset, size);
      }
      if strpos >= offset && bufpos < size {
        ghost var before := buffer[..bufpos];
        buffer[bufpos] := c;
        assert buffer[..bufpos + 1] == before + [c];
        bufpos := bufpos + 1;
      }
      strpos := strpos + 1;
    }

    // snprintf: as much of the string as there is room for and a zero, but the length of all of it
    method Print(s: seq<byte>)
      requires bufpos <= size < buffer.Length
      modifies this`bufpos, buffer
      ensures bufpos == old(bufpos) + |s|
      ensures var n := Min(|s|, size - old(bufpos));
        buffer[..old(bufpos) + n] == old(buffer[..bufpos]) + s[..n]
    {
      var n := Min(|s|, size - bufpos);
      forall i | 0 <= i < n {
        buffer[bufpos + i] := s[i];
      }
      buffer[bufpos + n] := 0;
      bufpos := bufpos + |s|;
    }

    // The part of a string that is behind the offset
    method PutString(s: seq<byte>, ghost text: seq<byte>) returns (full: bool)
      requires Holds(text)
      modifies this, buffer
      ensures full <==> offset + size <= |text + s|
      ensures if full then Filled(text + s) else Holds(text + s)
    {
      if strpos + |s| > offset {
        var skipped := if offset > strpos then offset - strpos else 0;
        WindowGrows(text, s, offset, size);
        Print(s[skipped..]);
        if bufpos >= size {
          return true;
        }
      }
      strpos := strpos + |s|;
      full := false;
    }

    // Whether the buffer is full before the resource is complete
    method PutLink(r: Resource, last: bool, ghost text: seq<byte>) returns (stop: bool)
      requires Holds(text)
      modifies this, buffer
      ensures stop <==> Stops(text, r, last, offset, size)
      ensures if stop then Filled(text + Link(r, last)) else Holds(text + Link(r, last))
    {
      LinkParts(text, r, last);
      PutChar(60, text);
      PutChar(47, text + [60]);
      ghost var head := text + [60] + [47];
      stop := PutString(r.url, head);
      if stop {
        FilledMore(head + r.url, [62] + Tail(r, last));
        return;
      }
      PutChar(62, head + r.url);
      stop := PutTail(r, last, head + r.url + [62]);
    }

    // The part after the '>'
    method PutTail(r: Resource, last: bool, ghost text: seq<byte>) returns (stop: bool)
      requires Holds(text)
      modifies this, buffer
      ensures stop <==> TailStops(text, r, last, offset, size)
      ensures if stop then Filled(text + Tail(r, last)) else Holds(text + Tail(r, last))
    {
      TailParts(text, r, last);
      ghost var done := text;
      if r.attributes != [] {
        PutChar(59, text);
        stop := PutString(r.attributes, text + [59]);
        done := text + [59] + r.attributes;
        if stop {
          FilledMore(done, if last then [] else [44]);
          return;
        }
      }
      if !last {
        PutChar(44, done);
        done := done + [44];
      }
      stop := bufpos >= size && strpos - bufpos > offset;
      assert done == text + Tail(r, last);
    }

    lemma FilledMore(text: seq<byte>, more: seq<byte>)
      requires Filled(text)
      ensures Filled(text + more)
    {
    }

    // The loop over the resources
    method PutResources(rs: seq<Resource>) returns (stop: bool)
      requires Holds([])
      modifies this, buffer
      ensures stop <==> !Done(rs, offset, size)
      ensures if stop then Filled(Full(rs)) else Holds(Full(rs))
    {
      var i := 0;
      while i < |rs|
        invariant 0 <= i <= |rs| && Holds(Text(rs, i)) && Open(rs, i, offset, size)
      {
        if rs[i].listed {
          stop := PutLink(rs[i], i + 1 == |rs|, Text(rs, i));
          StopsMeansMore(rs, i, offset, size);
          if stop {
            FilledMore(Text(rs, i + 1), Full(rs)[|Text(rs, i + 1)|..]);
            return;
          }
        }
        i := i + 1;
      }
      stop := false;
    }

    // The rest of the handler; the payload is cut to the chunk size.
    method Finish(stop: bool, chunk: nat, ghost full: seq<byte>) returns (r: Reply)
      requires size <= chunk < buffer.Length && 16 <= chunk
      requires if stop then Filled(full) else Holds(full)
      requires stop ==> offset + size <= |full|
      ensures r.next == (if stop then offset + size else -1) && |r.payload| <= chunk
      ensures r.bad <==> full != [] && |full| <= offset
      ensures if offset < |full|
        then size <= |r.payload| || !stop
        else r.payload == if full == [] then [] else OUT_OF_SCOPE
      ensures offset < |full| ==> r.payload[..Min(size, |r.payload|)] == Window(full, offset, size)
      ensures !stop && offset < |full| ==> |r.payload| <= size
    {
      r := Reply(false, [], if stop then offset + size else -1);
      if bufpos > 0 {
        r := r.(payload := buffer[..Min(chunk, bufpos)]);
        assert stop ==> buffer[..Min(chunk, bufpos)][..size] == buffer[..size];
      } else if strpos > 0 {
        r := r.(bad := true, payload := OUT_OF_SCOPE);
      }
    }
  }

  lemma SliceOfConcat(text: seq<byte>, s: seq<byte>, from: nat, to: nat)
    requires from <= to <= |text| + |s|
    ensures to <= |text| ==> (text + s)[from..to] == text[from..to]
    ensures |text| <= from ==> (text + s)[from..to] == s[from - |text|..to - |text|]
    ensures from <= |text| <= to ==> (text + s)[from..to] == text[from..] + s[..to - |text|]
  {
  }

  // What printing the rest of a string into the room that is left amounts to
  lemma WindowGrows(text: seq<byte>, s: seq<byte>, offset: nat, size: nat)
    requires offset < |text + s|
    ensures var skipped, used := if offset > |text| then offset - |text| else 0, |Window(text, offset, size)|;
      && skipped <= |s|
      && var n := Min(|s| - skipped, size - used);
      Window(text + s, offset, size) == Window(text, offset, size) + s[skipped..][..n]
  {
    var end := Min(offset + size, |text + s|);
    SliceOfConcat(text, s, offset, end);
    if offset >= |text| {
      assert Window(text, offset, size) == [];
    } else if end <= |text| {
      assert Window(text, offset, size) == text[offset..end];
    } else {
      assert Window(text, offset, size) == text[offset..];
    }
  }

  lemma LinkParts(text: seq<byte>, r: Resource, last: bool)
    ensures text + Link(r, last) == text + [60] + [47] + r.url + ([62] + Tail(r, last))
    ensures text + Link(r, last) == text + [60] + [47] + r.url + [62] + Tail(r, last)
  {
  }

  lemma TailParts(text: seq<byte>, r: Resource, last: bool)
    ensures r.attributes != [] ==>
      text + Tail(r, last) == text + [59] + r.attributes + (if last then [] else [44])
    ensures r.attributes == [] ==> text + Tail(r, last) == text + (if last then [] else [44])
  {
  }

  // The end of an entry does not fit, or its attributes exactly fill the window at the end of the list.
  predicate TailStops(text: seq<byte>, r: Resource, last: bool, offset: nat, size: nat) {
    var n := |text + Tail(r, last)|;
    offset + size < n || (offset + size == n && last && r.attributes != [])
  }

  predicate Stops(text: seq<byte>, r: Resource, last: bool, offset: nat, size: nat) {
    var n := |text + Link(r, last)|;
    offset + size < n || (offset + size == n && last && r.attributes != [])
  }

  // The handler has not stopped before resource `i`.
  predicate Open(rs: seq<Resource>, i: nat, offset: nat, size: nat)
    requires i <= |rs|
  {
    var n := |Text(rs, i)|;
    n <= offset + size && (i == |rs| ==> n < offset + size || !EndsInAttributes(rs))
  }

  lemma StopsMeansMore(rs: seq<Resource>, i: nat, offset: nat, size: nat)
    requires i < |rs| && rs[i].listed && Open(rs, i, offset, size)
    ensures Text(rs, i + 1) <= Full(rs)
    ensures if Stops(Text(rs, i), rs[i], i + 1 == |rs|, offset, size) then !Done(rs, offset, size)
      else Open(rs, i + 1, offset, size)
  {
    TextGrows(rs, i + 1, |rs|);
  }

  // ---------------------------------------------------------------- the engine

  datatype Block = Block(num: nat, more: bool, size: nat)

  datatype Response = Response(bad: bool, payload: seq<byte>, block: Option<Block>)

  // coap_set_header_block2 ignores values that the option cannot hold.
  function SetBlock(num: nat, more: bool, size: nat): Option<Block> {
    if size < 16 || size > 2048 || num > MAX_BLOCK_NUM then None else Some(Block(num, more, size))
  }

  /**
   The part of coap_receive that applies blockwise transfers to what a handler gave; `asked` is
   the Block2 option of the request, as number and size.
   */
  method ApplyBlocks(reply: Reply, asked: Option<(nat, nat)>, offset: nat, size: nat, chunk: nat) returns (r: Response)
    requires |reply.payload| <= chunk && 16 <= size <= chunk
    // A handler that leaves the offset alone gave the whole representation.
    ensures asked.Some? && reply.next == offset && offset < |reply.payload| ==>
      r == Response(reply.bad, Window(reply.payload, offset, size),
        SetBlock(asked.value.0, offset + size < |reply.payload|, size))
    ensures asked.Some? && reply.next == offset && |reply.payload| <= offset ==> r == Response(true, OUT_OF_SCOPE, None)
    // Any other handler gave the block itself, and -1 after the last one.
    ensures asked.Some? && reply.next != offset ==>
      r == Response(reply.bad, reply.payload[..Min(size, |reply.payload|)],
        SetBlock(asked.value.0, reply.next != -1 || size < |reply.payload|, size))
    ensures asked.None? ==>
      r == Response(reply.bad, reply.payload, if reply.next == 0 then None else SetBlock(0, reply.next != -1, chunk))
  {
    var n := |reply.payload|;
    r := Response(reply.bad, reply.payload, None);
    if asked.Some? {
      if reply.next == offset {
        if offset >= n {
          r := r.(bad := true, payload := OUT_OF_SCOPE);
        } else {
          r := r.(block := SetBlock(asked.value.0, n - offset > size, size),
                  payload := reply.payload[offset..offset + Min(n - offset, size)]);
        }
      } else {
        r := r.(block := SetBlock(asked.value.0, reply.next != -1 || n > size, size));
        if n > size {
          r := r.(payload := reply.payload[..size]);
        }
      }
    } else if reply.next != 0 {
      r := r.(block := SetBlock(0, reply.next != -1, chunk), payload := reply.payload[..Min(n, chunk)]);
    }
  }

  // The block size that is used, and the offset of the block
  function BlockSize(asked: Option<(nat, nat)>, chunk: nat): nat {
    if asked.Some? then Min(asked.value.1, chunk) else chunk
  }

  function BlockOffset(asked: Option<(nat, nat)>): nat {
    if asked.Some? then asked.value.0 * asked.value.1 else 0
  }

  /**
   A request for the resource list: the answer holds exactly the bytes of the window, and says
   that there are more unless the window is the last one.
   */
  method Respond(rs: seq<Resource>, asked: Option<(nat, nat)>, packet: array<byte>, chunk: nat) returns (r: Response)
    requires 16 <= chunk < packet.Length && (asked.Some? ==> 16 <= asked.value.1)
    modifies packet
    ensures var size, offset := BlockSize(asked, chunk), BlockOffset(asked);
      && r.block == SetBlock(if asked.Some? then asked.value.0 else 0, !Done(rs, offset, size), size)
      && (r.bad <==> Full(rs) != [] && |Full(rs)| <= offset)
      && r.payload == if r.bad then OUT_OF_SCOPE else Window(Full(rs), offset, size)
  {
    var size, offset := BlockSize(asked, chunk), BlockOffset(asked);
    var handler := new Handler(packet, offset, size);
    var stop := handler.PutResources(rs);
    var reply := handler.Finish(stop, chunk, Full(rs));
    r := ApplyBlocks(reply, asked, offset, size, chunk);
  }

  // ---------------------------------------------------------------- the client

  // The last block is full, and yet the server says that there are more.
  predicate Overshoots(rs: seq<Resource>, chunk: nat)
    requires chunk > 0
  {
    |Full(rs)| % chunk == 0 && EndsInAttributes(rs)
  }

  lemma Remainder(n: nat, q: nat, r: nat, d: nat)
    requires r < d && n == q * d + r
    ensures n % d == r
  {
    var k := n / d - q;
    assert k * d == r - n % d;
    Multiple(k, d);
  }

  lemma Multiple(k: int, d: int)
    requires d > 0
    ensures k >= 1 ==> k * d >= d
    ensures k <= -1 ==> k * d <= -d
  {
  }

  lemma BetweenMultiples(n: nat, num: nat, chunk: nat)
    requires 0 < chunk && num * chunk <= n <= num * chunk + chunk
    ensures n % chunk == 0 <==> n == num * chunk || n == num * chunk + chunk
  {
    var r := n - num * chunk;
    if r < chunk {
      Remainder(n, num, r, chunk);
    } else {
      assert (num + 1) * chunk == num * chunk + chunk;
      Remainder(n, num + 1, 0, chunk);
    }
  }

  lemma NumberFits(num: nat, chunk: nat)
    requires 0 < chunk && num * chunk <= MAX_BLOCK_NUM * chunk
    ensures num <= MAX_BLOCK_NUM
  {
    var over := num - MAX_BLOCK_NUM;
    assert over * chunk == num * chunk - MAX_BLOCK_NUM * chunk;
    Multiple(over, chunk);
  }

  // The payloads of the blocks before `num` are `out`, and another block is wanted.
  ghost predicate Fetching(rs: seq<Resource>, chunk: nat, num: nat, out: seq<byte>) {
    && num * chunk <= |Full(rs)| && out == Full(rs)[..num * chunk]
    && (0 < num && num * chunk == |Full(rs)| ==> EndsInAttributes(rs))
  }

  function Fetched(rs: seq<Resource>, chunk: nat): seq<byte>
    requires chunk > 0
  {
    Full(rs) + if Overshoots(rs, chunk) then OUT_OF_SCOPE else []
  }

  lemma WindowEnds(full: seq<byte>, at: nat, size: nat)
    requires at <= |full| <= at + size
    ensures full[..at] + Window(full, at, size) == full
  {
  }

  lemma WindowNext(full: seq<byte>, at: nat, size: nat)
    requires at + size <= |full|
    ensures full[..at] + Window(full, at, size) == full[..at + size]
  {
  }

  lemma AttributesFill(rs: seq<Resource>)
    ensures EndsInAttributes(rs) ==> Full(rs) != []
  {
    if EndsInAttributes(rs) {
      var r := rs[|rs| - 1];
      assert |Link(r, true)| >= 3;
      assert Full(rs) == Text(rs, |rs| - 1) + Link(r, true);
    }
  }

  // The last block
  lemma FetchLast(rs: seq<Resource>, chunk: nat, num: nat, out: seq<byte>, bad: bool, payload: seq<byte>)
    requires 0 < chunk && Fetching(rs, chunk, num, out) && Done(rs, num * chunk, chunk)
    requires bad <==> Full(rs) != [] && |Full(rs)| <= num * chunk
    requires payload == if bad then OUT_OF_SCOPE else Window(Full(rs), num * chunk, chunk)
    ensures out + payload == Fetched(rs, chunk)
  {
    BetweenMultiples(|Full(rs)|, num, chunk);
    WindowEnds(Full(rs), num * chunk, chunk);
    AttributesFill(rs);
    if bad {
      assert out == Full(rs) && Overshoots(rs, chunk);
    } else {
      assert !Overshoots(rs, chunk);
    }
  }

  // A block before it
  lemma FetchNext(rs: seq<Resource>, chunk: nat, num: nat, out: seq<byte>, payload: seq<byte>)
    requires 0 < chunk && Fetching(rs, chunk, num, out) && !Done(rs, num * chunk, chunk)
    requires payload == Window(Full(rs), num * chunk, chunk)
    ensures (num + 1) * chunk == num * chunk + chunk && Fetching(rs, chunk, num + 1, out + payload)
  {
    assert (num + 1) * chunk == num * chunk + chunk;
    WindowNext(Full(rs), num * chunk, chunk);
  }

  lemma FetchStep(rs: seq<Resource>, chunk: nat, num: nat, out: seq<byte>, bad: bool, payload: seq<byte>)
    requires 0 < chunk && Fetching(rs, chunk, num, out)
    requires bad <==> Full(rs) != [] && |Full(rs)| <= num * chunk
    requires payload == if bad then OUT_OF_SCOPE else Window(Full(rs), num * chunk, chunk)
    ensures if Done(rs, num * chunk, chunk) then out + payload == Fetched(rs, chunk)
      else (num + 1) * chunk == num * chunk + chunk && Fetching(rs, chunk, num + 1, out + payload)
  {
    if Done(rs, num * chunk, chunk) {
      FetchLast(rs, chunk, num, out, bad, payload);
    } else {
      FetchNext(rs, chunk, num, out, payload);
    }
  }

  /**
   coap_blocking_request on the resource list: the payloads that the caller gets are together the
   list, except that an error text follows a list that ends in attributes and fills its last block.
   */
  method FetchList(rs: seq<Resource>, packet: array<byte>, chunk: nat) returns (out: seq<byte>)
    requires 16 <= chunk <= 2048 && chunk < packet.Length && |Full(rs)| <= MAX_BLOCK_NUM * chunk
    modifies packet
    ensures out == Full(rs) + if Overshoots(rs, chunk) then OUT_OF_SCOPE else []
  {
    var num: nat, resBlock: nat, more, errors := 0, 0, false, 0;
    out := [];
    var again := true;
    while again
      invariant errors == 0
      invariant if again then Fetching(rs, chunk, num, out) else out == Fetched(rs, chunk)
      decreases again, |Full(rs)| - num * chunk
    {
      NumberFits(num, chunk);
      var response := Respond(rs, if num > 0 then Some((num, chunk)) else None, packet, chunk);
      FetchStep(rs, chunk, num, out, response.bad, response.payload);
      if response.block.Some? {
        resBlock, more := response.block.value.num, response.block.value.more;
      }
      if resBlock == num {
        out := out + response.payload;
        num := num + 1;
      } else {
        errors := errors + 1;
      }
      again := more && errors < 4;
    }
  }
}
