/**
 The resource list of /.well-known/core (apps/er-coap-07/er-coap-07-engine.c) is in link format, as section 2 of
 RFC 6690 has it: a reader of that format gets back the resources that are listed.
 */
module LinkFormat {
  import opened Bytes
  import opened Blockwise

  // The length of what stands before the first byte `c`
  function Until(text: seq<byte>, c: byte): (n: nat)
    ensures n <= |text| && c !in text[..n] && (n < |text| ==> text[n] == c)
  {
    if text == [] || text[0] == c then 0
    else
      var n := Until(text[1..], c);
      assert text[..n + 1] == [text[0]] + text[1..][..n];
      n + 1
  }

  lemma {:induction false} UntilFound(head: seq<byte>, c: byte, rest: seq<byte>)
    requires c !in head
    ensures Until(head + [c] + rest, c) == |head|
  {
    var text := head + [c] + rest;
    if head != [] {
      assert text[0] == head[0] && text[1..] == head[1..] + [c] + rest;
      UntilFound(head[1..], c, rest);
    }
  }

  lemma UntilEnd(head: seq<byte>, c: byte)
    requires c !in head
    ensures Until(head, c) == |head|
  {
  }

  // A text around the first byte `c`
  lemma Around(head: seq<byte>, c: byte, rest: seq<byte>)
    requires c !in head
    ensures var text := head + [c] + rest;
      Until(text, c) == |head| && text[..|head|] == head && text[|head| + 1..] == rest
  {
    UntilFound(head, c, rest);
  }

  datatype Entry = Entry(url: seq<byte>, attributes: seq<byte>)

  // The attributes, behind the '>', of an entry
  function Attributes(part: seq<byte>): seq<byte> { if part != [] && part[0] == 59 then part[1..] else [] }

  // A reader of the format: </url>;attributes with commas between the entries
  function Read(text: seq<byte>): seq<Entry>
    decreases |text|
  {
    if |text| < 2 || text[0] != 60 || text[1] != 47 then []
    else
      var i := Until(text[2..], 62);
      var url, rest := text[2..][..i], if i < |text| - 2 then text[2..][i + 1..] else [];
      var j := Until(rest, 44);
      [Entry(url, Attributes(rest[..j]))] + Read(if j < |rest| then rest[j + 1..] else [])
  }

  // A resource whose name and attributes do not have the bytes that end them
  predicate Plain(r: Resource) { 62 !in r.url && 44 !in r.attributes }

  predicate PlainAt(rs: seq<Resource>, n: nat) { n < |rs| ==> Plain(rs[n]) }

  ghost predicate AllPlain(rs: seq<Resource>) { forall n: nat :: PlainAt(rs, n) }

  // What is behind the '>' without the comma
  function Part(r: Resource): seq<byte> { if r.attributes == [] then [] else [59] + r.attributes }

  // The part of an entry behind its '>', and the entries behind it
  function ReadPart(url: seq<byte>, rest: seq<byte>): seq<Entry> {
    var j := Until(rest, 44);
    [Entry(url, Attributes(rest[..j]))] + Read(if j < |rest| then rest[j + 1..] else [])
  }

  lemma UrlRead(url: seq<byte>, rest: seq<byte>)
    requires 62 !in url
    ensures Read([60, 47] + (url + [62] + rest)) == ReadPart(url, rest)
  {
    var text := [60, 47] + (url + [62] + rest);
    assert text[2..] == url + [62] + rest;
    Around(url, 62, rest);
  }

  lemma EntryRead(r: Resource, more: seq<byte>)
    requires Plain(r)
    ensures Read(Link(r, false) + more) == [Entry(r.url, r.attributes)] + Read(more)
  {
    var rest := Part(r) + [44] + more;
    assert Link(r, false) + more == [60, 47] + (r.url + [62] + rest);
    UrlRead(r.url, rest);
    Around(Part(r), 44, more);
    assert Attributes(Part(r)) == r.attributes;
  }

  lemma LastRead(r: Resource)
    requires Plain(r)
    ensures Read(Link(r, true)) == [Entry(r.url, r.attributes)]
  {
    assert Link(r, true) == [60, 47] + (r.url + [62] + Part(r));
    UrlRead(r.url, Part(r));
    UntilEnd(Part(r), 44);
    assert Part(r)[..|Part(r)|] == Part(r) && Attributes(Part(r)) == r.attributes;
    assert Read([]) == [];
  }

  // The resources from number `n` on that are listed
  function Listed(rs: seq<Resource>, n: nat): seq<Entry>
    requires n <= |rs|
    decreases |rs| - n
  {
    if n == |rs| then []
    else (if rs[n].listed then [Entry(rs[n].url, rs[n].attributes)] else []) + Listed(rs, n + 1)
  }

  // The text from resource number `n` on
  function TextFrom(rs: seq<Resource>, n: nat): seq<byte>
    requires n <= |rs|
  {
    TextGrows(rs, n, |rs|);
    Full(rs)[|Text(rs, n)|..]
  }

  // What is behind a part, and behind that and one more
  lemma Behind(full: seq<byte>, part: seq<byte>, more: seq<byte>)
    requires part + more <= full
    ensures |part| <= |full| && full[|part|..] == more + full[|part + more|..]
  {
    assert full[..|part + more|] == part + more;
    assert full == part + more + full[|part + more|..];
  }

  lemma TextStep(rs: seq<Resource>, n: nat)
    requires n < |rs|
    ensures TextFrom(rs, n) == (if rs[n].listed then Link(rs[n], n + 1 == |rs|) else []) + TextFrom(rs, n + 1)
  {
    var link := if rs[n].listed then Link(rs[n], n + 1 == |rs|) else [];
    assert Text(rs, n + 1) == Text(rs, n) + link;
    TextGrows(rs, n + 1, |rs|);
    Behind(Full(rs), Text(rs, n), link);
  }

  ghost predicate ReadsTo(rs: seq<Resource>, n: nat)
    requires n <= |rs|
  {
    Read(TextFrom(rs, n)) == Listed(rs, n)
  }

  lemma ReadsNone(rs: seq<Resource>)
    ensures ReadsTo(rs, |rs|)
  {
    assert TextFrom(rs, |rs|) == [];
  }

  lemma ReadsUnlisted(rs: seq<Resource>, n: nat)
    requires n < |rs| && !rs[n].listed && ReadsTo(rs, n + 1)
    ensures ReadsTo(rs, n)
  {
    TextStep(rs, n);
    assert [] + TextFrom(rs, n + 1) == TextFrom(rs, n + 1);
    assert [] + Listed(rs, n + 1) == Listed(rs, n + 1);
  }

  lemma ReadsListed(rs: seq<Resource>, n: nat)
    requires n + 1 < |rs| && rs[n].listed && Plain(rs[n]) && ReadsTo(rs, n + 1)
    ensures ReadsTo(rs, n)
  {
    TextStep(rs, n);
    EntryRead(rs[n], TextFrom(rs, n + 1));
  }

  lemma ReadsLast(rs: seq<Resource>, n: nat)
    requires n + 1 == |rs| && rs[n].listed && Plain(rs[n])
    ensures ReadsTo(rs, n)
  {
    TextStep(rs, n);
    assert TextFrom(rs, n + 1) == [] && Link(rs[n], true) + [] == Link(rs[n], true);
    LastRead(rs[n]);
    assert Listed(rs, n + 1) == [];
  }

  lemma {:induction false} ReadFrom(rs: seq<Resource>, n: nat)
    requires AllPlain(rs) && n <= |rs|
    ensures ReadsTo(rs, n)
    decreases |rs| - n
  {
    if n == |rs| {
      ReadsNone(rs);
    } else {
      assert PlainAt(rs, n);
      ReadFrom(rs, n + 1);
      if !rs[n].listed {
        ReadsUnlisted(rs, n);
      } else if n + 1 < |rs| {
        ReadsListed(rs, n);
      } else {
        ReadsLast(rs, n);
      }
    }
  }

  /** Every listed resource is in the list, in order, with its name and its attributes, and nothing else is. */
  lemma ListIsRead(rs: seq<Resource>)
    requires AllPlain(rs)
    ensures Read(Full(rs)) == Listed(rs, 0)
  {
    ReadFrom(rs, 0);
    assert TextFrom(rs, 0) == Full(rs);
  }

  /** What the client puts together is that list, if no error text follows it. */
  method FetchEntries(rs: seq<Resource>, packet: array<byte>, chunk: nat) returns (out: seq<byte>)
    requires 16 <= chunk <= 2048 && chunk < packet.Length && |Full(rs)| <= MAX_BLOCK_NUM * chunk && AllPlain(rs)
    modifies packet
    ensures !Overshoots(rs, chunk) ==> Read(out) == Listed(rs, 0)
  {
    out := FetchList(rs, packet, chunk);
    ListIsRead(rs);
    assert !Overshoots(rs, chunk) ==> out == Full(rs);
  }
}
