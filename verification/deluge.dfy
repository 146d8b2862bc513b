/**
 The node side of the Deluge dissemination protocol (apps/deluge/deluge.c): one
 object, cut into pages of four packets, with one handler per message and timer.

 The handlers are modelled twice.  The functions below say what each handler makes
 of a `Node` value and which messages it sends; class `DelugeNode` holds the fields
 that the handlers update in place, and each of its methods is proved to compute
 exactly the corresponding function.  Properties of runs are proved about the
 functions (see DelugeNetwork).

 Bit masks of packets are sets of bit numbers.  Clock readings and the failure of
 `malloc` are inputs of the handlers.
 */
module Deluge {
  type byte = bv8

  // Packets per page and bytes per packet and page; offsets spell the products out.
  const S_PKT := 64
  const N_PKT := 4
  const S_PAGE := 256
  const CONST_K := 1
  const CONST_LAMBDA := 2
  const ALL_PACKETS: set<nat> := {0, 1, 2, 3}
  // What an eight-bit request_set can name
  const MASK_BITS: set<nat> := {0, 1, 2, 3, 4, 5, 6, 7}

  datatype Phase = Maintain | Rx | Tx

  datatype Page = Page(packetSet: set<nat>, complete: bool, version: nat)

  datatype Message =
    | Summary(version: nat, highestAvailable: nat)
    | Request(version: nat, pagenum: nat, requestSet: set<nat>)
    | Packet(version: nat, pagenum: nat, packetnum: nat, crc: bv16, payload: seq<byte>)
    | Profile(version: nat, npages: nat, versionVector: seq<nat>)

  // The fields of struct deluge_object and of the protocol's static variables
  datatype Node = Node(
    version: nat,
    updateVersion: nat,
    size: nat,
    pages: seq<Page>,
    rxPage: nat,
    txPage: int,
    nrequests: nat,
    currentPage: seq<byte>,
    txSet: set<nat>,
    file: seq<byte>,
    phase: Phase,
    oldSummary: bool,
    inconsistency: bool,
    recvAdv: nat,
    broadcastProfile: bool)

  // The number of pages of an object of `size` bytes
  function PageCount(size: nat): nat {
    (size + 255) / 256
  }

  lemma PagesOfSize(n: nat)
    ensures PageCount(n * 256) == n
  {
  }

  // Conversion to uint8_t
  function Uint8(x: nat): nat { x % 256 }

  // Conversion of a uint8_t to int8_t
  function Int8(x: nat): int {
    if Uint8(x) < 128 then Uint8(x) else Uint8(x) - 256
  }

  function CrcAdd(b: byte, acc: bv16): bv16 {
    var a := acc ^ (b as bv16);
    var a := (a >> 8) | (a << 8);
    var a := a ^ ((a & 0xff00) << 4);
    var a := a ^ ((a >> 8) >> 4);
    a ^ ((a & 0xff00) >> 5)
  }

  function Crc16(data: seq<byte>, acc: bv16): bv16 {
    if data == [] then acc else Crc16(data[1..], CrcAdd(data[0], acc))
  }

  // ---------------------------------------------------------------- files

  // cfs_seek and cfs_read of one page; a short read leaves the rest of the buffer as it was
  function ReadPage(file: seq<byte>, pagenum: nat, stale: seq<byte>): (buf: seq<byte>)
    requires |stale| == S_PAGE
    ensures |buf| == S_PAGE
  {
    seq(S_PAGE, i requires 0 <= i < S_PAGE =>
      if 256 * pagenum + i < |file| then file[256 * pagenum + i] else stale[i])
  }

  // cfs_seek and cfs_write of one page; a seek beyond the end of the file fails
  function WritePage(file: seq<byte>, pagenum: nat, data: seq<byte>): (f: seq<byte>)
    requires |data| == S_PAGE
    ensures |f| >= |file|
    ensures 256 * pagenum <= |file| ==>
      |f| >= 256 * pagenum + 256 && f[256 * pagenum..256 * pagenum + 256] == data
    ensures forall o | 0 <= o < |file| && !(256 * pagenum <= o < 256 * pagenum + 256) :: f[o] == file[o]
  {
    var offset := 256 * pagenum;
    if offset > |file| then file
    else file[..offset] + data + (if offset + 256 <= |file| then file[offset + 256..] else [])
  }

  // ---------------------------------------------------------------- handlers as functions

  // The number of the first page that is not complete
  function FirstIncomplete(pages: seq<Page>): (r: nat)
    ensures r <= |pages|
    ensures forall k | 0 <= k < r :: pages[k].complete
    ensures r < |pages| ==> !pages[r].complete
  {
    if pages != [] && pages[0].complete then 1 + FirstIncomplete(pages[1..]) else 0
  }

  function HighestAvailable(n: Node): nat { FirstIncomplete(n.pages) }

  // init_object: a node that starts with the whole of `file` at `version`
  function InitObject(file: seq<byte>, version: nat): Node {
    Node(version, version, |file|,
         seq(PageCount(|file|), _ => Page(ALL_PACKETS, true, version)),
         0, 0, 0, seq(S_PAGE, _ => 0), {}, file, Maintain, false, false, 0, false)
  }

  // send_request; `junk` is what the table holds one past its end, read when nothing is missing
  function SendRequest(n: Node, junk: (nat, set<nat>)): (Node, Message) {
    var wanted :=
      if n.rxPage < |n.pages| then (n.pages[n.rxPage].version, MASK_BITS - n.pages[n.rxPage].packetSet) else junk;
    (if n.nrequests + 1 == CONST_LAMBDA then n.(nrequests := 0, phase := Maintain)
     else n.(nrequests := n.nrequests + 1),
     Request(wanted.0, n.rxPage, wanted.1))
  }

  // advertise_summary
  function AdvertiseSummary(n: Node): seq<Message> {
    if n.recvAdv >= CONST_K then [] else [Summary(n.updateVersion, HighestAvailable(n))]
  }

  // handle_summary; `recent` is the verdict of the request-suppression clock test
  function HandleSummary(n: Node, msg: Message, recent: bool): Node
    requires msg.Summary?
  {
    var available := HighestAvailable(n);
    var n1 :=
      if msg.version != n.version || msg.highestAvailable != available then n.(inconsistency := true)
      else n.(recvAdv := n.recvAdv + 1);
    var n2 := if msg.version < n.version then n1.(oldSummary := true, broadcastProfile := true) else n1;
    if msg.version == n.updateVersion && msg.highestAvailable > available &&
       msg.highestAvailable <= PageCount(n.size) && !recent
    then n2.(phase := Rx) else n2
  }

  // The packet with number `k` of a page
  function PacketOf(version: nat, pagenum: nat, buf: seq<byte>, k: nat): Message
    requires |buf| == S_PAGE && k < N_PKT
  {
    var payload := buf[64 * k..64 * (k + 1)];
    Packet(version, pagenum, k, Crc16(payload, 0), payload)
  }

  // Those of the first `count` packets of a page that are in `wanted`
  function PacketsOf(version: nat, pagenum: nat, buf: seq<byte>, wanted: set<nat>, count: nat): seq<Message>
    requires |buf| == S_PAGE && count <= N_PKT
  {
    if count == 0 then []
    else
      PacketsOf(version, pagenum, buf, wanted, count - 1)
      + if count - 1 in wanted then [PacketOf(version, pagenum, buf, count - 1)] else []
  }

  // tx_callback with send_page; `stale` is the stack buffer that the page is read into
  function TxCallback(n: Node, stale: seq<byte>): (Node, seq<Message>)
    requires n.txPage < |n.pages| && |stale| == S_PAGE
  {
    if n.txPage >= 0 && n.txSet != {} then
      (n.(txSet := {}, txPage := -1, phase := Maintain),
       PacketsOf(n.pages[n.txPage].version, n.txPage, ReadPage(n.file, n.txPage, stale), n.txSet, N_PKT))
    else (n, [])
  }

  // handle_request
  function HandleRequest(n: Node, msg: Message): Node
    requires msg.Request?
  {
    if msg.pagenum >= PageCount(n.size) then n
    else
      var n1 := if msg.version != n.version then n.(inconsistency := true) else n;
      if msg.version == n.version && msg.pagenum <= HighestAvailable(n) then
        if msg.pagenum == n.txPage then n1.(txSet := n.txSet + msg.requestSet, phase := Tx)
        else n1.(txPage := Int8(msg.pagenum), txSet := msg.requestSet, phase := Tx)
      else n1
  }

  // A copy of `buf` with packet number `k` overwritten
  function PutPacket(buf: seq<byte>, k: nat, payload: seq<byte>): (r: seq<byte>)
    requires |buf| == S_PAGE && |payload| == S_PKT && k < N_PKT
    ensures |r| == S_PAGE
  {
    buf[..64 * k] + payload + buf[64 * (k + 1)..]
  }

  // handle_packet
  function HandlePacket(n: Node, msg: Message): Node
    requires msg.Packet? && msg.packetnum < N_PKT && |msg.payload| == S_PKT
    requires msg.pagenum < |n.pages| && |n.currentPage| == S_PAGE
  {
    if msg.pagenum != n.rxPage then n
    else
      var n1 := if msg.version != n.version then n.(inconsistency := true) else n;
      var page := n.pages[msg.pagenum];
      if msg.version != page.version || page.complete then n1
      else
        // The payload is stored before its checksum is looked at.
        var n2 := n1.(currentPage := PutPacket(n.currentPage, msg.packetnum, msg.payload));
        if msg.crc != Crc16(msg.payload, 0) then n2
        else
          var have := page.packetSet + {msg.packetnum};
          var n3 := n2.(pages := n.pages[msg.pagenum := page.(packetSet := have)]);
          if have == ALL_PACKETS then CompletePage(n3, msg.pagenum) else n3
  }

  // What handle_packet does when the last missing packet of a page has arrived
  function CompletePage(n: Node, pagenum: nat): Node
    requires pagenum < |n.pages| && |n.currentPage| == S_PAGE
  {
    n.(pages := n.pages[pagenum := n.pages[pagenum].(complete := true)],
       file := WritePage(n.file, pagenum, n.currentPage),
       rxPage := Uint8(n.rxPage + 1),
       version := if pagenum == PageCount(n.size) - 1 then n.updateVersion else n.version,
       phase := Maintain)
  }

  // send_profile
  function SendProfile(n: Node): (Node, seq<Message>) {
    if n.broadcastProfile && n.recvAdv < CONST_K then
      (n.(broadcastProfile := false),
       [Profile(n.version, PageCount(n.size), seq(|n.pages|, i requires 0 <= i < |n.pages| => n.pages[i].version))])
    else (n, [])
  }

  // What a profile entry makes of one page
  function Retag(page: Page, version: nat): Page {
    if version > page.version then Page({}, false, version) else page
  }

  // init_page for a page that is not there yet
  const NO_PAGE := Page({}, false, 0)

  function RetagAll(pages: seq<Page>, versionVector: seq<nat>): (r: seq<Page>)
    requires |pages| <= |versionVector|
    ensures |r| == |versionVector|
  {
    seq(|versionVector|, i requires 0 <= i < |versionVector| =>
      if i < |pages| then Retag(pages[i], versionVector[i]) else NO_PAGE)
  }

  // handle_profile for a profile with at least as many pages as the object has
  function HandleProfile(n: Node, msg: Message, memory: bool): Node
    requires msg.Profile? && |msg.versionVector| == msg.npages >= |n.pages|
  {
    if msg.version <= n.updateVersion then n
    else
      var n1 := n.(txSet := {}, size := msg.npages * 256);
      if memory then AdoptVersions(n1, msg) else n1
  }

  // The rest of handle_profile once a fresh page table is there
  function AdoptVersions(n: Node, msg: Message): Node
    requires msg.Profile? && |msg.versionVector| >= |n.pages|
  {
    var pages := RetagAll(n.pages, msg.versionVector);
    n.(pages := pages, rxPage := Uint8(FirstIncomplete(pages)), updateVersion := msg.version, phase := Rx)
  }

  // A new round of the main timer loop
  function StartRound(n: Node): Node {
    n.(inconsistency := false, recvAdv := 0, oldSummary := false)
  }

  // ---------------------------------------------------------------- handlers on the object itself

  class DelugeNode {
    var version: nat
    var updateVersion: nat
    var size: nat
    var pages: array<Page>
    var rxPage: nat
    var txPage: int
    var nrequests: nat
    var currentPage: array<byte>
    var txSet: set<nat>
    var file: seq<byte>
    var phase: Phase
    var oldSummary: bool
    var inconsistency: bool
    var recvAdv: nat
    var broadcastProfile: bool

    ghost function State(): Node
      reads this, pages, currentPage
    {
      Node(version, updateVersion, size, pages[..], rxPage, txPage, nrequests, currentPage[..], txSet, file,
           phase, oldSummary, inconsistency, recvAdv, broadcastProfile)
    }

    ghost predicate Valid()
      reads this
    {
      pages.Length == PageCount(size) && currentPage.Length == S_PAGE && pages as object != currentPage
    }

    constructor (contents: seq<byte>, initialVersion: nat)
      ensures Valid() && fresh(pages) && fresh(currentPage)
      ensures State() == InitObject(contents, initialVersion)
    {
      version, updateVersion, size := initialVersion, initialVersion, |contents|;
      pages := new Page[PageCount(|contents|)](_ => Page(ALL_PACKETS, true, initialVersion));
      currentPage := new byte[S_PAGE](_ => 0);
      rxPage, txPage, nrequests, txSet, file := 0, 0, 0, {}, contents;
      phase, oldSummary, inconsistency, recvAdv, broadcastProfile := Maintain, false, false, 0, false;
    }

    method HighestAvailablePage() returns (i: nat)
      requires Valid()
      ensures i == HighestAvailable(State())
    {
      i := 0;
      while i < pages.Length
        invariant i <= pages.Length
        invariant forall k | 0 <= k < i :: pages[k].complete
      {
        if !pages[i].complete {
          break;
        }
        i := i + 1;
      }
    }

    // What is stored in the eight-bit current_rx_page
    method FirstMissing() returns (i: nat)
      requires Valid()
      ensures i == Uint8(FirstIncomplete(pages[..]))
    {
      i := HighestAvailablePage();
      i := Uint8(i);
    }

    method RequestTimer(junk: (nat, set<nat>)) returns (request: Message)
      requires Valid()
      modifies this
      ensures Valid() && pages == old(pages) && currentPage == old(currentPage)
      ensures (State(), request) == SendRequest(old(State()), junk)
    {
      if rxPage < pages.Length {
        request := Request(pages[rxPage].version, rxPage, MASK_BITS - pages[rxPage].packetSet);
      } else {
        request := Request(junk.0, rxPage, junk.1);
      }
      nrequests := nrequests + 1;
      if nrequests == CONST_LAMBDA {
        nrequests := 0;
        phase := Maintain;
      }
    }

    method ReceiveSummary(msg: Message, recent: bool)
      requires Valid() && msg.Summary?
      modifies this
      ensures Valid() && pages == old(pages) && currentPage == old(currentPage)
      ensures State() == HandleSummary(old(State()), msg, recent)
    {
      var available := HighestAvailablePage();
      if msg.version != version || msg.highestAvailable != available {
        inconsistency := true;
      } else {
        recvAdv := recvAdv + 1;
      }
      if msg.version < version {
        oldSummary := true;
        broadcastProfile := true;
      }
      if msg.version == updateVersion && msg.highestAvailable > available {
        if msg.highestAvailable > PageCount(size) {
          return;
        }
        if recent {
          return;
        }
        phase := Rx;
      }
    }

    method ReceiveRequest(msg: Message)
      requires Valid() && msg.Request?
      modifies this
      ensures Valid() && pages == old(pages) && currentPage == old(currentPage)
      ensures State() == HandleRequest(old(State()), msg)
    {
      if msg.pagenum >= PageCount(size) {
        return;
      }
      if msg.version != version {
        inconsistency := true;
      }
      var available := HighestAvailablePage();
      if msg.version == version && msg.pagenum <= available {
        if msg.pagenum == txPage {
          txSet := txSet + msg.requestSet;
        } else {
          txPage := Int8(msg.pagenum);
          txSet := msg.requestSet;
        }
        phase := Tx;
      }
    }

    method TxTimer(stale: seq<byte>) returns (sent: seq<Message>)
      requires Valid() && txPage < pages.Length && |stale| == S_PAGE
      modifies this
      ensures Valid() && pages == old(pages) && currentPage == old(currentPage)
      ensures (State(), sent) == TxCallback(old(State()), stale)
    {
      sent := [];
      if txPage >= 0 && txSet != {} {
        sent := SendPage(txPage, stale);
        txSet := {};
        txPage := -1;
        phase := Maintain;
      }
    }

    method SendPage(pagenum: nat, stale: seq<byte>) returns (sent: seq<Message>)
      requires Valid() && pagenum < pages.Length && |stale| == S_PAGE
      ensures sent == PacketsOf(pages[pagenum].version, pagenum, ReadPage(file, pagenum, stale), txSet, N_PKT)
    {
      var buf := ReadPage(file, pagenum, stale);
      sent := [];
      var packetnum := 0;
      while packetnum < N_PKT
        invariant 0 <= packetnum <= N_PKT
        invariant sent == PacketsOf(pages[pagenum].version, pagenum, buf, txSet, packetnum)
      {
        if packetnum in txSet {
          sent := sent + [PacketOf(pages[pagenum].version, pagenum, buf, packetnum)];
        }
        packetnum := packetnum + 1;
      }
    }

    method ReceivePacket(msg: Message)
      requires Valid() && msg.Packet? && msg.packetnum < N_PKT && |msg.payload| == S_PKT
      requires msg.pagenum < pages.Length
      modifies this, pages, currentPage
      ensures Valid() && pages == old(pages) && currentPage == old(currentPage)
      ensures State() == HandlePacket(old(State()), msg)
    {
      if msg.pagenum != rxPage {
        return;
      }
      if msg.version != version {
        inconsistency := true;
      }
      var page := pages[msg.pagenum];
      if msg.version == page.version && !page.complete {
        CopyPayload(msg.packetnum, msg.payload);
        assert pages[..] == old(pages[..]);
        if msg.crc != Crc16(msg.payload, 0) {
          return;
        }
        var have := page.packetSet + {msg.packetnum};
        pages[msg.pagenum] := page.(packetSet := have);
        if have == ALL_PACKETS {
          FinishPage(msg.pagenum);
        }
      }
    }

    method FinishPage(pagenum: nat)
      requires Valid() && pagenum < pages.Length
      modifies this, pages
      ensures Valid() && pages == old(pages) && currentPage == old(currentPage)
      ensures State() == CompletePage(old(State()), pagenum)
    {
      file := WritePage(file, pagenum, currentPage[..]);
      pages[pagenum] := pages[pagenum].(complete := true);
      rxPage := Uint8(rxPage + 1);
      if pagenum == PageCount(size) - 1 {
        version := updateVersion;
      }
      phase := Maintain;
    }

    // memcpy of one payload into the page buffer
    method CopyPayload(packetnum: nat, payload: seq<byte>)
      requires currentPage.Length == S_PAGE && packetnum < N_PKT && |payload| == S_PKT
      modifies currentPage
      ensures currentPage[..] == PutPacket(old(currentPage[..]), packetnum, payload)
    {
      forall i | 0 <= i < S_PKT {
        currentPage[64 * packetnum + i] := payload[i];
      }
    }

    method ProfileTimer() returns (sent: seq<Message>)
      requires Valid()
      modifies this
      ensures Valid() && pages == old(pages) && currentPage == old(currentPage)
      ensures (State(), sent) == SendProfile(old(State()))
    {
      sent := [];
      if broadcastProfile && recvAdv < CONST_K {
        broadcastProfile := false;
        var vector: seq<nat> := [];
        var i := 0;
        while i < PageCount(size)
          invariant i == |vector| <= pages.Length
          invariant forall k | 0 <= k < i :: vector[k] == pages[k].version
        {
          vector := vector + [pages[i].version];
          i := i + 1;
        }
        assert vector == SendProfile(old(State())).1[0].versionVector;
        sent := [Profile(version, PageCount(size), vector)];
      }
    }

    // The loop of handle_profile over the pages that both tables have
    static method RetagPages(table: array<Page>, count: nat, versionVector: seq<nat>)
      requires count <= table.Length == |versionVector|
      modifies table
      ensures forall k | 0 <= k < count :: table[k] == Retag(old(table[k]), versionVector[k])
      ensures forall k | count <= k < table.Length :: table[k] == old(table[k])
    {
      var i := 0;
      while i < count
        invariant 0 <= i <= count
        invariant forall k | 0 <= k < i :: table[k] == Retag(old(table[k]), versionVector[k])
        invariant forall k | i <= k < table.Length :: table[k] == old(table[k])
      {
        if versionVector[i] > table[i].version {
          table[i] := Page({}, false, versionVector[i]);
        }
        i := i + 1;
      }
    }

    // The loop over the pages that are new
    static method AddPages(table: array<Page>, count: nat)
      requires count <= table.Length
      modifies table
      ensures table[..count] == old(table[..count])
      ensures forall k | count <= k < table.Length :: table[k] == NO_PAGE
    {
      for i := count to table.Length
        invariant table[..count] == old(table[..count])
        invariant forall k | count <= k < i :: table[k] == NO_PAGE
      {
        table[i] := NO_PAGE;
      }
    }

    // The table is copied into fresh memory for as many pages as the object is to have, and the copy is updated.
    method ReplacePages(versionVector: seq<nat>)
      requires pages.Length <= |versionVector| == PageCount(size) && currentPage.Length == S_PAGE
      modifies this`pages
      ensures Valid() && fresh(pages) && currentPage == old(currentPage)
      ensures State() == old(State()).(pages := RetagAll(old(State()).pages, versionVector))
    {
      var p, n := new Page[PageCount(size)], pages.Length;
      forall i | 0 <= i < n {
        p[i] := pages[i];
      }
      RetagPages(p, n, versionVector);
      AddPages(p, n);
      assert p[..] == RetagAll(pages[..], versionVector);
      pages := p;
    }

    // handle_profile; with another number of pages and no memory the table no longer fits the size
    method ReceiveProfile(msg: Message, memory: bool)
      requires Valid() && msg.Profile? && |msg.versionVector| == msg.npages
      requires msg.npages == pages.Length || (memory && msg.npages > pages.Length)
      modifies this
      ensures Valid() && (pages == old(pages) || fresh(pages)) && currentPage == old(currentPage)
      ensures State() == HandleProfile(old(State()), msg, memory)
    {
      if msg.version <= updateVersion {
        return;
      }
      PagesOfSize(msg.npages);
      txSet := {};
      size := msg.npages * 256;
      if memory {
        Adopt(msg);
      }
    }

    method Adopt(msg: Message)
      requires msg.Profile? && pages.Length <= |msg.versionVector| == PageCount(size) && currentPage.Length == S_PAGE
      modifies this
      ensures Valid() && fresh(pages) && currentPage == old(currentPage)
      ensures State() == AdoptVersions(old(State()), msg)
    {
      ReplacePages(msg.versionVector);
      rxPage := FirstMissing();
      updateVersion := msg.version;
      phase := Rx;
    }

    // send_summary
    method SummaryTimer() returns (sent: seq<Message>)
      requires Valid()
      ensures sent == AdvertiseSummary(State())
    {
      sent := [];
      if recvAdv < CONST_K {
        var available := HighestAvailablePage();
        sent := [Summary(updateVersion, available)];
      }
    }

    // The main timer starts a new round.
    method RoundTimer()
      requires Valid()
      modifies this`inconsistency, this`recvAdv, this`oldSummary
      ensures Valid() && State() == StartRound(old(State()))
    {
      inconsistency, recvAdv, oldSummary := false, 0, false;
    }
  }
}
