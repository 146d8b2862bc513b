/**
 Runs of the Deluge protocol: any number of nodes and a medium that keeps every message
 ever sent.  A node may receive any message of the medium at any time, any number of
 times or never, and timers may fire at any time; so loss, duplication, reordering and
 overhearing are all runs of this model.  Payloads are never altered in flight.
 */
module DelugeNetwork {
  import opened Deluge

  // What can happen to one node, with the inputs that its handler takes from outside
  datatype Input =
    | Receive(msg: Message, recent: bool, memory: bool)
    | RequestTimer(junk: (nat, set<nat>))
    | SummaryTimer
    | TxTimer(stale: seq<byte>)
    | ProfileTimer
    | RoundTimer

  datatype Event = Event(node: nat, input: Input)

  datatype Net = Net(nodes: seq<Node>, sent: set<Message>)

  // The message is one that the handlers of `n` can take without leaving their buffers.
  predicate Fits(n: Node, m: Message) {
    match m
    case Packet(_, pagenum, packetnum, _, payload) =>
      pagenum < |n.pages| && packetnum < N_PKT && |payload| == S_PKT && |n.currentPage| == S_PAGE
    case Profile(_, npages, versionVector) => |versionVector| == npages == |n.pages|
    case _ => true
  }

  function Step(n: Node, input: Input): (Node, seq<Message>) {
    match input
    case Receive(m, recent, memory) =>
      if !Fits(n, m) then (n, [])
      else (match m
            case Summary(_, _) => HandleSummary(n, m, recent)
            case Request(_, _, _) => HandleRequest(n, m)
            case Packet(_, _, _, _, _) => HandlePacket(n, m)
            case Profile(_, _, _) => HandleProfile(n, m, memory), [])
    case RequestTimer(junk) => var (n', m) := SendRequest(n, junk); (n', [m])
    case SummaryTimer => (n, AdvertiseSummary(n))
    case TxTimer(stale) => if n.txPage < |n.pages| && |stale| == S_PAGE then TxCallback(n, stale) else (n, [])
    case ProfileTimer => SendProfile(n)
    case RoundTimer => (StartRound(n), [])
  }

  predicate Enabled(net: Net, e: Event) {
    e.node < |net.nodes| && (e.input.Receive? ==> e.input.msg in net.sent)
  }

  function Apply(net: Net, e: Event): Net {
    if Enabled(net, e) then
      var (n, out) := Step(net.nodes[e.node], e.input);
      Net(net.nodes[e.node := n], net.sent + set m | m in out)
    else net
  }

  function Run(net: Net, events: seq<Event>): Net
    decreases events
  {
    if events == [] then net else Run(Apply(net, events[0]), events[1..])
  }

  // current_tx_page has eight bits and a sign, so pages from 128 on are never sent.
  const TX_LIMIT := 128

  // ---------------------------------------------------------------- one node, any versions

  ghost predicate AllComplete(pages: seq<Page>) {
    forall p | 0 <= p < |pages| :: pages[p].complete
  }

  // A page is complete when all its packets are there, and no page before the current one is not.
  ghost predicate TableInv(pages: seq<Page>, rxPage: nat) {
    && rxPage <= |pages|
    && (forall p | 0 <= p < |pages| :: pages[p].packetSet <= ALL_PACKETS)
    && (forall p | 0 <= p < |pages| :: pages[p].complete <==> pages[p].packetSet == ALL_PACKETS)
    && (forall p | 0 <= p < rxPage :: pages[p].complete)
  }

  // What holds of every node at all times, whatever versions are around
  ghost predicate NodeInv(n: Node, npages: nat) {
    && 1 <= npages <= 255
    && |n.pages| == npages == PageCount(n.size)
    && |n.currentPage| == S_PAGE
    && |n.file| > 256 * (npages - 1)
    && n.txPage < npages && n.txPage < TX_LIMIT
    && n.version <= n.updateVersion
    && TableInv(n.pages, n.rxPage)
    && (n.version == n.updateVersion ==> AllComplete(n.pages))
  }

  lemma InitialNodeInv(file: seq<byte>, version: nat)
    requires 1 <= PageCount(|file|) <= 255
    ensures NodeInv(InitObject(file, version), PageCount(|file|))
  {
  }

  ghost predicate SameData(n: Node, n': Node) {
    && n'.pages == n.pages && n'.rxPage == n.rxPage && n'.file == n.file && n'.currentPage == n.currentPage
    && n'.version == n.version && n'.updateVersion == n.updateVersion && n'.size == n.size
  }

  // Only packets and profiles touch what a node has of its object.
  lemma TimerKeepsData(n: Node, input: Input)
    requires !input.Receive?
    ensures SameData(n, Step(n, input).0)
    ensures Step(n, input).0.txSet == n.txSet || Step(n, input).0.txSet == {}
    ensures Step(n, input).0.txPage <= n.txPage || Step(n, input).0.txPage == -1
  {
  }

  lemma SummaryKeepsData(n: Node, m: Message, recent: bool)
    requires m.Summary?
    ensures var n' := HandleSummary(n, m, recent);
      SameData(n, n') && n'.txSet == n.txSet && n'.txPage == n.txPage
  {
  }

  lemma RequestKeepsData(n: Node, m: Message)
    requires m.Request?
    ensures var n' := HandleRequest(n, m);
      SameData(n, n') && (n'.txPage == n.txPage || (n'.txPage <= m.pagenum < PageCount(n.size) && n'.txPage < TX_LIMIT))
  {
  }

  lemma RecordKeepsTable(pages: seq<Page>, rxPage: nat, k: nat)
    requires TableInv(pages, rxPage) && rxPage < |pages| && !pages[rxPage].complete && k < N_PKT
    ensures var have := pages[rxPage].packetSet + {k};
      if have == ALL_PACKETS
      then TableInv(pages[rxPage := Page(have, true, pages[rxPage].version)], rxPage + 1)
      else TableInv(pages[rxPage := pages[rxPage].(packetSet := have)], rxPage)
  {
  }

  // What HandlePacket makes of a packet that it stores
  lemma StoredPacket(n: Node, m: Message)
    requires m.Packet? && Fits(n, m) && m.pagenum == n.rxPage
    requires m.version == n.pages[m.pagenum].version && !n.pages[m.pagenum].complete
    ensures var n', p, page := HandlePacket(n, m), m.pagenum, n.pages[m.pagenum];
      var have := page.packetSet + {m.packetnum};
      && n'.size == n.size && n'.txPage == n.txPage && n'.txSet == n.txSet && n'.updateVersion == n.updateVersion
      && n'.currentPage == PutPacket(n.currentPage, m.packetnum, m.payload)
      && (if m.crc != Crc16(m.payload, 0) then
            n'.pages == n.pages && n'.rxPage == n.rxPage && n'.file == n.file && n'.version == n.version
          else if have != ALL_PACKETS then
            && n'.pages == n.pages[p := page.(packetSet := have)]
            && n'.rxPage == n.rxPage && n'.file == n.file && n'.version == n.version
          else
            && n'.pages == n.pages[p := Page(have, true, page.version)]
            && n'.rxPage == Uint8(n.rxPage + 1) && n'.file == WritePage(n.file, p, n'.currentPage)
            && n'.version == if p == PageCount(n.size) - 1 then n.updateVersion else n.version)
  {
  }

  lemma PacketKeepsNodeInv(n: Node, npages: nat, m: Message)
    requires NodeInv(n, npages) && m.Packet? && Fits(n, m)
    ensures NodeInv(HandlePacket(n, m), npages)
    ensures n.version <= HandlePacket(n, m).version && n.updateVersion == HandlePacket(n, m).updateVersion
  {
    if m.pagenum == n.rxPage && m.version == n.pages[m.pagenum].version && !n.pages[m.pagenum].complete {
      RecordKeepsTable(n.pages, n.rxPage, m.packetnum);
      StoredPacket(n, m);
    }
  }

  lemma RetagKeepsTable(pages: seq<Page>, rxPage: nat, versionVector: seq<nat>)
    requires TableInv(pages, rxPage) && |pages| == |versionVector|
    ensures var retagged := RetagAll(pages, versionVector);
      TableInv(retagged, FirstIncomplete(retagged))
  {
  }

  lemma ProfileKeepsNodeInv(n: Node, npages: nat, m: Message, memory: bool)
    requires NodeInv(n, npages) && m.Profile? && Fits(n, m)
    ensures NodeInv(HandleProfile(n, m, memory), npages)
    ensures n.version == HandleProfile(n, m, memory).version
    ensures n.updateVersion <= HandleProfile(n, m, memory).updateVersion
  {
    PagesOfSize(npages);
    RetagKeepsTable(n.pages, n.rxPage, m.versionVector);
  }

  /** Every handler keeps the invariant of its node, and neither version number ever decreases. */
  lemma StepKeepsNodeInv(n: Node, npages: nat, input: Input)
    requires NodeInv(n, npages)
    ensures NodeInv(Step(n, input).0, npages)
    ensures n.version <= Step(n, input).0.version
    ensures n.updateVersion <= Step(n, input).0.updateVersion
  {
    if !input.Receive? {
      TimerKeepsData(n, input);
    } else if Fits(n, input.msg) {
      match input.msg {
        case Packet(_, _, _, _, _) => PacketKeepsNodeInv(n, npages, input.msg);
        case Profile(_, _, _) => ProfileKeepsNodeInv(n, npages, input.msg, input.memory);
        case Request(_, _, _) => RequestKeepsData(n, input.msg);
        case Summary(_, _) => SummaryKeepsData(n, input.msg, input.recent);
      }
    }
  }

  // ---------------------------------------------------------------- dissemination of one image

  // The newest version around, its image, and the page count that all nodes share
  datatype Goal = Goal(top: nat, image: seq<byte>, npages: nat)

  // Page `p` of `file` is page `p` of the image, as far as the image reaches.
  ghost predicate HoldsPage(file: seq<byte>, g: Goal, p: nat) {
    forall o | 256 * p <= o < 256 * p + 256 && o < |g.image| :: o < |file| && file[o] == g.image[o]
  }

  // `payload` is packet `k` of page `p` of the image, as far as the image reaches.
  ghost predicate HoldsPacket(payload: seq<byte>, g: Goal, p: nat, k: nat) {
    |payload| == S_PKT &&
    forall j | 0 <= j < S_PKT && 256 * p + 64 * k + j < |g.image| ::
      payload[j] == g.image[256 * p + 64 * k + j]
  }

  ghost predicate HoldsImage(file: seq<byte>, g: Goal) {
    |g.image| <= |file| && file[..|g.image|] == g.image
  }

  // The pages of a file that can be sent are those of the image.
  ghost predicate Carries(file: seq<byte>, g: Goal) {
    forall p | 0 <= p < g.npages && p < TX_LIMIT :: HoldsPage(file, g, p)
  }

  // What holds of every message on the medium when all versions above `floor` mean the image
  ghost predicate MessageSafe(m: Message, g: Goal, floor: int) {
    match m
    case Packet(version, pagenum, packetnum, crc, payload) =>
      && version <= g.top && pagenum < g.npages && packetnum < N_PKT && |payload| == S_PKT
      && crc == Crc16(payload, 0)
      && (version > floor ==> HoldsPacket(payload, g, pagenum, packetnum))
    case Profile(version, npages, versionVector) =>
      && |versionVector| == npages == g.npages >= 1
      && (forall i | 0 <= i < npages :: versionVector[i] == versionVector[0])
      && version <= versionVector[0] <= g.top
    case _ => true
  }

  // Whatever a node has of the versions above `floor` is right, but for pages that are never sent and not of
  // the newest version; and it has parts of one page at most.
  ghost predicate DataSafe(pages: seq<Page>, rxPage: nat, file: seq<byte>, currentPage: seq<byte>, g: Goal, floor: int)
    requires |currentPage| == S_PAGE && |pages| >= 1
  {
    && (forall p | 0 <= p < |pages| && p != rxPage && !pages[p].complete :: pages[p].packetSet == {})
    && (pages[0].version > floor ==>
          && (forall p | 0 <= p < |pages| && pages[p].complete && (p < TX_LIMIT || pages[0].version == g.top) ::
                HoldsPage(file, g, p))
          && (rxPage < |pages| && !pages[rxPage].complete ==>
                HoldsPackets(currentPage, g, rxPage, pages[rxPage].packetSet)))
  }

  ghost predicate HoldsPackets(buf: seq<byte>, g: Goal, p: nat, have: set<nat>)
    requires |buf| == S_PAGE
  {
    forall k | k in have && k < N_PKT :: HoldsPacket(buf[64 * k..64 * k + 64], g, p, k)
  }

  // All pages of a node carry one version, never below the one the node is updating to.
  ghost predicate NodeSafe(n: Node, g: Goal, floor: int) {
    && NodeInv(n, g.npages)
    && PageCount(|g.image|) == g.npages
    && (forall p | 0 <= p < g.npages :: n.pages[p].version == n.pages[0].version)
    && n.updateVersion <= n.pages[0].version <= g.top
    && DataSafe(n.pages, n.rxPage, n.file, n.currentPage, g, floor)
  }

  ghost predicate NetSafe(net: Net, g: Goal, floor: int) {
    && (forall i | 0 <= i < |net.nodes| :: NodeSafe(net.nodes[i], g, floor))
    && (forall m | m in net.sent :: MessageSafe(m, g, floor))
  }

  // What a transmission needs for it to be harmless: the page is complete or right, unless its version is not
  // above `floor` or no packet of it is wanted.
  ghost predicate CarefulTx(n: Node, g: Goal, floor: int) {
    0 <= n.txPage < |n.pages| && n.pages[n.txPage].version > floor && n.txSet * ALL_PACKETS != {} ==>
      n.pages[n.txPage].complete || HoldsPage(n.file, g, n.txPage)
  }

  lemma PutPacketHolds(buf: seq<byte>, g: Goal, p: nat, have: set<nat>, k: nat, payload: seq<byte>)
    requires |buf| == S_PAGE && |payload| == S_PKT && k < N_PKT
    requires HoldsPackets(buf, g, p, have) && HoldsPacket(payload, g, p, k)
    ensures HoldsPackets(PutPacket(buf, k, payload), g, p, have + {k})
  {
    var r := PutPacket(buf, k, payload);
    assert r[64 * k..64 * k + 64] == payload;
    forall i | i in have && i < N_PKT && i != k
      ensures r[64 * i..64 * i + 64] == buf[64 * i..64 * i + 64]
    {
      assert i < k || k < i;
      assert forall j | 64 * i <= j < 64 * i + 64 :: r[j] == buf[j];
    }
  }

  // A byte of a page that has only right packets
  lemma ByteFromPackets(g: Goal, p: nat, buf: seq<byte>, r: nat)
    requires |buf| == S_PAGE && r < S_PAGE && 256 * p + r < |g.image|
    requires HoldsPackets(buf, g, p, ALL_PACKETS)
    ensures buf[r] == g.image[256 * p + r]
  {
    var k, j := r / 64, r % 64;
    assert k in ALL_PACKETS && 64 * k + 64 <= |buf|;
    var packet := buf[64 * k..64 * k + 64];
    assert HoldsPacket(packet, g, p, k);
    assert packet[j] == buf[r];
  }

  // Four right packets make a right page.
  lemma PageFromPackets(file: seq<byte>, g: Goal, p: nat, buf: seq<byte>)
    requires |buf| == S_PAGE && 256 * p <= |file|
    requires HoldsPackets(buf, g, p, ALL_PACKETS)
    ensures HoldsPage(WritePage(file, p, buf), g, p)
  {
    var f := WritePage(file, p, buf);
    forall o | 256 * p <= o < 256 * p + 256 && o < |g.image|
      ensures o < |f| && f[o] == g.image[o]
    {
      var r := o - 256 * p;
      ByteFromPackets(g, p, buf, r);
      assert f[o] == f[256 * p..256 * p + 256][r];
    }
  }

  lemma WriteKeepsOtherPages(file: seq<byte>, g: Goal, p: nat, buf: seq<byte>, q: nat)
    requires |buf| == S_PAGE && p != q && HoldsPage(file, g, q)
    ensures HoldsPage(WritePage(file, p, buf), g, q)
  {
    assert p < q || q < p;
  }

  lemma CompleteKeepsData(pages: seq<Page>, rxPage: nat, file: seq<byte>, buf: seq<byte>, g: Goal, floor: int,
                          page: Page)
    requires |buf| == S_PAGE && rxPage < |pages| && 256 * rxPage <= |file|
    requires DataSafe(pages, rxPage, file, buf, g, floor)
    requires !pages[rxPage].complete && page.complete && page.version == pages[rxPage].version
    requires pages[0].version > floor ==> HoldsPackets(buf, g, rxPage, ALL_PACKETS)
    ensures DataSafe(pages[rxPage := page], rxPage + 1, WritePage(file, rxPage, buf), buf, g, floor)
  {
    var pages', file' := pages[rxPage := page], WritePage(file, rxPage, buf);
    if pages[0].version > floor {
      PageFromPackets(file, g, rxPage, buf);
      forall q | 0 <= q < |pages'| && pages'[q].complete && (q < TX_LIMIT || pages[0].version == g.top)
        ensures HoldsPage(file', g, q)
      {
        if q != rxPage {
          WriteKeepsOtherPages(file, g, rxPage, buf, q);
        }
      }
    }
  }

  lemma PacketKeepsData(n: Node, g: Goal, floor: int, m: Message)
    requires NodeSafe(n, g, floor) && m.Packet? && MessageSafe(m, g, floor) && m.pagenum == n.rxPage
    requires m.version == n.pages[m.pagenum].version && !n.pages[m.pagenum].complete
    ensures var n' := HandlePacket(n, m);
      |n'.currentPage| == S_PAGE && |n'.pages| == |n.pages| &&
      DataSafe(n'.pages, n'.rxPage, n'.file, n'.currentPage, g, floor)
  {
    StoredPacket(n, m);
    var p, buf := m.pagenum, PutPacket(n.currentPage, m.packetnum, m.payload);
    var have := n.pages[p].packetSet + {m.packetnum};
    if n.pages[0].version > floor {
      PutPacketHolds(n.currentPage, g, p, n.pages[p].packetSet, m.packetnum, m.payload);
    }
    assert DataSafe(n.pages, p, n.file, buf, g, floor);
    if have == ALL_PACKETS {
      CompleteKeepsData(n.pages, p, n.file, buf, g, floor, Page(have, true, m.version));
    }
  }

  lemma PacketKeepsSafe(n: Node, g: Goal, floor: int, m: Message)
    requires NodeSafe(n, g, floor) && m.Packet? && MessageSafe(m, g, floor)
    ensures NodeSafe(HandlePacket(n, m), g, floor)
  {
    PacketKeepsNodeInv(n, g.npages, m);
    var p := m.pagenum;
    if p == n.rxPage && m.version == n.pages[p].version && !n.pages[p].complete {
      StoredPacket(n, m);
      PacketKeepsData(n, g, floor, m);
    }
  }

  lemma RetagKeepsData(pages: seq<Page>, rxPage: nat, file: seq<byte>, buf: seq<byte>, g: Goal, floor: int,
                       vector: seq<nat>)
    requires |buf| == S_PAGE && |pages| == |vector| >= 1 && TableInv(pages, rxPage)
    requires DataSafe(pages, rxPage, file, buf, g, floor)
    requires forall p | 0 <= p < |pages| :: pages[p].version == pages[0].version && vector[p] == vector[0]
    ensures var retagged := RetagAll(pages, vector);
      DataSafe(retagged, FirstIncomplete(retagged), file, buf, g, floor)
  {
    if vector[0] <= pages[0].version {
      assert RetagAll(pages, vector) == pages;
    }
  }

  lemma ProfileKeepsSafe(n: Node, g: Goal, floor: int, m: Message, memory: bool)
    requires NodeSafe(n, g, floor) && m.Profile? && MessageSafe(m, g, floor)
    ensures NodeSafe(HandleProfile(n, m, memory), g, floor)
  {
    ProfileKeepsNodeInv(n, g.npages, m, memory);
    RetagKeepsData(n.pages, n.rxPage, n.file, n.currentPage, g, floor, m.versionVector);
  }

  lemma PacketsOfMembers(version: nat, pagenum: nat, buf: seq<byte>, wanted: set<nat>, count: nat, m: Message)
    requires |buf| == S_PAGE && count <= N_PKT
    ensures m in PacketsOf(version, pagenum, buf, wanted, count) <==>
      exists k :: 0 <= k < count && k in wanted && m == PacketOf(version, pagenum, buf, k)
  {
    if count > 0 {
      PacketsOfMembers(version, pagenum, buf, wanted, count - 1, m);
    }
  }

  lemma PacketFromPage(file: seq<byte>, g: Goal, p: nat, stale: seq<byte>, k: nat)
    requires HoldsPage(file, g, p) && |stale| == S_PAGE && k < N_PKT
    ensures HoldsPacket(ReadPage(file, p, stale)[64 * k..64 * (k + 1)], g, p, k)
  {
    var buf := ReadPage(file, p, stale);
    var payload := buf[64 * k..64 * (k + 1)];
    forall j | 0 <= j < S_PKT && 256 * p + 64 * k + j < |g.image|
      ensures payload[j] == g.image[256 * p + 64 * k + j]
    {
      assert payload[j] == buf[64 * k + j];
    }
  }

  lemma TxKeepsSafe(n: Node, g: Goal, floor: int, stale: seq<byte>, m: Message)
    requires NodeSafe(n, g, floor) && CarefulTx(n, g, floor) && |stale| == S_PAGE
    requires m in TxCallback(n, stale).1
    ensures MessageSafe(m, g, floor)
  {
    var p, buf := n.txPage, ReadPage(n.file, n.txPage, stale);
    PacketsOfMembers(n.pages[p].version, p, buf, n.txSet, N_PKT, m);
    var k :| 0 <= k < N_PKT && k in n.txSet && m == PacketOf(n.pages[p].version, p, buf, k);
    assert n.pages[p].version == n.pages[0].version;
    if n.pages[p].version > floor {
      assert k in n.txSet * ALL_PACKETS;
      PacketFromPage(n.file, g, p, stale, k);
    }
  }

  ghost predicate InputSafe(n: Node, input: Input, g: Goal, floor: int) {
    && (input.Receive? ==> MessageSafe(input.msg, g, floor))
    && (input.TxTimer? ==> CarefulTx(n, g, floor))
  }

  lemma SentIsSafe(n: Node, g: Goal, floor: int, input: Input, m: Message)
    requires NodeSafe(n, g, floor) && InputSafe(n, input, g, floor) && m in Step(n, input).1
    ensures MessageSafe(m, g, floor)
  {
    if input.TxTimer? {
      TxKeepsSafe(n, g, floor, input.stale, m);
    }
  }

  lemma StepKeepsSafe(n: Node, g: Goal, floor: int, input: Input)
    requires NodeSafe(n, g, floor) && InputSafe(n, input, g, floor)
    ensures NodeSafe(Step(n, input).0, g, floor)
    ensures forall m | m in Step(n, input).1 :: MessageSafe(m, g, floor)
  {
    if input.Receive? && input.msg.Packet? {
      PacketKeepsSafe(n, g, floor, input.msg);
    } else if input.Receive? && input.msg.Profile? {
      ProfileKeepsSafe(n, g, floor, input.msg, input.memory);
    } else {
      StepKeepsNodeInv(n, g.npages, input);
      if !input.Receive? {
        TimerKeepsData(n, input);
      } else if input.msg.Request? {
        RequestKeepsData(n, input.msg);
      } else {
        SummaryKeepsData(n, input.msg, input.recent);
      }
    }
    forall m | m in Step(n, input).1
      ensures MessageSafe(m, g, floor)
    {
      SentIsSafe(n, g, floor, input, m);
    }
  }

  // Every transmission of the run is careful.
  ghost predicate CarefulRun(net: Net, events: seq<Event>, g: Goal, floor: int)
    decreases events
  {
    events == [] ||
    ((Enabled(net, events[0]) && events[0].input.TxTimer? ==> CarefulTx(net.nodes[events[0].node], g, floor)) &&
     CarefulRun(Apply(net, events[0]), events[1..], g, floor))
  }

  /** With any number of versions around, careful transmissions keep the network safe. */
  lemma {:induction false} CarefulRunIsSafe(net: Net, events: seq<Event>, g: Goal, floor: int)
    requires NetSafe(net, g, floor) && CarefulRun(net, events, g, floor)
    ensures NetSafe(Run(net, events), g, floor)
    decreases events
  {
    if events != [] {
      var e := events[0];
      if Enabled(net, e) {
        StepKeepsSafe(net.nodes[e.node], g, floor, e.input);
      }
      CarefulRunIsSafe(Apply(net, e), events[1..], g, floor);
    }
  }

  // ---------------------------------------------------------------- nothing to send in the lowest version

  // All versions are `floor` or above it.  A node that runs a version above it carries the image, and one that
  // runs the version `floor` has nothing to send.
  ghost predicate NodeQuiet(n: Node, g: Goal, floor: int) {
    && n.version >= floor && |n.pages| >= 1
    && (n.version > floor ==> Carries(n.file, g))
    && (n.pages[0].version > floor ==> n.updateVersion > floor)
    && (n.pages[0].version <= floor ==> AllComplete(n.pages))
    && (n.version <= floor ==> n.txSet * ALL_PACKETS == {})
  }

  // Nobody asks for a page in the version `floor`.
  ghost predicate MessageQuiet(m: Message, g: Goal, floor: int) {
    match m
    case Request(version, pagenum, requestSet) =>
      version <= floor && pagenum < g.npages ==> requestSet * ALL_PACKETS == {}
    case _ => true
  }

  lemma QuietIsCareful(n: Node, g: Goal, floor: int)
    requires NodeSafe(n, g, floor) && NodeQuiet(n, g, floor)
    ensures CarefulTx(n, g, floor)
  {
  }

  lemma SentIsQuiet(n: Node, g: Goal, floor: int, input: Input, m: Message)
    requires NodeSafe(n, g, floor) && NodeQuiet(n, g, floor) && m in Step(n, input).1
    ensures MessageQuiet(m, g, floor)
  {
    if input.RequestTimer? && n.rxPage < g.npages {
      var page := n.pages[n.rxPage];
      assert m == Request(page.version, n.rxPage, MASK_BITS - page.packetSet);
      assert page.version == n.pages[0].version;
      if page.version <= floor {
        assert page.packetSet == ALL_PACKETS;
      }
    } else if input.TxTimer? {
      var p, buf := n.txPage, ReadPage(n.file, n.txPage, input.stale);
      PacketsOfMembers(n.pages[p].version, p, buf, n.txSet, N_PKT, m);
    }
  }

  // The page that a packet completes is right, and those that were right still are.
  lemma PacketKeepsCarried(n: Node, g: Goal, floor: int, m: Message)
    requires NodeSafe(n, g, floor) && NodeQuiet(n, g, floor) && m.Packet? && MessageSafe(m, g, floor)
    requires HandlePacket(n, m).version > floor
    ensures Carries(HandlePacket(n, m).file, g)
  {
    var n', p := HandlePacket(n, m), m.pagenum;
    PacketKeepsSafe(n, g, floor, m);
    if p == n.rxPage && m.version == n.pages[p].version && !n.pages[p].complete {
      StoredPacket(n, m);
      assert n.pages[p].version == n.pages[0].version > floor;
      if n.version > floor && n'.file != n.file {
        forall q | 0 <= q < g.npages && q < TX_LIMIT && q != p
          ensures HoldsPage(n'.file, g, q)
        {
          WriteKeepsOtherPages(n.file, g, p, n'.currentPage, q);
        }
      }
    }
  }

  lemma PacketKeepsQuiet(n: Node, g: Goal, floor: int, m: Message)
    requires NodeSafe(n, g, floor) && NodeQuiet(n, g, floor) && m.Packet? && MessageSafe(m, g, floor)
    ensures NodeQuiet(HandlePacket(n, m), g, floor)
  {
    if HandlePacket(n, m).version > floor {
      PacketKeepsCarried(n, g, floor, m);
    }
    if m.pagenum == n.rxPage && m.version == n.pages[m.pagenum].version && !n.pages[m.pagenum].complete {
      StoredPacket(n, m);
      assert n.pages[m.pagenum].version == n.pages[0].version;
    }
  }

  lemma RequestKeepsQuiet(n: Node, g: Goal, floor: int, m: Message)
    requires NodeSafe(n, g, floor) && NodeQuiet(n, g, floor) && m.Request? && MessageQuiet(m, g, floor)
    ensures NodeQuiet(HandleRequest(n, m), g, floor)
  {
    RequestKeepsData(n, m);
    var n' := HandleRequest(n, m);
    if n'.txSet != n.txSet && n.version <= floor {
      assert n'.txSet * ALL_PACKETS <= n.txSet * ALL_PACKETS + m.requestSet * ALL_PACKETS;
    }
  }

  lemma ProfileKeepsQuiet(n: Node, g: Goal, floor: int, m: Message, memory: bool)
    requires NodeSafe(n, g, floor) && NodeQuiet(n, g, floor) && m.Profile? && MessageSafe(m, g, floor)
    ensures NodeQuiet(HandleProfile(n, m, memory), g, floor)
  {
  }

  lemma StepKeepsQuiet(n: Node, g: Goal, floor: int, input: Input)
    requires NodeSafe(n, g, floor) && NodeQuiet(n, g, floor)
    requires InputSafe(n, input, g, floor) && (input.Receive? ==> MessageQuiet(input.msg, g, floor))
    ensures NodeQuiet(Step(n, input).0, g, floor)
    ensures forall m | m in Step(n, input).1 :: MessageQuiet(m, g, floor)
  {
    if !input.Receive? {
      TimerKeepsData(n, input);
    } else {
      match input.msg {
        case Summary(_, _) => SummaryKeepsData(n, input.msg, input.recent);
        case Request(_, _, _) => RequestKeepsQuiet(n, g, floor, input.msg);
        case Packet(_, _, _, _, _) => PacketKeepsQuiet(n, g, floor, input.msg);
        case Profile(_, _, _) => ProfileKeepsQuiet(n, g, floor, input.msg, input.memory);
      }
    }
    forall m | m in Step(n, input).1
      ensures MessageQuiet(m, g, floor)
    {
      SentIsQuiet(n, g, floor, input, m);
    }
  }

  ghost predicate NetQuiet(net: Net, g: Goal, floor: int) {
    && (forall i | 0 <= i < |net.nodes| :: NodeQuiet(net.nodes[i], g, floor))
    && (forall m | m in net.sent :: MessageQuiet(m, g, floor))
  }

  lemma {:induction false} QuietRunIsSafe(net: Net, events: seq<Event>, g: Goal, floor: int)
    requires NetSafe(net, g, floor) && NetQuiet(net, g, floor)
    ensures NetSafe(Run(net, events), g, floor)
    decreases events
  {
    if events != [] {
      var e := events[0];
      if Enabled(net, e) {
        QuietIsCareful(net.nodes[e.node], g, floor);
        StepKeepsSafe(net.nodes[e.node], g, floor, e.input);
        StepKeepsQuiet(net.nodes[e.node], g, floor, e.input);
      }
      QuietRunIsSafe(Apply(net, e), events[1..], g, floor);
    }
  }

  // ---------------------------------------------------------------- what dissemination promises

  // Every node starts complete, in one version or another; those in the newest one hold its image.
  ghost predicate Initial(net: Net, g: Goal, files: seq<seq<byte>>, versions: seq<nat>) {
    && |net.nodes| == |files| == |versions| && net.sent == {}
    && 1 <= g.npages <= 255 && PageCount(|g.image|) == g.npages
    && forall i | 0 <= i < |net.nodes| ::
      && net.nodes[i] == InitObject(files[i], versions[i])
      && PageCount(|files[i]|) == g.npages
      && versions[i] <= g.top
      && (versions[i] == g.top ==> files[i] == g.image)
  }

  // Every node above `floor` starts with the pages of the image that can be sent.
  ghost predicate CarriesAbove(g: Goal, files: seq<seq<byte>>, versions: seq<nat>, floor: int)
    requires |files| == |versions|
  {
    forall i | 0 <= i < |files| && versions[i] > floor :: Carries(files[i], g)
  }

  lemma InitialIsSafe(net: Net, g: Goal, files: seq<seq<byte>>, versions: seq<nat>, floor: int)
    requires Initial(net, g, files, versions) && CarriesAbove(g, files, versions, floor)
    ensures NetSafe(net, g, floor)
  {
    forall i | 0 <= i < |net.nodes|
      ensures NodeSafe(net.nodes[i], g, floor)
    {
      InitialNodeInv(files[i], versions[i]);
    }
  }

  // What dissemination promises: the packets, the pages and the images of the newest version are right.
  ghost predicate Disseminates(net: Net, g: Goal) {
    && (forall m | m in net.sent && m.Packet? && m.version == g.top ::
          m.pagenum < g.npages && HoldsPacket(m.payload, g, m.pagenum, m.packetnum))
    && (forall i, p | 0 <= i < |net.nodes| && 0 <= p < |net.nodes[i].pages| ::
          net.nodes[i].pages[p].version == g.top && net.nodes[i].pages[p].complete ==>
            HoldsPage(net.nodes[i].file, g, p))
    && (forall i | 0 <= i < |net.nodes| && net.nodes[i].version == g.top :: HoldsImage(net.nodes[i].file, g))
    && (forall i, m | 0 <= i < |net.nodes| && m in net.sent :: Fits(net.nodes[i], m))
  }

  lemma SafeDisseminates(net: Net, g: Goal, floor: int)
    requires NetSafe(net, g, floor) && floor < g.top
    ensures Disseminates(net, g)
  {
    forall i | 0 <= i < |net.nodes| && net.nodes[i].version == g.top
      ensures HoldsImage(net.nodes[i].file, g)
    {
      AllPagesHoldImage(net.nodes[i], g, floor);
    }
    forall i, m | 0 <= i < |net.nodes| && m in net.sent
      ensures Fits(net.nodes[i], m)
    {
      assert NodeSafe(net.nodes[i], g, floor) && MessageSafe(m, g, floor);
    }
  }

  lemma AllPagesHoldImage(n: Node, g: Goal, floor: int)
    requires NodeSafe(n, g, floor) && floor < g.top && n.version == g.top
    ensures HoldsImage(n.file, g)
  {
    PagesHoldImage(n.file, g);
  }

  // A file holds the image if it holds all pages of it.
  lemma PagesHoldImage(file: seq<byte>, g: Goal)
    requires PageCount(|g.image|) == g.npages >= 1
    ensures HoldsImage(file, g) <==> forall p | 0 <= p < g.npages :: HoldsPage(file, g, p)
  {
    if forall p | 0 <= p < g.npages :: HoldsPage(file, g, p) {
      forall o | 0 <= o < |g.image|
        ensures o < |file| && file[o] == g.image[o]
      {
        HeldByte(file, g, o);
      }
      HeldByte(file, g, |g.image| - 1);
    }
    if HoldsImage(file, g) {
      forall p, o | 0 <= p < g.npages && 256 * p <= o < 256 * p + 256 && o < |g.image|
        ensures o < |file| && file[o] == g.image[o]
      {
        assert file[..|g.image|][o] == file[o];
      }
    }
  }

  lemma HeldByte(file: seq<byte>, g: Goal, o: nat)
    requires PageCount(|g.image|) == g.npages && o < |g.image|
    requires forall p | 0 <= p < g.npages :: HoldsPage(file, g, p)
    ensures o < |file| && file[o] == g.image[o]
  {
    var p := o / 256;
    var wanted := g.image[o];
    assert p < g.npages && 256 * p <= o < 256 * p + 256;
    assert HoldsPage(file, g, p);
  }

  /** Objects of at most 128 pages carry the image exactly if they hold it. */
  lemma CarriesIffHolds(file: seq<byte>, g: Goal)
    requires PageCount(|g.image|) == g.npages >= 1 && g.npages <= TX_LIMIT
    ensures Carries(file, g) <==> HoldsImage(file, g)
  {
    PagesHoldImage(file, g);
  }

  // ---------------------------------------------------------------- safety

  /**
   Whatever the versions: if all nodes but those in the lowest version start with the pages of the image that
   can be sent, every run disseminates.
   */
  lemma CarriedDisseminates(net: Net, g: Goal, files: seq<seq<byte>>, versions: seq<nat>, floor: int,
                            events: seq<Event>)
    requires Initial(net, g, files, versions) && CarriesAbove(g, files, versions, floor)
    requires floor < g.top && forall i | 0 <= i < |versions| :: floor <= versions[i]
    ensures Disseminates(Run(net, events), g)
  {
    InitialIsSafe(net, g, files, versions, floor);
    QuietRunIsSafe(net, events, g, floor);
    SafeDisseminates(Run(net, events), g, floor);
  }

  // The image carries itself.
  lemma NewestCarries(g: Goal, files: seq<seq<byte>>, versions: seq<nat>, i: nat)
    requires |files| == |versions| && i < |files| && (versions[i] == g.top ==> files[i] == g.image)
    ensures versions[i] == g.top ==> Carries(files[i], g)
  {
  }

  /**
   Safety of dissemination: one old and one new version, any number of nodes in each, one
   page count.  In every reachable state each packet in flight that is tagged with the new
   version carries the bytes of the new image, each complete page tagged with it holds that
   page of the image, and each node that runs the new version holds the whole image.
   */
  lemma TwoVersionsDisseminate(net: Net, g: Goal, files: seq<seq<byte>>, versions: seq<nat>, older: nat,
                               events: seq<Event>)
    requires Initial(net, g, files, versions)
    requires older < g.top && forall i | 0 <= i < |versions| :: versions[i] == older || versions[i] == g.top
    ensures Disseminates(Run(net, events), g)
  {
    forall i | 0 <= i < |files| && versions[i] > older
      ensures Carries(files[i], g)
    {
      NewestCarries(g, files, versions, i);
    }
    CarriedDisseminates(net, g, files, versions, older, events);
  }

  /** With any versions at the start, the same in the runs whose transmissions are all careful. */
  lemma ManyVersionsDisseminate(net: Net, g: Goal, files: seq<seq<byte>>, versions: seq<nat>, events: seq<Event>)
    requires Initial(net, g, files, versions) && CarefulRun(net, events, g, g.top - 1)
    ensures Disseminates(Run(net, events), g)
  {
    forall i | 0 <= i < |files| && versions[i] > g.top - 1
      ensures Carries(files[i], g)
    {
      NewestCarries(g, files, versions, i);
    }
    InitialIsSafe(net, g, files, versions, g.top - 1);
    CarefulRunIsSafe(net, events, g, g.top - 1);
    SafeDisseminates(Run(net, events), g, g.top - 1);
  }
}
