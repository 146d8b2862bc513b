/**
 When dissemination is safe.  A node answers requests that name the version it runs, up to and
 including its first incomplete page, and tags the packets it sends with the version of the page.  So
 a node that has just learnt of a third version sends its own old bytes under the number of the new
 one.  This breaks dissemination exactly if some node that is neither in the oldest nor in the newest
 version has other bytes than the newest in a page that can be sent.
 */
module DelugeThreeVersions {
  import opened Deluge
  import opened DelugeNetwork

  // ---------------------------------------------------------------- runs

  lemma {:induction false} RunAppend(net: Net, events: seq<Event>, e: Event)
    ensures Run(net, events + [e]) == Apply(Run(net, events), e)
    decreases events
  {
    if events == [] {
      assert Run(net, [e]) == Run(Apply(net, e), []);
    } else {
      assert (events + [e])[1..] == events[1..] + [e];
      RunAppend(Apply(net, events[0]), events[1..], e);
    }
  }

  // One more event at the end of a run
  lemma Extend(start: Net, events: seq<Event>, i: nat, input: Input) returns (events': seq<Event>, net: Net)
    requires Enabled(Run(start, events), Event(i, input))
    ensures net == Run(start, events')
    ensures var was := Run(start, events);
      var (n, out) := Step(was.nodes[i], input);
      net.nodes == was.nodes[i := n] && net.sent == was.sent + set m | m in out
  {
    RunAppend(start, events, Event(i, input));
    events' := events + [Event(i, input)];
    net := Run(start, events');
  }

  // What was sent stays on the medium, and only the nodes `i` and `j` may have changed.
  ghost predicate Later(net: Net, was: Net, i: nat, j: nat) {
    && |net.nodes| == |was.nodes| && was.sent <= net.sent
    && forall x | 0 <= x < |net.nodes| && x != i && x != j :: net.nodes[x] == was.nodes[x]
  }

  // ---------------------------------------------------------------- nodes on the way to a version

  // The page table of a node that has the first `q` pages of a version and nothing of the others
  function Table(q: nat, npages: nat, version: nat): seq<Page> {
    seq(npages, p => if p < q then Page(ALL_PACKETS, true, version) else Page({}, false, version))
  }

  ghost predicate Sizes(n: Node, npages: nat) {
    && 1 <= npages <= 255 && PageCount(n.size) == npages == |n.pages|
    && |n.currentPage| == S_PAGE && |n.file| > 256 * (npages - 1)
  }

  // A node that runs a version and has nothing to send
  ghost predicate Settled(n: Node, version: nat, npages: nat) {
    && Sizes(n, npages) && n.pages == Table(npages, npages, version)
    && n.version == n.updateVersion == version
    && n.txPage < npages && n.txSet == {} && n.recvAdv == 0
  }

  // A node that has the first `q` pages of the version that it is updating to
  ghost predicate Updating(n: Node, version: nat, q: nat, npages: nat) {
    && Sizes(n, npages) && q <= npages && n.pages == Table(q, npages, version) && n.rxPage == q
    && n.updateVersion == version
  }

  function ProfileOf(version: nat, npages: nat): Message { Profile(version, npages, seq(npages, _ => version)) }

  // A settled node hears the summary of an older version and announces its own.
  lemma Announce(n: Node, version: nat, npages: nat, older: nat, available: nat) returns (m: Node)
    requires Settled(n, version, npages) && older < version
    ensures var heard := HandleSummary(n, Summary(older, available), false);
      SendProfile(heard) == (m, [ProfileOf(version, npages)])
    ensures Settled(m, version, npages) && m.file == n.file
  {
    var heard := HandleSummary(n, Summary(older, available), false);
    m := SendProfile(heard).0;
    assert SendProfile(heard).1[0].versionVector == seq(npages, _ => version);
  }

  // A node of an older version receives a profile.
  lemma Adopted(n: Node, version: nat, npages: nat)
    requires Sizes(n, npages) && n.updateVersion < version
    requires forall p | 0 <= p < npages :: n.pages[p].version < version
    ensures var n' := HandleProfile(n, ProfileOf(version, npages), true);
      Updating(n', version, 0, npages) && n'.file == n.file && n'.version == n.version
  {
    PagesOfSize(npages);
    assert RetagAll(n.pages, seq(npages, _ => version)) == Table(0, npages, version);
  }

  // ---------------------------------------------------------------- receiving a page

  function Below(k: nat): set<nat> {
    if k == 0 then {} else Below(k - 1) + {k - 1}
  }

  lemma BelowFour()
    ensures Below(0) == {} && Below(1) == {0} && Below(2) == {0, 1} && Below(3) == {0, 1, 2} && Below(4) == ALL_PACKETS
  {
  }

  // Node `n` was `n0` before the first `k` packets of page `data` arrived.
  ghost predicate Received(n: Node, n0: Node, q: nat, data: seq<byte>, k: nat)
    requires |data| == S_PAGE && k < N_PKT && q < |n0.pages|
  {
    && n == n0.(pages := n0.pages[q := Page(Below(k), false, n0.pages[q].version)],
                currentPage := n.currentPage, inconsistency := n.inconsistency)
    && |n.currentPage| == S_PAGE && n.currentPage[..64 * k] == data[..64 * k]
  }

  // Node `n` was `n0` before page `data` arrived.
  ghost predicate Completed(n: Node, n0: Node, q: nat, data: seq<byte>)
    requires |data| == S_PAGE && q < |n0.pages|
  {
    && n == n0.(pages := n0.pages[q := Page(ALL_PACKETS, true, n0.pages[q].version)],
                currentPage := data, inconsistency := n.inconsistency, file := WritePage(n0.file, q, data),
                rxPage := Uint8(q + 1), version := n.version, phase := Maintain)
    && n.version == if q == PageCount(n0.size) - 1 then n0.updateVersion else n0.version
  }

  lemma ReceiveNext(n: Node, n0: Node, q: nat, data: seq<byte>, k: nat)
    requires |data| == S_PAGE && k < N_PKT && q < |n0.pages| && Received(n, n0, q, data, k)
    requires n0.rxPage == q && n0.pages[q] == Page({}, false, n0.pages[q].version)
    ensures var m := PacketOf(n0.pages[q].version, q, data, k);
      && Fits(n, m)
      && if k < 3 then Received(HandlePacket(n, m), n0, q, data, k + 1) else Completed(HandlePacket(n, m), n0, q, data)
  {
    var m := PacketOf(n0.pages[q].version, q, data, k);
    var buf := PutPacket(n.currentPage, k, m.payload);
    assert buf[..64 * (k + 1)] == data[..64 * k] + data[64 * k..64 * (k + 1)] == data[..64 * (k + 1)];
    BelowFour();
    assert Below(k) + {k} == Below(k + 1);
    if k == 3 {
      assert buf == buf[..256] && data == data[..256];
    } else {
      assert 3 !in Below(k + 1);
    }
  }

  lemma CompletedUpdates(n: Node, n0: Node, version: nat, q: nat, npages: nat, data: seq<byte>)
    requires |data| == S_PAGE && q < npages && Updating(n0, version, q, npages) && Completed(n, n0, q, data)
    ensures Updating(n, version, q + 1, npages) && n.file == WritePage(n0.file, q, data)
    ensures n.version == if q + 1 == npages then version else n0.version
  {
    assert n.pages == Table(q + 1, npages, version);
  }

  // Node `i` receives the packets of a page from number `k` on, all of which are on the medium.
  lemma ReceivesFrom(start: Net, before: seq<Event>, i: nat, n0: Node, q: nat, data: seq<byte>, k: nat)
    returns (events: seq<Event>, net: Net)
    requires |data| == S_PAGE && k < N_PKT && q < |n0.pages|
    requires n0.rxPage == q && n0.pages[q] == Page({}, false, n0.pages[q].version)
    requires var was := Run(start, before);
      && i < |was.nodes| && Received(was.nodes[i], n0, q, data, k)
      && forall j | 0 <= j < N_PKT :: PacketOf(n0.pages[q].version, q, data, j) in was.sent
    ensures net == Run(start, events) && Later(net, Run(start, before), i, i) && Completed(net.nodes[i], n0, q, data)
    decreases N_PKT - k
  {
    var was := Run(start, before);
    var m := PacketOf(n0.pages[q].version, q, data, k);
    ReceiveNext(was.nodes[i], n0, q, data, k);
    events, net := Extend(start, before, i, Receive(m, false, true));
    if k < 3 {
      events, net := ReceivesFrom(start, events, i, n0, q, data, k + 1);
    }
  }

  lemma ReceivesPage(start: Net, before: seq<Event>, i: nat, version: nat, q: nat, npages: nat, data: seq<byte>)
    returns (events: seq<Event>, net: Net)
    requires |data| == S_PAGE && q < npages
    requires var was := Run(start, before);
      && i < |was.nodes| && Updating(was.nodes[i], version, q, npages)
      && forall j | 0 <= j < N_PKT :: PacketOf(version, q, data, j) in was.sent
    ensures net == Run(start, events) && Later(net, Run(start, before), i, i)
    ensures Updating(net.nodes[i], version, q + 1, npages)
    ensures net.nodes[i].file == WritePage(Run(start, before).nodes[i].file, q, data)
    ensures net.nodes[i].version == if q + 1 == npages then version else Run(start, before).nodes[i].version
  {
    var n0 := Run(start, before).nodes[i];
    assert n0.pages[q := Page(Below(0), false, version)] == n0.pages;
    events, net := ReceivesFrom(start, before, i, n0, q, data, 0);
    CompletedUpdates(net.nodes[i], n0, version, q, npages, data);
  }

  // ---------------------------------------------------------------- asking for a page and sending it

  lemma Asks(start: Net, before: seq<Event>, i: nat, version: nat, q: nat, npages: nat)
    returns (events: seq<Event>, net: Net)
    requires q < npages && i < |Run(start, before).nodes| && Updating(Run(start, before).nodes[i], version, q, npages)
    ensures net == Run(start, events) && Later(net, Run(start, before), i, i)
    ensures Request(version, q, MASK_BITS) in net.sent
    ensures Updating(net.nodes[i], version, q, npages)
    ensures net.nodes[i].file == Run(start, before).nodes[i].file
    ensures net.nodes[i].version == Run(start, before).nodes[i].version
  {
    events, net := Extend(start, before, i, RequestTimer((0, {})));
    assert MASK_BITS - {} == MASK_BITS;
  }

  lemma AllPackets(version: nat, q: nat, buf: seq<byte>, wanted: set<nat>, k: nat)
    requires |buf| == S_PAGE && k < N_PKT && ALL_PACKETS <= wanted
    ensures PacketOf(version, q, buf, k) in PacketsOf(version, q, buf, wanted, N_PKT)
  {
    assert k in ALL_PACKETS;
    PacketsOfMembers(version, q, buf, wanted, N_PKT, PacketOf(version, q, buf, k));
  }

  // A node that is asked for a page of the version it runs, and has all pages before, sends what is in its file.
  lemma Sends(n: Node, q: nat, npages: nat, stale: seq<byte>)
    requires Sizes(n, npages) && q < npages && q < TX_LIMIT && q <= HighestAvailable(n) && |stale| == S_PAGE
    ensures var asked := HandleRequest(n, Request(n.version, q, MASK_BITS));
      && asked == n.(txPage := q, txSet := asked.txSet, phase := Tx) && ALL_PACKETS <= asked.txSet
      && TxCallback(asked, stale) ==
        (asked.(txSet := {}, txPage := -1, phase := Maintain),
         PacketsOf(n.pages[q].version, q, ReadPage(n.file, q, stale), asked.txSet, N_PKT))
  {
  }

  // Node `i` answers a request for page `q` of the version it runs, whatever the version of the page.
  lemma Answers(start: Net, before: seq<Event>, i: nat, q: nat, npages: nat, stale: seq<byte>)
    returns (events: seq<Event>, net: Net)
    requires q < npages && q < TX_LIMIT && |stale| == S_PAGE
    requires var was := Run(start, before);
      && i < |was.nodes| && Sizes(was.nodes[i], npages) && q <= HighestAvailable(was.nodes[i])
      && Request(was.nodes[i].version, q, MASK_BITS) in was.sent
    ensures net == Run(start, events) && Later(net, Run(start, before), i, i)
    ensures var n := Run(start, before).nodes[i];
      && net.nodes[i] == n.(txPage := -1, txSet := {}, phase := Maintain)
      && forall k | 0 <= k < N_PKT :: PacketOf(n.pages[q].version, q, ReadPage(n.file, q, stale), k) in net.sent
  {
    var n := Run(start, before).nodes[i];
    Sends(n, q, npages, stale);
    events, net := Extend(start, before, i, Receive(Request(n.version, q, MASK_BITS), false, true));
    var asked := net.nodes[i];
    events, net := Extend(start, events, i, TxTimer(stale));
    forall k | 0 <= k < N_PKT
      ensures PacketOf(n.pages[q].version, q, ReadPage(n.file, q, stale), k) in net.sent
    {
      AllPackets(n.pages[q].version, q, ReadPage(n.file, q, stale), asked.txSet, k);
    }
  }

  function Zeros(): (z: seq<byte>)
    ensures |z| == S_PAGE
  {
    seq(S_PAGE, _ => 0)
  }

  // Node `r` gets page `q` from the settled node `s`.
  lemma Transfers(start: Net, before: seq<Event>, s: nat, r: nat, version: nat, q: nat, npages: nat)
    returns (events: seq<Event>, net: Net)
    requires q < npages && q < TX_LIMIT && s != r
    requires var was := Run(start, before);
      && s < |was.nodes| && r < |was.nodes|
      && Settled(was.nodes[s], version, npages) && Updating(was.nodes[r], version, q, npages)
    ensures net == Run(start, events) && Later(net, Run(start, before), s, r)
    ensures Settled(net.nodes[s], version, npages) && net.nodes[s].file == Run(start, before).nodes[s].file
    ensures Updating(net.nodes[r], version, q + 1, npages)
    ensures net.nodes[r].file == WritePage(Run(start, before).nodes[r].file, q,
                                           ReadPage(Run(start, before).nodes[s].file, q, Zeros()))
    ensures net.nodes[r].version == if q + 1 == npages then version else Run(start, before).nodes[r].version
  {
    var was := Run(start, before);
    events, net := Asks(start, before, r, version, q, npages);
    assert net.nodes[s] == was.nodes[s];
    assert was.nodes[s].pages[q] == Page(ALL_PACKETS, true, version);
    events, net := Answers(start, events, s, q, npages, Zeros());
    events, net := ReceivesPage(start, events, r, version, q, npages, ReadPage(was.nodes[s].file, q, Zeros()));
  }

  // The bytes of a page that is not written do not change.
  ghost predicate SamePage(file: seq<byte>, was: seq<byte>, p: nat) {
    |was| <= |file| && forall o | 256 * p <= o < 256 * p + 256 && o < |was| :: file[o] == was[o]
  }

  // Node `r` gets the pages from `q` to `end` from the settled node `s`; page `p` is none of them.
  lemma TransfersAll(start: Net, before: seq<Event>, s: nat, r: nat, version: nat, q: nat, end: nat, npages: nat,
                     p: nat)
    returns (events: seq<Event>, net: Net)
    requires q <= end <= npages && end <= TX_LIMIT && s != r && !(q <= p < end)
    requires var was := Run(start, before);
      && s < |was.nodes| && r < |was.nodes|
      && Settled(was.nodes[s], version, npages) && Updating(was.nodes[r], version, q, npages)
    ensures net == Run(start, events) && Later(net, Run(start, before), s, r)
    ensures Settled(net.nodes[s], version, npages) && net.nodes[s].file == Run(start, before).nodes[s].file
    ensures Updating(net.nodes[r], version, end, npages)
    ensures SamePage(net.nodes[r].file, Run(start, before).nodes[r].file, p)
    ensures end < npages && q < npages ==> |net.nodes[r].file| == |Run(start, before).nodes[r].file|
    ensures net.nodes[r].version == if q < end == npages then version else Run(start, before).nodes[r].version
    decreases end - q
  {
    events, net := before, Run(start, before);
    if q < end {
      events, net := Transfers(start, before, s, r, version, q, npages);
      events, net := TransfersAll(start, events, s, r, version, q + 1, end, npages, p);
    }
  }

  // ---------------------------------------------------------------- a third version

  // Node `i` hears of an older version and announces its own.
  lemma Announces(start: Net, before: seq<Event>, i: nat, version: nat, npages: nat, older: nat, available: nat)
    returns (events: seq<Event>, net: Net)
    requires var was := Run(start, before);
      && i < |was.nodes| && Settled(was.nodes[i], version, npages) && older < version
      && Summary(older, available) in was.sent
    ensures net == Run(start, events) && Later(net, Run(start, before), i, i)
    ensures ProfileOf(version, npages) in net.sent
    ensures Settled(net.nodes[i], version, npages) && net.nodes[i].file == Run(start, before).nodes[i].file
  {
    var m := Announce(Run(start, before).nodes[i], version, npages, older, available);
    events, net := Extend(start, before, i, Receive(Summary(older, available), false, true));
    events, net := Extend(start, events, i, ProfileTimer);
  }

  // Node `i` receives the profile of a newer version.
  lemma Adopts(start: Net, before: seq<Event>, i: nat, version: nat, npages: nat)
    returns (events: seq<Event>, net: Net)
    requires var was := Run(start, before);
      && i < |was.nodes| && ProfileOf(version, npages) in was.sent && Sizes(was.nodes[i], npages)
      && was.nodes[i].updateVersion < version && forall p | 0 <= p < npages :: was.nodes[i].pages[p].version < version
    ensures net == Run(start, events) && Later(net, Run(start, before), i, i)
    ensures Updating(net.nodes[i], version, 0, npages)
    ensures net.nodes[i].file == Run(start, before).nodes[i].file
    ensures net.nodes[i].version == Run(start, before).nodes[i].version
  {
    Adopted(Run(start, before).nodes[i], version, npages);
    events, net := Extend(start, before, i, Receive(ProfileOf(version, npages), false, true));
  }

  // Three nodes, each in a version of its own and settled in it or, the first, on the way to that of the second
  ghost predicate Cast(net: Net, i: nat, j: nat, c: nat) {
    i < |net.nodes| && j < |net.nodes| && c < |net.nodes| && i != j && j != c && i != c
  }

  // The opening of the run: node `i` learns of the version of node `j` and comes to ask for page `p` of it.
  lemma Opening(start: Net, i: nat, j: nat, c: nat, a: nat, b: nat, t: nat, npages: nat, p: nat)
    returns (events: seq<Event>, net: Net)
    requires Cast(start, i, j, c) && a < b && p < npages && p < TX_LIMIT
    requires Settled(start.nodes[i], a, npages) && Settled(start.nodes[j], b, npages)
    requires Settled(start.nodes[c], t, npages)
    ensures net == Run(start, events) && Cast(net, i, j, c)
    ensures Updating(net.nodes[i], b, p, npages) && Request(b, p, MASK_BITS) in net.sent
    ensures Settled(net.nodes[j], b, npages) && net.nodes[j].file == start.nodes[j].file
    ensures net.nodes[c] == start.nodes[c] && Summary(a, npages) in net.sent
  {
    events, net := Extend(start, [], i, SummaryTimer);
    assert Summary(a, npages) in net.sent && net.nodes == start.nodes;
    events, net := Announces(start, events, j, b, npages, a, npages);
    events, net := Adopts(start, events, i, b, npages);
    events, net := TransfersAll(start, events, j, i, b, 0, p, npages, p);
    events, net := Asks(start, events, i, b, p, npages);
  }

  // The middle of the run: node `j` learns of the newest version, gets its pages before page `p`, and answers the
  // request for its own page `p`.
  lemma Middle(start: Net, before: seq<Event>, j: nat, c: nat, a: nat, b: nat, t: nat, npages: nat, p: nat,
               stale: seq<byte>)
    returns (events: seq<Event>, net: Net)
    requires a < t && b < t && p < npages && p < TX_LIMIT && j != c && |stale| == S_PAGE
    requires var was := Run(start, before);
      && j < |was.nodes| && c < |was.nodes|
      && Settled(was.nodes[j], b, npages) && Settled(was.nodes[c], t, npages)
      && Request(b, p, MASK_BITS) in was.sent && Summary(a, npages) in was.sent
    ensures net == Run(start, events) && Later(net, Run(start, before), j, c)
    ensures Settled(net.nodes[c], t, npages) && net.nodes[c].file == Run(start, before).nodes[c].file
    ensures ProfileOf(t, npages) in net.sent
    ensures forall k | 0 <= k < N_PKT ::
      PacketOf(t, p, ReadPage(Run(start, before).nodes[j].file, p, stale), k) in net.sent
  {
    var was := Run(start, before);
    events, net := Announces(start, before, c, t, npages, a, npages);
    events, net := Adopts(start, events, j, t, npages);
    events, net := TransfersAll(start, events, c, j, t, 0, p, npages, p);
    SamePageRead(net.nodes[j].file, was.nodes[j].file, p, stale);
    assert net.nodes[j].pages[p] == Page({}, false, t);
    events, net := Answers(start, events, j, p, npages, stale);
  }

  lemma SamePageRead(file: seq<byte>, was: seq<byte>, p: nat, stale: seq<byte>)
    requires SamePage(file, was, p) && |file| == |was| && |stale| == S_PAGE
    ensures ReadPage(file, p, stale) == ReadPage(was, p, stale)
  {
  }

  lemma StartsSettled(start: Net, g: Goal, files: seq<seq<byte>>, versions: seq<nat>, i: nat)
    requires Initial(start, g, files, versions) && i < |files|
    ensures Settled(start.nodes[i], versions[i], g.npages) && start.nodes[i].file == files[i]
  {
    assert InitObject(files[i], versions[i]).pages == Table(g.npages, g.npages, versions[i]);
  }

  // Wrong bytes in a page show in one of its packets, if what is behind the end of the file is wrong as well.
  lemma WrongPacket(file: seq<byte>, g: Goal, p: nat) returns (stale: seq<byte>, k: nat)
    requires !HoldsPage(file, g, p)
    ensures |stale| == S_PAGE && k < N_PKT
    ensures !HoldsPacket(PacketOf(g.top, p, ReadPage(file, p, stale), k).payload, g, p, k)
  {
    var o :| 256 * p <= o < 256 * p + 256 && o < |g.image| && !(o < |file| && file[o] == g.image[o]);
    var r := o - 256 * p;
    OtherByte(g.image[o]);
    stale, k := seq(S_PAGE, x requires 0 <= x < S_PAGE => if x == r then g.image[o] ^ 1 else 0), r / 64;
    var buf := ReadPage(file, p, stale);
    assert buf[r] != g.image[o];
    var j, payload := r % 64, PacketOf(g.top, p, buf, k).payload;
    assert payload[j] == buf[r] && 256 * p + 64 * k + j == o;
  }

  lemma OtherByte(b: byte)
    ensures b ^ 1 != b
  {
  }

  // Some run ends with a packet of the newest version that has bytes of the one in the middle.
  lemma ThirdVersionMisleads(start: Net, g: Goal, files: seq<seq<byte>>, versions: seq<nat>, i: nat, j: nat, c: nat,
                             p: nat)
    returns (events: seq<Event>)
    requires Initial(start, g, files, versions) && i < |files| && j < |files| && c < |files|
    requires versions[i] < versions[j] < versions[c] == g.top
    requires p < g.npages && p < TX_LIMIT && !HoldsPage(files[j], g, p)
    ensures !Disseminates(Run(start, events), g)
  {
    var net: Net;
    StartsSettled(start, g, files, versions, i);
    StartsSettled(start, g, files, versions, j);
    StartsSettled(start, g, files, versions, c);
    var stale, k := WrongPacket(files[j], g, p);
    events, net := Opening(start, i, j, c, versions[i], versions[j], g.top, g.npages, p);
    events, net := Middle(start, events, j, c, versions[i], versions[j], g.top, g.npages, p, stale);
    var m := PacketOf(g.top, p, ReadPage(files[j], p, stale), k);
    assert m in net.sent && m.packetnum == k;
  }

  // Node `i` adopts the newest version and gets page `p` of it from the misleading packets.
  lemma Ending(start: Net, before: seq<Event>, i: nat, c: nat, b: nat, t: nat, npages: nat, p: nat, data: seq<byte>)
    returns (events: seq<Event>, net: Net)
    requires b < t && p < npages <= TX_LIMIT && i != c && |data| == S_PAGE
    requires var was := Run(start, before);
      && i < |was.nodes| && c < |was.nodes|
      && Updating(was.nodes[i], b, p, npages) && Settled(was.nodes[c], t, npages) && ProfileOf(t, npages) in was.sent
      && forall k | 0 <= k < N_PKT :: PacketOf(t, p, data, k) in was.sent
    ensures net == Run(start, events) && i < |net.nodes|
    ensures net.nodes[i].version == t
    ensures exists file :: |file| > 256 * (npages - 1) && SamePage(net.nodes[i].file, WritePage(file, p, data), p)
  {
    events, net := Adopts(start, before, i, t, npages);
    events, net := TransfersAll(start, events, c, i, t, 0, p, npages, p);
    ghost var file := net.nodes[i].file;
    events, net := ReceivesPage(start, events, i, t, p, npages, data);
    events, net := TransfersAll(start, events, c, i, t, p + 1, npages, npages, p);
  }

  // A page is read as it was written.
  lemma WrittenRead(file: seq<byte>, was: seq<byte>, p: nat, data: seq<byte>)
    requires |data| == S_PAGE && |was| >= 256 * p && SamePage(file, WritePage(was, p, data), p)
    ensures ReadPage(file, p, Zeros()) == data
  {
    var w, buf := WritePage(was, p, data), ReadPage(file, p, Zeros());
    forall x | 0 <= x < S_PAGE
      ensures buf[x] == data[x]
    {
      assert w[256 * p + x] == w[256 * p..256 * p + 256][x];
    }
  }

  // A file with wrong bytes in a page does not hold the image.
  lemma WrongPage(file: seq<byte>, was: seq<byte>, g: Goal, p: nat, data: seq<byte>, k: nat)
    requires |data| == S_PAGE && k < N_PKT && |was| >= 256 * p && SamePage(file, WritePage(was, p, data), p)
    requires p < g.npages == PageCount(|g.image|)
    requires !HoldsPacket(PacketOf(g.top, p, data, k).payload, g, p, k)
    ensures !HoldsImage(file, g)
  {
    PagesHoldImage(file, g);
    WrittenRead(file, was, p, data);
    if HoldsPage(file, g, p) {
      PacketFromPage(file, g, p, Zeros(), k);
    }
  }

  /**
   For objects of at most 128 pages some run ends with a node that runs the newest version on bytes of the one
   in the middle.
   */
  lemma ThreeVersionsMix(start: Net, g: Goal, files: seq<seq<byte>>, versions: seq<nat>, i: nat, j: nat, c: nat)
    returns (events: seq<Event>)
    requires Initial(start, g, files, versions) && i < |files| && j < |files| && c < |files|
    requires versions[i] < versions[j] < versions[c] == g.top && g.npages <= TX_LIMIT && !HoldsImage(files[j], g)
    ensures i < |Run(start, events).nodes|
    ensures var n := Run(start, events).nodes[i]; n.version == g.top && !HoldsImage(n.file, g)
  {
    var net: Net;
    PagesHoldImage(files[j], g);
    var p :| 0 <= p < g.npages && !HoldsPage(files[j], g, p);
    StartsSettled(start, g, files, versions, i);
    StartsSettled(start, g, files, versions, j);
    StartsSettled(start, g, files, versions, c);
    var stale, k := WrongPacket(files[j], g, p);
    var data := ReadPage(files[j], p, stale);
    events, net := Opening(start, i, j, c, versions[i], versions[j], g.top, g.npages, p);
    events, net := Middle(start, events, j, c, versions[i], versions[j], g.top, g.npages, p, stale);
    events, net := Ending(start, events, i, c, versions[j], g.top, g.npages, p, data);
    var was :| |was| > 256 * (g.npages - 1) && SamePage(net.nodes[i].file, WritePage(was, p, data), p);
    WrongPage(net.nodes[i].file, was, g, p, data, k);
  }

  // ---------------------------------------------------------------- the exact condition

  // The node starts neither in the oldest nor in the newest version.
  ghost predicate Between(versions: seq<nat>, g: Goal, i: nat)
    requires i < |versions|
  {
    versions[i] < g.top && exists j :: 0 <= j < |versions| && versions[j] < versions[i]
  }

  // All nodes in versions between the oldest and the newest start with its pages, as far as pages can be sent.
  ghost predicate BetweenCarry(g: Goal, files: seq<seq<byte>>, versions: seq<nat>)
    requires |files| == |versions|
  {
    forall i | 0 <= i < |versions| && Between(versions, g, i) :: Carries(files[i], g)
  }

  // The version that nobody starts below, or the one before the newest if all start in that
  lemma Floor(versions: seq<nat>, top: nat) returns (floor: int)
    requires forall i | 0 <= i < |versions| :: versions[i] <= top
    ensures floor < top && forall i | 0 <= i < |versions| :: floor <= versions[i]
    ensures forall i | 0 <= i < |versions| && floor < versions[i] < top :: floor in versions
    decreases versions
  {
    floor := top - 1;
    if versions != [] {
      floor := Floor(versions[1..], top);
      assert forall i | 1 <= i < |versions| :: versions[i] == versions[1..][i - 1];
      if versions[0] < floor || (versions[0] < top && floor !in versions[1..]) {
        floor := versions[0];
      }
    }
  }

  /**
   When dissemination is safe: with the newest version somewhere at the start, all runs disseminate if and only
   if every node that starts in a version between the oldest and the newest has the newest's bytes in the pages
   that can be sent.
   */
  lemma DisseminatesIff(start: Net, g: Goal, files: seq<seq<byte>>, versions: seq<nat>)
    requires Initial(start, g, files, versions) && g.top in versions
    ensures (forall events :: Disseminates(Run(start, events), g)) <==> BetweenCarry(g, files, versions)
  {
    if BetweenCarry(g, files, versions) {
      forall events
        ensures Disseminates(Run(start, events), g)
      {
        BetweenSuffices(start, g, files, versions, events);
      }
    } else {
      var j :| 0 <= j < |versions| && Between(versions, g, j) && !Carries(files[j], g);
      var i :| 0 <= i < |versions| && versions[i] < versions[j];
      var c :| 0 <= c < |versions| && versions[c] == g.top;
      var p :| 0 <= p < g.npages && p < TX_LIMIT && !HoldsPage(files[j], g, p);
      var events := ThirdVersionMisleads(start, g, files, versions, i, j, c, p);
    }
  }

  lemma BetweenSuffices(start: Net, g: Goal, files: seq<seq<byte>>, versions: seq<nat>, events: seq<Event>)
    requires Initial(start, g, files, versions) && BetweenCarry(g, files, versions)
    ensures Disseminates(Run(start, events), g)
  {
    var floor := Floor(versions, g.top);
    forall i | 0 <= i < |files| && versions[i] > floor
      ensures Carries(files[i], g)
    {
      NewestCarries(g, files, versions, i);
      if versions[i] < g.top {
        var j :| 0 <= j < |versions| && versions[j] == floor;
        assert Between(versions, g, i);
      }
    }
    CarriedDisseminates(start, g, files, versions, floor, events);
  }
}
