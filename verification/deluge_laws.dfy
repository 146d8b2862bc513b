/**
 What the messages of Deluge bring about, told by the page tables of the nodes that send and receive them
 (apps/deluge/deluge.c), and what the checksum of a packet is (core/lib/crc16.c).
 */
module DelugeLaws {
  import opened Deluge
  import opened DelugeNetwork
  import opened DelugeThreeVersions

  // Exactly the first `k` pages of the table are complete before the first that is not.
  ghost predicate Leading(pages: seq<Page>, k: nat) {
    && k <= |pages| && (forall p | 0 <= p < k :: pages[p].complete)
    && (k < |pages| ==> !pages[k].complete)
  }

  lemma LeadingIsHighest(n: Node, k: nat)
    requires Leading(n.pages, k)
    ensures HighestAvailable(n) == k
  {
  }

  /** What a node advertises, and when it is silent. */
  lemma Advertises(m: Node, k: nat)
    requires Leading(m.pages, k)
    ensures AdvertiseSummary(m) == if m.recvAdv < CONST_K then [Summary(m.updateVersion, k)] else []
  {
    LeadingIsHighest(m, k);
  }

  /** In a new round a node advertises again, and sends the profile that it owes. */
  lemma RoundAdvertises(m: Node, k: nat)
    requires Leading(m.pages, k)
    ensures AdvertiseSummary(StartRound(m)) == [Summary(m.updateVersion, k)]
    ensures m.broadcastProfile ==> |SendProfile(StartRound(m)).1| == 1 && !SendProfile(StartRound(m)).0.broadcastProfile
    ensures SendProfile(SendProfile(m).0).1 == [] || !m.broadcastProfile || m.recvAdv >= CONST_K
  {
    Advertises(StartRound(m), k);
  }

  /**
   A node hears the summary of another: it asks for pages exactly if both update to one version and the other has more
   complete pages in front, no more than the object has.  It counts the summary exactly if that names the version it
   runs and its own number of such pages, and finds an inconsistency otherwise.
   */
  lemma SummaryHeard(n: Node, m: Node, j: nat, k: nat, s: Message, recent: bool)
    requires Leading(n.pages, j) && Leading(m.pages, k) && s in AdvertiseSummary(m)
    ensures s.Summary?
    ensures var heard := HandleSummary(n, s, recent);
      && (n.phase != Rx ==> (heard.phase == Rx <==>
            m.updateVersion == n.updateVersion && j < k <= PageCount(n.size) && !recent))
      && (heard.phase == n.phase || heard.phase == Rx)
      && heard.recvAdv == n.recvAdv + (if m.updateVersion == n.version && j == k then 1 else 0)
      && (heard.inconsistency <==> n.inconsistency || m.updateVersion != n.version || j != k)
      && (heard.broadcastProfile <==> n.broadcastProfile || m.updateVersion < n.version)
      && (heard.oldSummary <==> n.oldSummary || m.updateVersion < n.version)
  {
    LeadingIsHighest(n, j);
    LeadingIsHighest(m, k);
    Advertises(m, k);
  }

  lemma TableLeads(q: nat, npages: nat, version: nat)
    requires q <= npages
    ensures Leading(Table(q, npages, version), q)
  {
  }

  /** A node on the way to a version that hears of more pages of it is asking for them. */
  lemma UpdatingAsks(n: Node, version: nat, q: nat, npages: nat, p: nat)
    requires Updating(n, version, q, npages) && q < p <= npages
    ensures HandleSummary(n, Summary(version, p), false).phase == Rx
    ensures Updating(HandleSummary(n, Summary(version, p), false), version, q, npages)
  {
    TableLeads(q, npages, version);
    LeadingIsHighest(n, q);
  }

  // ---------------------------------------------------------------- profiles

  // What a page of the receiver becomes when it hears of the same page of the sender
  predicate Renewed(page: Page, other: Page, after: Page) {
    && after.version == (if other.version > page.version then other.version else page.version)
    && after.complete == (page.complete && other.version <= page.version)
    && after.packetSet == if other.version > page.version then {} else page.packetSet
  }

  /**
   A node hears the profile of another with as many pages.  If that runs a newer version than it updates to, the node
   updates to this version, sends nothing of the old one any more, asks for pages from the first incomplete one on,
   and has of each page the newer version, without packets where that is the sender's.  Otherwise nothing changes.
   */
  lemma ProfileHeard(n: Node, m: Node, npages: nat, p: Message)
    requires NodeInv(n, npages) && |m.pages| == npages == PageCount(m.size) && p in SendProfile(m).1
    ensures m.broadcastProfile && m.recvAdv < CONST_K
    ensures p.Profile? && |p.versionVector| == p.npages == npages
    ensures var heard := HandleProfile(n, p, true);
      if m.version <= n.updateVersion then heard == n
      else
        && heard.updateVersion == m.version && heard.version == n.version && heard.file == n.file
        && heard.txSet == {} && heard.phase == Rx && |heard.pages| == npages && heard.size == S_PAGE * npages
        && (forall i | 0 <= i < npages :: Renewed(n.pages[i], m.pages[i], heard.pages[i]))
        && Leading(heard.pages, heard.rxPage)
  {
    PagesOfSize(npages);
    assert p.versionVector == seq(npages, i requires 0 <= i < npages => m.pages[i].version);
  }

  // ---------------------------------------------------------------- requests

  /** A node asks for exactly the packets of its page that it has not, and after every second request it is done. */
  lemma RequestAsks(n: Node, junk: (nat, set<nat>), k: nat)
    requires n.rxPage < |n.pages| && k < N_PKT
    ensures var (after, r) := SendRequest(n, junk);
      && r.Request? && r.pagenum == n.rxPage && r.version == n.pages[n.rxPage].version
      && (k in r.requestSet <==> k !in n.pages[n.rxPage].packetSet)
      && (n.nrequests == 0 ==> after == n.(nrequests := 1))
      && (n.nrequests == 1 ==> after == n.(nrequests := 0, phase := Maintain))
  {
  }

  // A request that a node answers
  ghost predicate Answered(n: Node, r: Message, j: nat)
    requires r.Request?
  {
    Leading(n.pages, j) && r.version == n.version && r.pagenum <= j && r.pagenum < PageCount(n.size)
  }

  /** A request that is not for the running version, or for a page behind the first incomplete one, is not answered. */
  lemma NotAnswered(n: Node, r: Message, j: nat)
    requires r.Request? && Leading(n.pages, j) && !Answered(n, r, j)
    ensures var after := HandleRequest(n, r);
      && after == n.(inconsistency := after.inconsistency)
      && (after.inconsistency <==> n.inconsistency || (r.pagenum < PageCount(n.size) && r.version != n.version))
  {
    LeadingIsHighest(n, j);
  }

  lemma {:induction false} PacketsAre(version: nat, pagenum: nat, buf: seq<byte>, wanted: set<nat>, count: nat, k: nat)
    requires |buf| == S_PAGE && count <= N_PKT && k < N_PKT
    ensures (exists m | m in PacketsOf(version, pagenum, buf, wanted, count) :: m.Packet? && m.packetnum == k) <==>
      k < count && k in wanted
    decreases count
  {
    if count > 0 {
      var before := PacketsOf(version, pagenum, buf, wanted, count - 1);
      var all := PacketsOf(version, pagenum, buf, wanted, count);
      PacketsAre(version, pagenum, buf, wanted, count - 1, k);
      if count - 1 in wanted {
        var last := PacketOf(version, pagenum, buf, count - 1);
        assert all == before + [last] && all[|before|] == last;
        assert forall m :: m in all <==> m in before || m == last;
      } else {
        assert all == before;
      }
    }
  }

  /**
   Two requests for one page before the timer fires: the packets that go out are those that one or the other asked
   for, with the page's own version.
   */
  lemma RequestsAddUp(n: Node, r: Message, s: Message, j: nat, stale: seq<byte>, k: nat)
    requires r.Request? && s.Request? && r.pagenum == s.pagenum < TX_LIMIT && r.pagenum < |n.pages| == PageCount(n.size)
    requires Answered(n, r, j) && Answered(n, s, j) && n.txPage != r.pagenum && |stale| == S_PAGE && k < N_PKT
    ensures var asked := HandleRequest(HandleRequest(n, r), s);
      && asked.phase == Tx && asked.txPage == r.pagenum
      && var (after, sent) := TxCallback(asked, stale);
      && (r.requestSet + s.requestSet != {} ==> after == n.(txSet := {}, txPage := -1, phase := Maintain))
      && ((exists m | m in sent :: m.Packet? && m.packetnum == k) <==> k in r.requestSet || k in s.requestSet)
      && forall m | m in sent :: m.Packet? && m.pagenum == r.pagenum && m.version == n.pages[r.pagenum].version
  {
    LeadingIsHighest(n, j);
    var once := HandleRequest(n, r);
    assert Leading(once.pages, j);
    LeadingIsHighest(once, j);
    var asked := HandleRequest(once, s);
    assert asked.txSet == r.requestSet + s.requestSet;
    var page := ReadPage(n.file, r.pagenum, stale);
    PacketsAre(n.pages[r.pagenum].version, r.pagenum, page, asked.txSet, N_PKT, k);
    forall m | m in PacketsOf(n.pages[r.pagenum].version, r.pagenum, page, asked.txSet, N_PKT)
      ensures m.Packet? && m.pagenum == r.pagenum && m.version == n.pages[r.pagenum].version
    {
      PacketsOfMembers(n.pages[r.pagenum].version, r.pagenum, page, asked.txSet, N_PKT, m);
    }
  }

  // ---------------------------------------------------------------- the checksum

  // One bit of the CRC with the polynomial x^16 + x^12 + x^5 + 1, least significant bit first
  function CrcBit(acc: bv16): bv16 {
    if acc & 1 == 1 then (acc >> 1) ^ 0x8408 else acc >> 1
  }

  // Eight of them
  function CrcBits(acc: bv16): bv16 {
    CrcBit(CrcBit(CrcBit(CrcBit(CrcBit(CrcBit(CrcBit(CrcBit(acc))))))))
  }

  // One, two, four and eight steps as shifts of the bits that drop out
  function One(x: bv16): bv16 { (x >> 1) ^ ((x & 1) << 15) ^ ((x & 1) << 10) ^ ((x & 1) << 3) }

  function Two(x: bv16): bv16 { (x >> 2) ^ ((x & 3) << 14) ^ ((x & 3) << 9) ^ ((x & 3) << 2) }

  function Four(x: bv16): bv16 { (x >> 4) ^ ((x & 15) << 12) ^ ((x & 15) << 7) ^ (x & 15) }

  lemma BitIsOne(x: bv16)
    ensures CrcBit(x) == One(x)
  {
    var low := x & 1;
    assert low == 0 || low == 1;
  }

  lemma OneTwice(x: bv16)
    ensures One(One(x)) == Two(x)
  {
  }

  lemma TwoTwice(x: bv16)
    ensures Two(Two(x)) == Four(x)
  {
  }

  // The last lines of crc16_add
  function Folded(x: bv16): bv16 {
    var a := (x >> 8) | (x << 8);
    var a := a ^ ((a & 0xff00) << 4);
    var a := a ^ ((a >> 8) >> 4);
    a ^ ((a & 0xff00) >> 5)
  }

  lemma AddFolds(b: byte, acc: bv16)
    ensures CrcAdd(b, acc) == Folded(acc ^ (b as bv16))
  {
  }

  lemma FourTwice(x: bv16)
    ensures Four(Four(x)) == Folded(x)
  {
  }

  lemma FourSteps(x: bv16)
    ensures CrcBit(CrcBit(CrcBit(CrcBit(x)))) == Four(x)
  {
    TwoSteps(x);
    TwoSteps(Two(x));
    TwoTwice(x);
  }

  lemma TwoSteps(x: bv16)
    ensures CrcBit(CrcBit(x)) == Two(x)
  {
    BitIsOne(x);
    BitIsOne(One(x));
    OneTwice(x);
  }

  /** crc16_add is eight steps of the division by that polynomial. */
  lemma CrcIsDivision(b: byte, acc: bv16)
    ensures CrcAdd(b, acc) == CrcBits(acc ^ (b as bv16))
  {
    var x := acc ^ (b as bv16);
    FourSteps(x);
    FourSteps(Four(x));
    FourTwice(x);
    AddFolds(b, acc);
  }

  // A step can be undone.
  function UndoBit(y: bv16): bv16 { if y & 0x8000 == 0 then y << 1 else ((y ^ 0x8408) << 1) | 1 }

  lemma BitUndone(x: bv16)
    ensures UndoBit(CrcBit(x)) == x
  {
    var low := x & 1;
    assert low == 0 || low == 1;
  }

  lemma BitInjective(x: bv16, y: bv16)
    requires x != y
    ensures CrcBit(x) != CrcBit(y)
  {
    BitUndone(x);
    BitUndone(y);
  }

  lemma FourInjective(x: bv16, y: bv16)
    requires x != y
    ensures Four(x) != Four(y)
  {
    FourSteps(x);
    FourSteps(y);
    BitInjective(x, y);
    BitInjective(CrcBit(x), CrcBit(y));
    BitInjective(CrcBit(CrcBit(x)), CrcBit(CrcBit(y)));
    BitInjective(CrcBit(CrcBit(CrcBit(x))), CrcBit(CrcBit(CrcBit(y))));
  }

  lemma XorInjective(b: byte, c: byte, x: bv16, y: bv16)
    ensures b != c ==> x ^ (b as bv16) != x ^ (c as bv16)
    ensures x != y ==> x ^ (b as bv16) != y ^ (b as bv16)
  {
  }

  lemma CrcInjective(b: byte, c: byte, x: bv16, y: bv16)
    requires (b != c && x == y) || (b == c && x != y)
    ensures CrcAdd(b, x) != CrcAdd(c, y)
  {
    XorInjective(b, c, x, y);
    FoldInjective(x ^ (b as bv16), y ^ (c as bv16));
    AddFolds(b, x);
    AddFolds(c, y);
  }

  lemma FoldInjective(u: bv16, v: bv16)
    requires u != v
    ensures Folded(u) != Folded(v)
  {
    FourTwice(u);
    FourTwice(v);
    FourInjective(u, v);
    FourInjective(Four(u), Four(v));
  }

  lemma {:induction false} CrcTail(data: seq<byte>, x: bv16, y: bv16)
    requires x != y
    ensures Crc16(data, x) != Crc16(data, y)
    decreases data
  {
    if data != [] {
      CrcInjective(data[0], data[0], x, y);
      CrcTail(data[1..], CrcAdd(data[0], x), CrcAdd(data[0], y));
    }
  }

  /** A packet with one wrong byte never passes the test of its checksum. */
  lemma {:induction false} WrongByteShows(data: seq<byte>, i: nat, b: byte, acc: bv16)
    requires i < |data| && b != data[i]
    ensures Crc16(data[i := b], acc) != Crc16(data, acc)
    decreases data
  {
    var wrong := data[i := b];
    if i == 0 {
      assert wrong[1..] == data[1..];
      CrcInjective(b, data[0], acc, acc);
      CrcTail(data[1..], CrcAdd(b, acc), CrcAdd(data[0], acc));
    } else {
      assert wrong[1..] == data[1..][i - 1 := b];
      WrongByteShows(data[1..], i - 1, b, CrcAdd(data[0], acc));
    }
  }
}
