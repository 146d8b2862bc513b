/**
 The code propagator (apps/codeprop/codeprop.c): one sender broadcasts a binary image in slices of
 at most 32 bytes, receivers ask for the byte they miss, and the sender goes back to it.

 A node is the part of the original's state that its sending or its receiving thread uses, each
 method what the thread does between two points where it waits.  Timers expire at any time.
 */
module Codeprop {
  import opened Bytes

  const UDPDATASIZE := 32

  datatype Msg = Data(id: nat, addr: nat, len: nat, bytes: seq<byte>) | Nack(at: nat)

  // ---------------------------------------------------------------- the sender

  datatype Sending = Sending(image: seq<byte>, id: nat, addr: nat, active: bool)

  // The length of the slice at the current address
  function SliceSize(s: Sending): nat
    requires s.addr <= |s.image|
  {
    if |s.image| - s.addr > UDPDATASIZE then UDPDATASIZE else |s.image| - s.addr
  }

  function SliceAt(s: Sending): Msg
    requires s.addr <= |s.image|
  {
    Data(s.id, s.addr, |s.image|, s.image[s.addr..s.addr + SliceSize(s)])
  }

  // ---------------------------------------------------------------- the receivers

  datatype Receiving = Receiving(id: nat, addr: nat, len: nat, active: bool, store: seq<byte>)

  function Write(store: seq<byte>, at: nat, bytes: seq<byte>): seq<byte>
    requires at + |bytes| <= |store|
  {
    store[..at] + bytes + store[at + |bytes|..]
  }

  // A slice with this address in the header, during a transfer
  function TakeSlice(r: Receiving, addr: nat, bytes: seq<byte>): Receiving
    requires r.addr + |bytes| <= |r.store|
  {
    var now := if addr == r.addr then r.(store := Write(r.store, r.addr, bytes), addr := r.addr + |bytes|) else r;
    now.(active := now.addr < now.len)
  }

  /**
   A message for the receiving thread.  A request for address 0 is written over the header of the
   packet that caused it, so the thread then takes that packet for the first of the image.
   */
  function Hear(r: Receiving, m: Msg): Receiving
    requires m.Data? ==> |m.bytes| <= |r.store| && r.addr + |m.bytes| <= |r.store|
  {
    match m
    case Nack(_) => r
    case Data(id, addr, len, bytes) =>
      if r.active then if id == r.id then TakeSlice(r, addr, bytes) else r
      else if id <= r.id then r
      else if len == 0 then r.(id := id, addr := 0, len := 0)
      else TakeSlice(r.(id := id, addr := 0, len := len), 0, bytes)
  }

  // What the thread answers
  function Answers(r: Receiving, m: Msg): set<Msg> {
    match m
    case Nack(_) => {}
    case Data(id, addr, len, bytes) =>
      if r.active then if id == r.id && addr > r.addr then {Nack(r.addr)} else {}
      else if id > r.id && addr != 0 then {Nack(0)}
      else {}
  }

  // ---------------------------------------------------------------- the threads

  class Sender {
    const image: seq<byte>
    const id: nat
    var addr: nat
    var active: bool

    constructor (image: seq<byte>, id: nat)
      ensures State() == Sending(image, id, 0, true)
    {
      this.image, this.id, addr, active := image, id, 0, true;
    }

    function State(): Sending
      reads this
    {
      Sending(image, id, addr, active)
    }

    // send_udpdata, and the step to the next slice
    method SendSlice() returns (m: Msg)
      requires addr < |image|
      modifies this
      ensures m == SliceAt(old(State())) && State() == old(State()).(addr := old(addr) + |m.bytes|)
    {
      var len := if |image| - addr > UDPDATASIZE then UDPDATASIZE else |image| - addr;
      m := Data(id, addr, |image|, image[addr..addr + len]);
      addr := addr + len;
    }

    // A request for a byte: only one that points back is accepted.
    method GetNack(at: nat)
      modifies this
      ensures State() == old(State()).(addr := if at <= old(addr) then at else old(addr))
    {
      if at <= addr {
        addr := at;
      }
    }

    // The end of the loop over the slices
    method Finish()
      requires addr >= |image|
      modifies this
      ensures State() == old(State()).(active := false)
    {
      active := false;
    }
  }

  class Receiver {
    const eeprom: array<byte>
    var id: nat
    var addr: nat
    var len: nat
    var active: bool

    constructor (size: nat)
      ensures fresh(eeprom) && eeprom.Length == size && State() == Receiving(0, 0, 0, false, eeprom[..])
    {
      eeprom := new byte[size](_ => 0);
      id, addr, len, active := 0, 0, 0, false;
    }

    function State(): Receiving
      reads this, eeprom
    {
      Receiving(id, addr, len, active, eeprom[..])
    }

    // The loop body of recv_udpthread for a slice whose header has this address
    method ReceiveSlice(header: nat, bytes: seq<byte>) returns (nack: bool)
      requires addr + |bytes| <= eeprom.Length
      modifies this`addr, this`active, eeprom
      ensures State() == TakeSlice(old(State()), header, bytes)
      ensures nack <==> header > old(addr)
    {
      nack := false;
      if header == addr {
        forall i | 0 <= i < |bytes| {
          eeprom[addr + i] := bytes[i];
        }
        assert eeprom[..] == Write(old(eeprom[..]), addr, bytes);
        addr := addr + |bytes|;
      } else if header > addr {
        nack := true;
      }
      active := addr < len;
    }

    // recv_udpthread for one message
    method Receive(m: Msg) returns (nacks: set<Msg>)
      requires m.Data? ==> |m.bytes| <= eeprom.Length && addr + |m.bytes| <= eeprom.Length
      modifies this, eeprom
      ensures State() == Hear(old(State()), m) && nacks == Answers(old(State()), m)
    {
      nacks := {};
      if m.Nack? || (active && m.id != id) || (!active && m.id <= id) {
        return;
      }
      var header := m.addr;
      if !active {
        if header != 0 {
          nacks := {Nack(0)};
          header := 0;
        }
        addr, id, len := 0, m.id, m.len;
        if len == 0 {
          return;
        }
        var _ := ReceiveSlice(header, m.bytes);
      } else {
        ghost var missing := addr;
        var nack := ReceiveSlice(header, m.bytes);
        if nack {
          nacks := {Nack(addr)};
        }
      }
    }

    // The timer between two slices
    method Timeout() returns (m: Msg)
      requires active
      ensures m == Nack(addr)
    {
      m := Nack(addr);
    }
  }

  // ---------------------------------------------------------------- runs

  /**
   A sender, its receivers, and all messages ever sent.  `starts` is a history: the address and the
   length of the packet with which each receiver began the transfer.
   */
  datatype Net = Net(s: Sending, rs: seq<Receiving>, sent: set<Msg>, starts: seq<(nat, nat)>)

  // Every message that was sent may arrive at any node, any number of times, late or never.
  datatype Event = Send | Rewind(at: nat) | Stop | Arrive(i: nat, m: Msg) | Expire(i: nat)

  predicate Possible(n: Net, e: Event) {
    match e
    case Send => n.s.active && n.s.addr < |n.s.image|
    case Rewind(at) => n.s.active && Nack(at) in n.sent
    case Stop => n.s.active && n.s.addr >= |n.s.image|
    case Arrive(i, m) => i < |n.rs| && m in n.sent && n.rs[i].addr + UDPDATASIZE <= |n.rs[i].store| && Fits(m)
    case Expire(i) => i < |n.rs| && n.rs[i].active
  }

  predicate Fits(m: Msg) { m.Data? ==> |m.bytes| <= UDPDATASIZE }

  // The packet with which a receiver begins, if it begins with this message
  function Begins(r: Receiving, m: Msg, start: (nat, nat)): (nat, nat) {
    if m.Data? && !r.active && m.id > r.id then (m.addr, |m.bytes|) else start
  }

  function Next(n: Net, e: Event): Net
    requires Possible(n, e) && |n.starts| == |n.rs|
  {
    match e
    case Send => n.(s := n.s.(addr := n.s.addr + SliceSize(n.s)), sent := n.sent + {SliceAt(n.s)})
    case Rewind(at) => n.(s := n.s.(addr := if at <= n.s.addr then at else n.s.addr))
    case Stop => n.(s := n.s.(active := false))
    case Arrive(i, m) =>
      n.(rs := n.rs[i := Hear(n.rs[i], m)], sent := n.sent + Answers(n.rs[i], m),
         starts := n.starts[i := Begins(n.rs[i], m, n.starts[i])])
    case Expire(i) => n.(sent := n.sent + {Nack(n.rs[i].addr)})
  }

  ghost predicate Run(n: Net, events: seq<Event>, end: Net)
    decreases events
  {
    if events == [] then n == end
    else |n.starts| == |n.rs| && Possible(n, events[0]) && Run(Next(n, events[0]), events[1..], end)
  }

  // ---------------------------------------------------------------- what is stored

  // What a transfer makes that began with `n` bytes from address `a`: these, and then the image
  function Made(image: seq<byte>, a: nat, n: nat): seq<byte>
    requires a + n <= |image|
  {
    image[a..a + n] + image[n..]
  }

  predicate SentAt(s: Sending, m: Msg) {
    match m
    case Nack(at) => true
    case Data(id, addr, len, bytes) =>
      && id == s.id && len == |s.image| && 0 < |bytes| <= UDPDATASIZE
      && addr + |bytes| <= |s.image| && bytes == s.image[addr..addr + |bytes|]
  }

  // A receiver that takes part in the transfer
  predicate ReceiverAt(s: Sending, r: Receiving, start: (nat, nat)) {
    && r.id <= s.id && (r.id < s.id ==> !r.active)
    && (r.id == s.id ==>
         && 0 < start.1 <= UDPDATASIZE && start.0 + start.1 <= |s.image| && r.len == |s.image|
         && start.1 <= r.addr <= |s.image| && (r.active <==> r.addr < r.len)
         && r.addr <= |r.store| && r.store[..r.addr] == Made(s.image, start.0, start.1)[..r.addr])
  }

  predicate ReceiverOk(n: Net, i: nat) {
    i < |n.rs| == |n.starts| ==> ReceiverAt(n.s, n.rs[i], n.starts[i])
  }

  ghost predicate Sound(n: Net) {
    && n.s.addr <= |n.s.image| && |n.starts| == |n.rs|
    && (forall m | m in n.sent :: SentAt(n.s, m))
    && (forall i: nat :: ReceiverOk(n, i))
  }

  lemma MadeTail(image: seq<byte>, a: nat, n: nat, from: nat, to: nat)
    requires a + n <= |image| && n <= from <= to <= |image|
    ensures Made(image, a, n)[from..to] == image[from..to]
  {
    assert forall k | n <= k < |image| :: Made(image, a, n)[k] == image[n..][k - n] == image[k];
  }

  lemma TakeSliceSound(s: Sending, r: Receiving, start: (nat, nat), addr: nat, bytes: seq<byte>)
    requires ReceiverAt(s, r, start) && r.id == s.id && r.addr + |bytes| <= |r.store|
    requires 0 < |bytes| <= UDPDATASIZE && addr + |bytes| <= |s.image| && bytes == s.image[addr..addr + |bytes|]
    ensures ReceiverAt(s, TakeSlice(r, addr, bytes), start)
  {
    if addr == r.addr {
      var made := Made(s.image, start.0, start.1);
      var store := Write(r.store, r.addr, bytes);
      MadeTail(s.image, start.0, start.1, r.addr, r.addr + |bytes|);
      assert store[..r.addr + |bytes|] == r.store[..r.addr] + bytes == made[..r.addr + |bytes|];
    }
  }

  lemma HearSound(s: Sending, r: Receiving, start: (nat, nat), m: Msg)
    requires ReceiverAt(s, r, start) && SentAt(s, m) && r.addr + UDPDATASIZE <= |r.store|
    ensures ReceiverAt(s, Hear(r, m), Begins(r, m, start))
  {
    if m.Data? && (if r.active then m.id == r.id else m.id > r.id) {
      if r.active {
        TakeSliceSound(s, r, start, m.addr, m.bytes);
      } else {
        var store := Write(r.store, 0, m.bytes);
        assert store[..|m.bytes|] == m.bytes == Made(s.image, m.addr, |m.bytes|)[..|m.bytes|];
      }
    }
  }

  lemma StepSound(n: Net, e: Event)
    requires Sound(n) && Possible(n, e)
    ensures Sound(Next(n, e))
  {
    var next := Next(n, e);
    forall i: nat
      ensures ReceiverOk(next, i)
    {
      assert ReceiverOk(n, i);
      if e.Arrive? && e.i == i {
        HearSound(n.s, n.rs[i], n.starts[i], e.m);
      }
    }
  }

  ghost predicate Initial(n: Net) {
    && n.s.addr == 0 && n.sent == {} && |n.starts| == |n.rs|
    && forall r | r in n.rs :: r.id < n.s.id && !r.active
  }

  lemma {:induction false} RunSound(n: Net, events: seq<Event>, end: Net)
    requires Sound(n) && Run(n, events, end)
    ensures Sound(end) && end.s.image == n.s.image && |end.rs| == |n.rs|
    decreases events
  {
    if events != [] {
      StepSound(n, events[0]);
      RunSound(Next(n, events[0]), events[1..], end);
    }
  }

  lemma PrefixIff(image: seq<byte>, a: nat, n: nat, k: nat)
    requires a + n <= |image| && n <= k <= |image|
    ensures Made(image, a, n)[..k] == image[..k] <==> image[a..a + n] == image[..n]
  {
    var made := Made(image, a, n);
    assert made[..n] == image[a..a + n] && forall i | n <= i < k :: made[i] == image[i];
    if made[..k] == image[..k] {
      assert made[..n] == made[..k][..n] == image[..k][..n] == image[..n];
    }
    if image[a..a + n] == image[..n] {
      assert forall i | 0 <= i < k :: made[..k][i] == image[..k][i];
    }
  }

  /**
   Whatever is lost, repeated or reordered: the sender stays within the image and its slices are
   pieces of it, and what a receiver of the transfer has stored is a prefix of the image, the whole of
   it when its loop has ended, if and only if the packet it began with has the bytes at the start of
   the image.  A packet with address 0 has.
   */
  lemma PrefixSafety(n: Net, events: seq<Event>, end: Net, i: nat)
    requires Initial(n) && Run(n, events, end) && i < |end.rs|
    ensures end.s.addr <= |end.s.image| && forall m | m in end.sent :: SentAt(end.s, m)
    ensures var r, image := end.rs[i], end.s.image;
      i < |end.starts| && (r.id == end.s.id ==>
        var (a, k) := end.starts[i];
        && k <= r.addr <= |image| && r.addr <= |r.store| && a + k <= |image|
        && (!r.active <==> r.addr == |image|)
        && (r.store[..r.addr] == image[..r.addr] <==> image[a..a + k] == image[..k])
        && (a == 0 ==> r.store[..r.addr] == image[..r.addr]))
  {
    forall j: nat
      ensures ReceiverOk(n, j)
    {
      if j < |n.rs| {
        assert n.rs[j] in n.rs;
      }
    }
    RunSound(n, events, end);
    assert ReceiverOk(end, i);
    var r := end.rs[i];
    if r.id == end.s.id {
      PrefixIff(end.s.image, end.starts[i].0, end.starts[i].1, r.addr);
    }
  }

  lemma FourSteps(n: Net, n1: Net, n2: Net, n3: Net, end: Net, es: seq<Event>)
    requires |es| == 4 && |n.starts| == |n.rs| && Possible(n, es[0]) && n1 == Next(n, es[0])
    requires |n1.starts| == |n1.rs| && Possible(n1, es[1]) && n2 == Next(n1, es[1])
    requires |n2.starts| == |n2.rs| && Possible(n2, es[2]) && n3 == Next(n2, es[2])
    requires |n3.starts| == |n3.rs| && Possible(n3, es[3]) && end == Next(n3, es[3])
    ensures Run(n, es, end)
  {
    assert Run(end, es[4..], end);
    assert es[3..][1..] == es[4..] && es[2..][1..] == es[3..] && es[1..][1..] == es[2..];
    assert Run(n3, es[3..], end);
    assert Run(n2, es[2..], end);
    assert Run(n1, es[1..], end);
  }

  /**
   A receiver that hears only the second slice of an image of two, twice, has after that ended its loop
   with the second slice in both places.
   */
  lemma LateStart(image: seq<byte>, store: seq<byte>) returns (n: Net, events: seq<Event>, end: Net)
    requires |image| == 64 && |store| == 128 && image[..32] != image[32..]
    ensures Initial(n) && n.s.image == image && n.rs == [Receiving(0, 0, 0, false, store)]
    ensures Run(n, events, end)
    ensures |end.rs| == 1 && end.rs[0].id == end.s.id && !end.rs[0].active && |end.rs[0].store| == 128
    ensures end.rs[0].store[..64] == image[32..] + image[32..] != image
  {
    n := Net(Sending(image, 1, 0, true), [Receiving(0, 0, 0, false, store)], {}, [(0, 0)]);
    var late := Data(1, 32, 64, image[32..]);
    events := [Send, Send, Arrive(0, late), Arrive(0, late)];
    LateHears(image, store);
    var n1 := Next(n, Send);
    var n2 := Next(n1, Send);
    assert image[32..64] == image[32..];
    var n3 := Next(n2, Arrive(0, late));
    assert n3.rs[0] == Hear(n.rs[0], late);
    end := Next(n3, Arrive(0, late));
    FourSteps(n, n1, n2, n3, end, events);
  }

  lemma LateHears(image: seq<byte>, store: seq<byte>)
    requires |image| == 64 && |store| == 128 && image[..32] != image[32..]
    ensures var late := Data(1, 32, 64, image[32..]); var r := Hear(Receiving(0, 0, 0, false, store), late);
      && r.id == 1 && r.active && r.addr == 32 && |r.store| == 128
      && Hear(r, late) == Receiving(1, 64, 64, false, Hear(r, late).store)
      && |Hear(r, late).store| == 128 && Hear(r, late).store[..64] == image[32..] + image[32..] != image
  {
    var late := Data(1, 32, 64, image[32..]);
    var r := Hear(Receiving(0, 0, 0, false, store), late);
    assert r.store[..32] == image[32..];
    assert Hear(r, late).store[..64] == r.store[..32] + image[32..];
    assert (image[32..] + image[32..])[..32] == image[32..];
  }

  /** An image without bytes is there at once, and hearing of it again changes nothing. */
  lemma EmptyImage(r: Receiving, m: Msg)
    requires m.Data? && m.len == 0 && m.id > r.id && !r.active
    requires |m.bytes| <= |r.store| && r.addr + |m.bytes| <= |r.store|
    ensures var after := Hear(r, m);
      after.id == m.id && !after.active && after.store == r.store && after.addr == after.len == 0
      && Hear(after, m) == after && Answers(after, m) == {}
  {
  }

  /**
   A receiver that hears a later slice than the one it misses, from a sender that is past that one: its
   answer takes the sender back, and the next slice that is sent is the one it misses.
   */
  lemma NackRecovers(n: Net, i: nat, m: Msg) returns (events: seq<Event>, end: Net)
    requires Sound(n) && i < |n.rs| && n.s.active && m in n.sent
    requires m.Data? && n.rs[i].id == n.s.id == m.id && n.rs[i].active && n.s.addr >= n.rs[i].addr
    requires m.addr > n.rs[i].addr && n.rs[i].addr + UDPDATASIZE <= |n.rs[i].store|
    ensures |events| == 4 && Run(n, events, end) && |end.rs| == |n.rs|
    ensures var r, image := n.rs[i], n.s.image;
      && end.rs[i].id == r.id && r.addr < end.rs[i].addr <= |image| && end.rs[i].addr <= |end.rs[i].store|
      && (end.rs[i].addr == |image| || end.rs[i].addr == r.addr + UDPDATASIZE)
      && end.rs[i].store[..end.rs[i].addr] == r.store[..r.addr] + image[r.addr..end.rs[i].addr]
  {
    var r := n.rs[i];
    assert ReceiverOk(n, i);
    var n1 := Next(n, Arrive(i, m));
    assert n1.rs[i] == r && Nack(r.addr) in n1.sent;
    var n2 := Next(n1, Rewind(r.addr));
    assert n2.s.addr == r.addr < |n.s.image|;
    var n3 := Next(n2, Send);
    var missed := SliceAt(n2.s);
    assert n3.rs[i] == r && missed in n3.sent && Fits(missed);
    end := Next(n3, Arrive(i, missed));
    events := [Arrive(i, m), Rewind(r.addr), Send, Arrive(i, missed)];
    FourSteps(n, n1, n2, n3, end, events);
    assert end.rs[i] == TakeSlice(r, r.addr, missed.bytes);
  }

  /**
   A receiver that begins with a later slice takes the sender back to the start of the image, but
   does not take the slice that is sent then: it goes on to expect the second one.
   */
  lemma LateNackIsVain(n: Net, i: nat, m: Msg) returns (events: seq<Event>, end: Net)
    requires Sound(n) && i < |n.rs| && n.s.active && m in n.sent && m.Data? && m.addr > 0
    requires n.rs[i].id < n.s.id && n.rs[i].addr + UDPDATASIZE <= |n.rs[i].store| && 2 * UDPDATASIZE <= |n.rs[i].store|
    ensures |events| == 4 && Run(n, events, end) && |end.rs| == |n.rs|
    ensures end.s.addr > 0 && SliceAt(n.s.(addr := 0)) in end.sent
    ensures end.rs[i].addr == |m.bytes| && end.rs[i].active && |end.rs[i].store| == |n.rs[i].store|
    ensures end.rs[i].store[..|m.bytes|] == m.bytes
  {
    var r := n.rs[i];
    assert ReceiverOk(n, i) && SentAt(n.s, m);
    var n1 := Next(n, Arrive(i, m));
    var begun := n1.rs[i];
    assert Nack(0) in n1.sent && begun.addr == |m.bytes| && begun.store[..|m.bytes|] == m.bytes;
    var n2 := Next(n1, Rewind(0));
    var n3 := Next(n2, Send);
    var first := SliceAt(n2.s);
    assert n3.rs[i] == begun && first in n3.sent && Fits(first);
    end := Next(n3, Arrive(i, first));
    events := [Arrive(i, m), Rewind(0), Send, Arrive(i, first)];
    FourSteps(n, n1, n2, n3, end, events);
  }
}
