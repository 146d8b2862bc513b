/**
 The threads of the code propagator as objects: a run of them is a run of the network (apps/codeprop/codeprop.c).
 */
module CodepropObjects {
  import opened Bytes
  import opened Codeprop

  // No two receivers share anything.
  ghost predicate Apart(rs: seq<Receiver>) {
    forall i, j | 0 <= i < |rs| && 0 <= j < |rs| && i != j :: rs[i] != rs[j] && rs[i].eeprom != rs[j].eeprom
  }

  ghost function Stores(rs: seq<Receiver>): set<object> {
    set i | 0 <= i < |rs| :: rs[i].eeprom
  }

  // Receiver `i` is in this state.
  ghost predicate InState(rs: seq<Receiver>, i: nat, r: Receiving)
    requires i < |rs|
    reads rs, Stores(rs)
  {
    assert rs[i].eeprom in Stores(rs);
    rs[i].State() == r
  }

  ghost predicate InStates(rs: seq<Receiver>, states: seq<Receiving>)
    reads rs, Stores(rs)
  {
    |states| == |rs| && forall i | 0 <= i < |rs| :: InState(rs, i, states[i])
  }

  // A message reaches one receiver; no other one is touched.
  method Hears(rs: seq<Receiver>, i: nat, m: Msg, ghost states: seq<Receiving>) returns (answers: set<Msg>)
    requires Apart(rs) && InStates(rs, states) && i < |rs| && Codeprop.Fits(m)
    requires states[i].addr + UDPDATASIZE <= |states[i].store|
    modifies rs[i], rs[i].eeprom
    ensures InStates(rs, states[i := Hear(states[i], m)]) && answers == Answers(states[i], m)
  {
    assert InState(rs, i, states[i]);
    answers := rs[i].Receive(m);
    forall k | 0 <= k < |rs| && k != i
      ensures InState(rs, k, states[k])
    {
      assert old(InState(rs, k, states[k]));
    }
  }

  // One event; `sent` is every message that was ever sent.
  method Happen(s: Sender, rs: seq<Receiver>, e: Event, sent: set<Msg>, ghost n: Net) returns (later: set<Msg>)
    requires Apart(rs) && |n.starts| == |n.rs| && Possible(n, e) && (e.Send? ==> s.addr < |s.image|)
    requires s.State() == n.s && InStates(rs, n.rs) && sent == n.sent
    modifies s, rs, Stores(rs)
    ensures s.State() == Next(n, e).s && InStates(rs, Next(n, e).rs) && later == Next(n, e).sent
  {
    later := sent;
    match e
    case Send =>
      var m := s.SendSlice();
      later := later + {m};
    case Rewind(at) => s.GetNack(at);
    case Stop => s.Finish();
    case Arrive(i, m) =>
      assert rs[i].eeprom in Stores(rs);
      var answers := Hears(rs, i, m, n.rs);
      later := later + answers;
    case Expire(i) =>
      assert InState(rs, i, n.rs[i]);
      var m := rs[i].Timeout();
      later := later + {m};
  }

  /** A run of the threads is the run of the network, so what a receiver stores is as in that. */
  method RunThreads(s: Sender, rs: seq<Receiver>, events: seq<Event>, ghost n: Net, ghost end: Net)
    returns (sent: set<Msg>)
    requires Apart(rs) && s.State() == n.s && InStates(rs, n.rs) && n.sent == {} && Run(n, events, end)
    modifies s, rs, Stores(rs)
    ensures s.State() == end.s && InStates(rs, end.rs) && sent == end.sent
  {
    var i := 0;
    ghost var now := n;
    sent := {};
    assert events[0..] == events;
    while i < |events|
      invariant 0 <= i <= |events| && s.State() == now.s && InStates(rs, now.rs) && sent == now.sent
      invariant Run(now, events[i..], end)
    {
      assert events[i..][1..] == events[i + 1..];
      sent := Happen(s, rs, events[i], sent, now);
      now := Next(now, events[i]);
      i := i + 1;
    }
  }

  // What a receiver of the transfer has is a prefix of the image, and the whole of it when its loop has ended.
  predicate HasPrefix(image: seq<byte>, r: Receiving) {
    && r.addr <= |r.store| && r.addr <= |image| && r.store[..r.addr] == image[..r.addr]
    && (!r.active ==> r.addr == |image|)
  }

  /** What the receivers have stored after any run, if they began with the start of the image. */
  method Propagate(s: Sender, rs: seq<Receiver>, events: seq<Event>, ghost n: Net, ghost end: Net)
    returns (sent: set<Msg>)
    requires Apart(rs) && s.State() == n.s && InStates(rs, n.rs) && Initial(n) && Run(n, events, end)
    modifies s, rs, Stores(rs)
    ensures |end.starts| == |rs|
    ensures forall i | 0 <= i < |rs| && rs[i].id == s.id && end.starts[i].0 == 0 :: HasPrefix(s.image, rs[i].State())
  {
    sent := RunThreads(s, rs, events, n, end);
    StartsKept(n, events, end);
    forall i | 0 <= i < |rs| && rs[i].id == s.id && end.starts[i].0 == 0
      ensures HasPrefix(s.image, rs[i].State())
    {
      assert InState(rs, i, end.rs[i]);
      PrefixSafety(n, events, end, i);
    }
  }

  lemma {:induction false} StartsKept(n: Net, events: seq<Event>, end: Net)
    requires |n.starts| == |n.rs| && Run(n, events, end)
    ensures |end.starts| == |end.rs|
    decreases events
  {
    if events != [] {
      StartsKept(Next(n, events[0]), events[1..], end);
    }
  }
}
