/**
 CoAP transactions (apps/er-coap-07/er-coap-07-transactions.c): messages that are sent again, each
 time after twice the time, until an answer comes or the retransmissions are used up.

 A transaction lives in a slot of a fixed pool and is on a list while it is allocated.  What has
 become of each transaction is kept as its history.
 */
module Transactions {
  import opened Options

  // COAP_MAX_OPEN_TRANSACTIONS and COAP_MAX_RETRANSMIT
  const MAX_OPEN := 4
  const MAX_RETRANSMIT := 4

  /** A transaction; `expired` is the state of its timer. */
  datatype Entry = Entry(mid: nat, confirmable: bool, counter: nat, interval: nat, expired: bool)

  datatype Exit = Answered | TimedOut | Unconfirmed

  /** How often a message was sent, how long was waited each time, and how the transaction ended. */
  datatype History = History(sends: nat, waits: seq<nat>, exits: seq<Exit>)

  predicate Doubling(waits: seq<nat>) { forall i | 0 < i < |waits| :: waits[i] == 2 * waits[i - 1] }

  // Everything that has been sent has been waited for.
  predicate Level(e: Entry, h: History) {
    && h.exits == [] && h.sends == |h.waits| && Doubling(h.waits)
    && (h.waits != [] ==> e.confirmable && e.interval == h.waits[|h.waits| - 1])
  }

  // Sent, and the timer is set
  predicate Waiting(e: Entry, h: History) { Level(e, h) && h.sends == e.counter + 1 <= MAX_RETRANSMIT }

  // Its message is to be sent now.
  predicate Due(e: Entry, h: History) { Level(e, h) && h.sends == e.counter <= MAX_RETRANSMIT }

  /** What can have become of a transaction that is over. */
  predicate Over(h: History) {
    && |h.exits| == 1 && Doubling(h.waits)
    && match h.exits[0]
       case Answered => h.sends == |h.waits| <= MAX_RETRANSMIT
       case TimedOut => h.sends == MAX_RETRANSMIT + 1 && |h.waits| == MAX_RETRANSMIT
       case Unconfirmed => h.sends == 1 && h.waits == []
  }

  // ---------------------------------------------------------------- waiting times

  function Pow2(n: nat): (p: nat)
    ensures p >= 1
  {
    if n == 0 then 1 else 2 * Pow2(n - 1)
  }

  function Sum(waits: seq<nat>): nat {
    if waits == [] then 0 else Sum(waits[..|waits| - 1]) + waits[|waits| - 1]
  }

  /** The n-th time is 2^n times the first one, and all times together are 2^n - 1 times the first one. */
  lemma {:induction false} TotalWait(waits: seq<nat>)
    requires waits != [] && Doubling(waits)
    ensures waits[|waits| - 1] == Pow2(|waits| - 1) * waits[0]
    ensures Sum(waits) == (Pow2(|waits|) - 1) * waits[0]
    decreases waits
  {
    var n := |waits| - 1;
    var rest := waits[..n];
    if n == 0 {
      assert Sum(rest) == 0;
      assert Pow2(1) == 2;
    } else {
      TotalWait(rest);
      assert waits[n] == 2 * waits[n - 1] == 2 * (Pow2(n - 1) * waits[0]);
      assert waits[n] == Pow2(n) * waits[0];
      assert Pow2(n + 1) - 1 == (Pow2(n) - 1) + Pow2(n);
    }
  }

  /** A transaction is over after at most 15 times its first interval, and never longer while it waits. */
  lemma WaitBound(h: History)
    requires Over(h) && h.waits != []
    ensures Sum(h.waits) <= 15 * h.waits[0]
    ensures h.exits[0] == TimedOut ==> Sum(h.waits) == 15 * h.waits[0]
  {
    TotalWait(h.waits);
    assert Pow2(1) == 2 && Pow2(2) == 4 && Pow2(3) == 8 && Pow2(4) == 16;
  }

  // ---------------------------------------------------------------- the pool and the list

  predicate Distinct(list: seq<nat>) { forall i, j | 0 <= i < j < |list| :: list[i] != list[j] }

  // list_remove
  function Without(list: seq<nat>, s: nat): seq<nat> {
    if list == [] then [] else if list[0] == s then list[1..] else [list[0]] + Without(list[1..], s)
  }

  lemma InTail(list: seq<nat>, t: nat)
    requires list != []
    ensures t in list <==> t == list[0] || t in list[1..]
  {
    assert list == [list[0]] + list[1..];
  }

  lemma DistinctTail(list: seq<nat>)
    requires list != [] && Distinct(list)
    ensures Distinct(list[1..]) && list[0] !in list[1..]
  {
    var rest := list[1..];
    forall j | 0 <= j < |rest|
      ensures rest[j] == list[j + 1] && rest[j] != list[0]
    {
    }
  }

  lemma DistinctCons(x: nat, rest: seq<nat>)
    requires Distinct(rest) && x !in rest
    ensures Distinct([x] + rest)
  {
    var list := [x] + rest;
    forall i, j | 0 <= i < j < |list|
      ensures list[i] != list[j]
    {
      assert list[j] == rest[j - 1];
      assert i > 0 ==> list[i] == rest[i - 1];
    }
  }

  lemma {:induction false} InWithout(list: seq<nat>, s: nat, t: nat)
    requires Distinct(list)
    ensures t in Without(list, s) <==> t in list && t != s
    decreases list
  {
    if list != [] {
      InTail(list, t);
      DistinctTail(list);
      if list[0] != s {
        InWithout(list[1..], s, t);
        InTail(Without(list, s), t);
      }
    }
  }

  lemma {:induction false} WithoutLeaves(list: seq<nat>, s: nat)
    requires Distinct(list)
    ensures Distinct(Without(list, s)) && |Without(list, s)| == |list| - if s in list then 1 else 0
    decreases list
  {
    if list != [] {
      InTail(list, s);
      DistinctTail(list);
      if list[0] != s {
        WithoutLeaves(list[1..], s);
        InWithout(list[1..], s, list[0]);
        DistinctCons(list[0], Without(list[1..], s));
      }
    }
  }

  lemma WithoutDistinct(list: seq<nat>, s: nat)
    requires Distinct(list)
    ensures Distinct(Without(list, s)) && |Without(list, s)| == |list| - if s in list then 1 else 0
    ensures forall t :: t in Without(list, s) <==> t in list && t != s
  {
    WithoutLeaves(list, s);
    forall t: nat
      ensures t in Without(list, s) <==> t in list && t != s
    {
      InWithout(list, s, t);
    }
  }

  // At most as many distinct slots as there are
  lemma {:induction false} DistinctBelow(list: seq<nat>, n: nat)
    requires Distinct(list) && forall s | s in list :: s < n
    ensures |list| <= n
    decreases n
  {
    if list != [] {
      assert list[0] in list;
      if n - 1 in list {
        WithoutDistinct(list, n - 1);
        DistinctBelow(Without(list, n - 1), n - 1);
      } else {
        DistinctBelow(list, n - 1);
      }
    }
  }

  // Everything at one moment: `serial` numbers the transactions in the slots, `home` is where each one is or was.
  datatype State = State(used: seq<bool>, memory: seq<Entry>, list: seq<nat>,
                         serial: seq<nat>, history: seq<History>, home: seq<nat>)
  {
    // The list has exactly the allocated slots, each once.
    ghost predicate Pool() {
      && |used| == |memory| == |serial| == MAX_OPEN && Distinct(list)
      && (forall s | s in list :: s < MAX_OPEN) && (forall s | 0 <= s < MAX_OPEN :: used[s] <==> s in list)
    }

    // A listed transaction is open and has its history.
    ghost predicate Listed(s: nat)
      requires |memory| == |serial| == MAX_OPEN && |home| == |history|
    {
      && s < MAX_OPEN && serial[s] < |history| && home[serial[s]] == s
      && (Waiting(memory[s], history[serial[s]]) || Due(memory[s], history[serial[s]]))
    }

    // A transaction is listed, or it has ended once.
    ghost predicate Told(k: nat)
      requires |serial| == MAX_OPEN && k < |history| == |home|
    {
      if history[k].exits == [] then home[k] in list && home[k] < MAX_OPEN && serial[home[k]] == k else Over(history[k])
    }

    ghost predicate Sound() {
      && Pool() && |home| == |history|
      && (forall s | s in list :: Listed(s))
      && (forall k | 0 <= k < |history| :: Told(k))
    }

    // The history of the transaction in a slot
    function Of(s: nat): History {
      if s < |serial| && serial[s] < |history| then history[serial[s]] else History(0, [], [])
    }

    predicate WaitingAt(s: nat) { s < |memory| && Waiting(memory[s], Of(s)) }

    predicate DueAt(s: nat) { s < |memory| && Due(memory[s], Of(s)) }

    predicate Settled() { forall s | s in list :: WaitingAt(s) }

    function Allocated(s: nat, e: Entry): State {
      State(Set(used, s, true), Set(memory, s, e), list + [s],
            Set(serial, s, |history|), history + [History(0, [], [])], home + [s])
    }

    function Changed(s: nat, e: Entry, h: History): State {
      State(used, Set(memory, s, e), list, serial, Recorded(s, h), home)
    }

    function Freed(s: nat, h: History): State {
      State(Set(used, s, false), memory, Without(list, s), serial, Recorded(s, h), home)
    }

    function Recorded(s: nat, h: History): seq<History> {
      if s < |serial| then Set(history, serial[s], h) else history
    }
  }

  function Set<T>(xs: seq<T>, i: nat, x: T): seq<T> { if i < |xs| then xs[i := x] else xs }

  lemma AllocatedSound(st: State, s: nat, e: Entry)
    requires st.Sound() && s < MAX_OPEN && s !in st.list && e.counter == 0
    ensures st.Allocated(s, e).Sound()
  {
    var next := st.Allocated(s, e);
    forall t | t in next.list
      ensures t < MAX_OPEN && next.Listed(t)
    {
      if t != s {
        assert st.Listed(t);
      }
    }
    forall k | 0 <= k < |next.history|
      ensures next.Told(k)
    {
      if k < |st.history| {
        assert st.Told(k);
      }
    }
  }

  lemma ChangedSound(st: State, s: nat, e: Entry, h: History)
    requires st.Sound() && s in st.list && (Waiting(e, h) || Due(e, h))
    ensures st.Listed(s) && st.Changed(s, e, h).Sound()
  {
    assert st.Listed(s);
    var next := st.Changed(s, e, h);
    forall t | t in next.list
      ensures next.Listed(t)
    {
      assert st.Listed(t);
    }
    forall k | 0 <= k < |next.history|
      ensures next.Told(k)
    {
      assert st.Told(k);
    }
  }

  lemma FreedSound(st: State, s: nat, h: History)
    requires st.Sound() && s in st.list && Over(h)
    ensures st.Listed(s) && st.Freed(s, h).Sound()
  {
    assert st.Listed(s);
    WithoutDistinct(st.list, s);
    var next := st.Freed(s, h);
    forall t | t in next.list
      ensures next.Listed(t)
    {
      assert st.Listed(t);
    }
    forall k | 0 <= k < |next.history|
      ensures next.Told(k)
    {
      assert st.Told(k);
    }
  }

  // ---------------------------------------------------------------- timers that have gone off

  function Again(e: Entry): Entry { e.(counter := e.counter + 1, interval := 2 * e.interval, expired := false) }

  /**
   What a check makes of the listed transactions, in order: those whose timer has gone off are sent
   again, but the first that times out leaves the list, and the check stops there because list_remove
   has cut its link to the next one.
   */
  function Checked(es: seq<Entry>): seq<Entry> {
    if es == [] then []
    else if !es[0].expired then [es[0]] + Checked(es[1..])
    else if es[0].counter + 1 < MAX_RETRANSMIT then [Again(es[0])] + Checked(es[1..])
    else es[1..]
  }

  /** One by one: nothing happens to a transaction whose timer runs, and one whose timer has gone off is sent again. */
  lemma {:induction false} CheckedAt(es: seq<Entry>, i: nat)
    requires i < |es| && forall e | e in es :: e.expired ==> e.counter + 1 < MAX_RETRANSMIT
    ensures |Checked(es)| == |es|
    ensures var e, now := es[i], Checked(es)[i];
      if !e.expired then now == e
      else now == Entry(e.mid, e.confirmable, e.counter + 1, 2 * e.interval, false)
  {
    assert es[0] in es && forall e | e in es[1..] :: e in es;
    if |es| > 1 {
      CheckedAt(es[1..], if i > 0 then i - 1 else 0);
    } else {
      assert es[1..] == [];
    }
  }

  /** The first one that times out leaves, and the ones behind it wait for the next check. */
  lemma {:induction false} CheckedTo(es: seq<Entry>, i: nat)
    requires i < |es| && es[i].expired && es[i].counter + 1 >= MAX_RETRANSMIT
    requires forall e | e in es[..i] :: e.expired ==> e.counter + 1 < MAX_RETRANSMIT
    ensures Checked(es) == Checked(es[..i]) + es[i + 1..]
    decreases i
  {
    if i > 0 {
      assert es[..i][0] == es[0] && es[..i][1..] == es[1..][..i - 1];
      assert es[0] in es[..i] && forall e | e in es[1..][..i - 1] :: e in es[..i];
      CheckedTo(es[1..], i - 1);
      assert es[1..][i..] == es[i + 1..];
    }
  }

  // What may have become of the histories: more waiting times, and some have timed out.
  predicate GoesOn(was: History, now: History) {
    was.waits <= now.waits && (now.exits == was.exits || now.exits == [TimedOut])
  }

  ghost predicate GoOn(was: seq<History>, now: seq<History>) {
    |was| == |now| && forall k | 0 <= k < |was| :: GoesOn(was[k], now[k])
  }

  ghost predicate StayOpen(was: seq<History>, now: seq<History>) {
    GoOn(was, now) && forall k | 0 <= k < |was| :: now[k].exits == was[k].exits
  }

  lemma OneGoesOn(was: seq<History>, now: seq<History>, i: nat, h: History)
    requires StayOpen(was, now) && i < |now| && GoesOn(now[i], h)
    ensures GoOn(was, Set(now, i, h)) && (h.exits == now[i].exits ==> StayOpen(was, Set(now, i, h)))
  {
    forall k | 0 <= k < |was|
      ensures GoesOn(was[k], Set(now, i, h)[k])
    {
      assert GoesOn(was[k], now[k]);
    }
  }

  function Entries(memory: seq<Entry>, list: seq<nat>): (es: seq<Entry>)
    requires forall s | s in list :: s < |memory|
    ensures |es| == |list|
  {
    seq(|list|, i requires 0 <= i < |list| => assert list[i] in list; memory[list[i]])
  }

  /** The transaction layer. */
  class Layer {
    const used: array<bool>
    const memory: array<Entry>
    var list: seq<nat>
    ghost var serial: seq<nat>
    ghost var history: seq<History>
    ghost var home: seq<nat>

    ghost function St(): State
      reads this, used, memory
    {
      State(used[..], memory[..], list, serial, history, home)
    }

    ghost predicate Valid()
      reads this, used, memory
    {
      used.Length == memory.Length == MAX_OPEN && St().Sound()
    }

    // The transactions that wait, in order
    ghost function Open(): (es: seq<Entry>)
      requires forall s | s in list :: s < memory.Length
      reads this, memory
      ensures |es| == |list|
    {
      Entries(memory[..], list)
    }

    constructor ()
      ensures Valid() && St().Settled() && list == [] && history == [] && fresh(used) && fresh(memory)
    {
      used := new bool[MAX_OPEN](_ => false);
      memory := new Entry[MAX_OPEN](_ => Entry(0, false, 0, 0, false));
      list, serial, history, home := [], seq(MAX_OPEN, _ => 0), [], [];
    }

    // memb_alloc
    method Allocate() returns (r: Option<nat>)
      requires Valid()
      ensures r.None? <==> forall s | 0 <= s < MAX_OPEN :: used[s]
      ensures r.Some? ==> r.value < MAX_OPEN && !used[r.value]
    {
      var i := 0;
      while i < MAX_OPEN
        invariant 0 <= i <= MAX_OPEN && forall s | 0 <= s < i :: used[s]
      {
        if !used[i] {
          return Some(i);
        }
        i := i + 1;
      }
      return None;
    }

    // coap_new_transaction, and the type of the message that the caller writes
    method New(mid: nat, confirmable: bool) returns (r: Option<nat>)
      requires Valid()
      modifies this, used, memory
      ensures Valid() && (r.None? <==> old(|list|) == MAX_OPEN)
      ensures r.None? ==> St() == old(St())
      ensures r.Some? ==> r.value < MAX_OPEN && r.value !in old(list)
      ensures r.Some? ==>
        var was := old(memory[r.value]);
        St() == old(St()).Allocated(r.value, Entry(mid, confirmable, 0, was.interval, was.expired))
    {
      r := Allocate();
      PoolFull(St());
      if r.Some? {
        var s := r.value;
        var e := Entry(mid, confirmable, 0, memory[s].interval, memory[s].expired);
        AllocatedSound(St(), s, e);
        used[s], memory[s] := true, e;
        serial, history, home := serial[s := |history|], history + [History(0, [], [])], home + [s];
        list := list + [s];
      }
    }

    // coap_clear_transaction
    method Clear(s: nat, ghost over: History)
      requires Valid() && s in list && Over(over)
      modifies this, used
      ensures Valid() && St() == old(St()).Freed(s, over)
    {
      FreedSound(St(), s, over);
      list := Without(list, s);
      used[s] := false;
      history := history[serial[s] := over];
    }

    // The timer of a message that has been sent is set; `first` is the random interval of the first one.
    method Arm(s: nat, first: nat)
      requires Valid() && s in list && St().DueAt(s)
      requires memory[s].confirmable && memory[s].counter < MAX_RETRANSMIT
      modifies this`history, memory
      ensures Valid()
      ensures St() == old(St()).Changed(s, Armed(old(memory[s]), first), Waits(old(memory[s]), old(St()).Of(s), first))
      ensures St().WaitingAt(s)
    {
      ghost var next, h := Armed(memory[s], first), Waits(memory[s], St().Of(s), first);
      ghost var goal := St().Changed(s, next, h);
      ChangedSound(St(), s, next, h);
      if memory[s].counter == 0 {
        memory[s] := memory[s].(interval := first);
      } else {
        memory[s] := memory[s].(interval := memory[s].interval * 2);
      }
      memory[s] := memory[s].(expired := false);
      history := history[serial[s] := h];
      assert memory[..] == goal.memory;
    }

    // coap_send_transaction
    method Send(s: nat, first: nat) returns (left: bool)
      requires Valid() && s in list && St().DueAt(s)
      modifies this, used, memory
      ensures Valid()
      ensures left <==> !old(memory[s]).confirmable || old(memory[s]).counter == MAX_RETRANSMIT
      ensures left ==> St() == old(St()).Freed(s, Ended(old(memory[s]), old(St()).Of(s)))
      ensures !left ==> St().WaitingAt(s)
      ensures !left ==>
        St() == old(St()).Changed(s, Armed(old(memory[s]), first), Waits(old(memory[s]), old(St()).Of(s), first))
    {
      left := !memory[s].confirmable || memory[s].counter >= MAX_RETRANSMIT;
      if left {
        Clear(s, Ended(memory[s], St().Of(s)));
      } else {
        Arm(s, first);
      }
    }

    // coap_get_transaction_by_mid
    method ByMid(mid: nat) returns (r: Option<nat>)
      requires Valid()
      ensures r.Some? ==> r.value in list && r.value < MAX_OPEN && memory[r.value].mid == mid
      ensures r.None? ==> forall s | s in list :: s < MAX_OPEN && memory[s].mid != mid
    {
      var i := 0;
      while i < |list|
        invariant 0 <= i <= |list| && forall j | 0 <= j < i :: list[j] < MAX_OPEN && memory[list[j]].mid != mid
      {
        assert list[i] in list;
        if memory[list[i]].mid == mid {
          return Some(list[i]);
        }
        i := i + 1;
      }
      return None;
    }

    // A request is allocated and sent in one go; without a free slot it is refused.
    method Request(mid: nat, confirmable: bool, first: nat) returns (accepted: bool)
      requires Valid() && St().Settled()
      modifies this, used, memory
      ensures Valid() && St().Settled() && (accepted <==> old(|list|) < MAX_OPEN)
      ensures !accepted ==> St() == old(St())
      ensures accepted ==>
        history == old(history) + [if confirmable then History(1, [first], []) else History(1, [], [Unconfirmed])]
      ensures accepted && confirmable ==> exists s: nat ::
        s < MAX_OPEN && list == old(list) + [s] && memory[s] == Entry(mid, true, 0, first, false)
    {
      ghost var before := St();
      var r := New(mid, confirmable);
      PoolFull(before);
      accepted := r.Some?;
      if accepted {
        AllocatedOthers(before, r.value, memory[r.value]);
        ghost var st, e := St(), memory[r.value];
        assert forall h :: st.Recorded(r.value, h) == before.history + [h];
        assert [] + [first] == [first];
        var left := Send(r.value, first);
        if left {
          FreedSettled(st, r.value, Ended(e, st.Of(r.value)));
        } else {
          ChangedSettled(st, r.value, Armed(e, first), Waits(e, st.Of(r.value), first));
        }
      }
    }

    // A response: its transaction, if there is one, is over.
    method Response(mid: nat)
      requires Valid() && St().Settled()
      modifies this, used
      ensures Valid() && St().Settled()
      ensures St() == old(St()) || exists s | s in old(list) ::
        && s < MAX_OPEN && memory[s].mid == mid
        && St() == old(St()).Freed(s, old(St()).Of(s).(exits := [Answered]))
      ensures St() == old(St()) ==> forall s | s in list :: s < MAX_OPEN && memory[s].mid != mid
    {
      var r := ByMid(mid);
      if r.Some? {
        ghost var st, h := St(), St().Of(r.value);
        assert st.WaitingAt(r.value);
        FreedSettled(st, r.value, h.(exits := [Answered]));
        Clear(r.value, h.(exits := [Answered]));
        WithoutDistinct(st.list, r.value);
      }
    }

    // The timer of a transaction goes off.
    method Expire(s: nat)
      requires Valid() && St().Settled() && s in list
      modifies memory
      ensures Valid() && St().Settled()
      ensures St() == old(St()).Changed(s, old(memory[s]).(expired := true), old(St()).Of(s))
    {
      ghost var e, h := memory[s].(expired := true), St().Of(s);
      ghost var goal := St().Changed(s, e, h);
      assert St().WaitingAt(s);
      ChangedSound(St(), s, e, h);
      ChangedSettled(St(), s, e, h);
      memory[s] := memory[s].(expired := true);
      assert St() == goal;
    }

    // One transaction whose timer has gone off
    method Resend(s: nat) returns (left: bool)
      requires Valid() && St().Settled() && s in list
      modifies this, used, memory
      ensures Valid() && St().Settled()
      ensures left <==> old(memory[s]).counter + 1 == MAX_RETRANSMIT
      ensures !left ==>
        St() == old(St()).Changed(s, Again(old(memory[s])), Waits(Counted(old(memory[s])), old(St()).Of(s), 0))
      ensures left ==>
        var e, h := Counted(old(memory[s])), old(St()).Of(s);
        St() == old(St()).Changed(s, e, h).Freed(s, Ended(e, h))
      ensures old(serial[s]) < old(|history|) == |history|
      ensures history == Set(old(history), old(serial[s]), Later(Counted(old(memory[s])), old(St()).Of(s), left))
      ensures GoesOn(old(history[serial[s]]), Later(Counted(old(memory[s])), old(St()).Of(s), left))
      ensures !left ==> Later(Counted(old(memory[s])), old(St()).Of(s), left).exits == old(history[serial[s]]).exits
    {
      ghost var st, e, h := St(), Counted(memory[s]), St().Of(s);
      assert st.WaitingAt(s);
      ChangedSound(st, s, e, h);
      memory[s] := memory[s].(counter := memory[s].counter + 1);
      ghost var bumped := st.Changed(s, e, h);
      assert St() == bumped && bumped.Of(s) == h;
      OthersWaiting(st, s, e, h);
      left := Send(s, 0);
      if left {
        FreedSettled(bumped, s, Ended(e, h));
      } else {
        ChangedSettled(bumped, s, Armed(e, 0), Waits(e, h, 0));
        assert St() == st.Changed(s, Again(st.memory[s]), Waits(e, h, 0));
      }
    }

    // coap_check_transactions
    method Check()
      requires Valid() && St().Settled()
      modifies this, used, memory
      ensures Valid() && St().Settled()
      ensures Open() == Checked(old(Open()))
      ensures GoOn(old(history), history)
    {
      ghost var all := Open();
      var i := 0;
      assert all[0..] == all;
      while i < |list|
        invariant Valid() && St().Settled() && 0 <= i <= |list| == |all| && list == old(list)
        invariant Checking(all, memory[..], list, i) && StayOpen(old(history), history)
      {
        var s := list[i];
        assert s in list;
        CheckingStep(all, memory[..], list, i);
        if memory[s].expired {
          ghost var before := memory[..];
          assert before[s] == all[i] && St().WaitingAt(s);
          ghost var was, k, h := history, serial[s], St().Of(s);
          var left := Resend(s);
          OneGoesOn(old(history), was, k, Later(Counted(before[s]), h, left));
          if left {
            CheckingEnds(all, before, memory[..], old(list), i);
            return;
          }
          CheckingResent(all, before, list, i);
        }
        i := i + 1;
      }
      assert all[i..] == [];
    }
  }

  function Counted(e: Entry): Entry { e.(counter := e.counter + 1) }

  // The first `i` entries have been checked, and the others are as they were.
  ghost predicate Checking(all: seq<Entry>, memory: seq<Entry>, list: seq<nat>, i: nat) {
    && i <= |all| == |list| && Distinct(list) && (forall s | s in list :: s < |memory|)
    && (forall j | i <= j < |all| :: Entries(memory, list)[j] == all[j])
    && Checked(all) == Entries(memory, list)[..i] + Checked(all[i..])
  }

  // An entry whose timer has not gone off stays.
  lemma CheckingStep(all: seq<Entry>, memory: seq<Entry>, list: seq<nat>, i: nat)
    requires Checking(all, memory, list, i) && i < |all|
    ensures !all[i].expired ==> Checking(all, memory, list, i + 1)
    ensures list[i] < |memory| && memory[list[i]] == all[i]
  {
    assert list[i] in list;
    assert all[i..][0] == all[i] && all[i..][1..] == all[i + 1..];
    var es := Entries(memory, list);
    assert es[..i + 1] == es[..i] + [es[i]];
  }

  lemma CheckingResent(all: seq<Entry>, memory: seq<Entry>, list: seq<nat>, i: nat)
    requires Checking(all, memory, list, i) && i < |all| && all[i].expired && all[i].counter + 1 < MAX_RETRANSMIT
    ensures Checking(all, Set(memory, list[i], Again(all[i])), list, i + 1)
  {
    assert all[i..][0] == all[i] && all[i..][1..] == all[i + 1..];
    assert list[i] in list;
    var after := Set(memory, list[i], Again(all[i]));
    var es, before := Entries(after, list), Entries(memory, list);
    forall j | 0 <= j < |list| && j != i
      ensures es[j] == before[j]
    {
      assert list[j] in list && list[j] != list[i];
    }
    assert es[..i] == before[..i];
    assert es[..i + 1] == es[..i] + [es[i]];
  }

  lemma CheckingEnds(all: seq<Entry>, memory: seq<Entry>, after: seq<Entry>, list: seq<nat>, i: nat)
    requires Checking(all, memory, list, i) && i < |all| && all[i].expired && all[i].counter + 1 >= MAX_RETRANSMIT
    requires |after| == |memory| && forall s | 0 <= s < |memory| && s != list[i] :: after[s] == memory[s]
    ensures forall s | s in Without(list, list[i]) :: s < |after|
    ensures Entries(after, Without(list, list[i])) == Checked(all)
  {
    assert all[i..][0] == all[i] && all[i..][1..] == all[i + 1..];
    WithoutAt(list, i);
    var rest := Without(list, list[i]);
    assert forall j | 0 <= j < |rest| :: rest[j] in list;
    assert Entries(after, rest) == Entries(memory, list)[..i] + all[i + 1..];
  }

  lemma {:induction false} WithoutAt(list: seq<nat>, i: nat)
    requires Distinct(list) && i < |list|
    ensures Without(list, list[i]) == list[..i] + list[i + 1..]
    decreases list
  {
    if i > 0 {
      assert list[1..][i - 1] == list[i];
      assert forall j | 0 <= j < |list[1..]| :: list[1..][j] == list[j + 1];
      WithoutAt(list[1..], i - 1);
    }
  }

  // The other transactions wait as before.
  lemma OthersWaiting(st: State, s: nat, e: Entry, h: History)
    requires st.Sound() && s in st.list && forall t | t in st.list && t != s :: st.WaitingAt(t)
    ensures forall t | t in st.list && t != s :: st.Changed(s, e, h).WaitingAt(t)
  {
    assert st.Listed(s);
    forall t | t in st.list && t != s
      ensures st.Changed(s, e, h).WaitingAt(t)
    {
      assert st.Listed(t) && st.WaitingAt(t);
    }
  }

  lemma ChangedSettled(st: State, s: nat, e: Entry, h: History)
    requires st.Sound() && s in st.list && Waiting(e, h)
    requires forall t | t in st.list && t != s :: st.WaitingAt(t)
    ensures st.Changed(s, e, h).Settled()
  {
    assert st.Listed(s);
    OthersWaiting(st, s, e, h);
  }

  lemma FreedSettled(st: State, s: nat, h: History)
    requires st.Sound() && s in st.list
    requires forall t | t in st.list && t != s :: st.WaitingAt(t)
    ensures st.Freed(s, h).Settled()
  {
    WithoutDistinct(st.list, s);
    assert st.Listed(s);
    forall t | t in st.list && t != s
      ensures st.Freed(s, h).WaitingAt(t)
    {
      assert st.Listed(t) && st.WaitingAt(t);
    }
  }

  lemma AllocatedOthers(st: State, s: nat, e: Entry)
    requires st.Sound() && st.Settled() && s < MAX_OPEN && s !in st.list
    ensures forall t | t in st.list :: st.Allocated(s, e).WaitingAt(t)
  {
    forall t | t in st.list
      ensures st.Allocated(s, e).WaitingAt(t)
    {
      assert st.Listed(t) && st.WaitingAt(t);
    }
  }

  // The entry after a message has been sent and the timer is set
  function Armed(e: Entry, first: nat): Entry {
    e.(interval := if e.counter == 0 then first else 2 * e.interval, expired := false)
  }

  function Waits(e: Entry, h: History, first: nat): History {
    History(h.sends + 1, h.waits + [Armed(e, first).interval], [])
  }

  function Ended(e: Entry, h: History): History {
    History(h.sends + 1, h.waits, [if e.confirmable then TimedOut else Unconfirmed])
  }

  function Later(e: Entry, h: History, left: bool): History { if left then Ended(e, h) else Waits(e, h, 0) }

  // All slots are in use exactly if the list is as long as the pool.
  lemma PoolFull(st: State)
    requires st.Sound()
    ensures |st.list| <= MAX_OPEN
    ensures |st.list| == MAX_OPEN <==> forall s | 0 <= s < MAX_OPEN :: st.used[s]
  {
    DistinctBelow(st.list, MAX_OPEN);
    if s :| 0 <= s < MAX_OPEN && !st.used[s] {
      var all := st.list + [s];
      assert forall t | t in all :: t < MAX_OPEN;
      DistinctBelow(all, MAX_OPEN);
    } else {
      AllBelow(st.list, MAX_OPEN);
    }
  }

  // A list with all numbers below `n` is at least as long.
  lemma {:induction false} AllBelow(list: seq<nat>, n: nat)
    requires Distinct(list) && forall s | 0 <= s < n :: s in list
    ensures n <= |list|
    decreases n
  {
    if n > 0 {
      assert n - 1 in list;
      WithoutDistinct(list, n - 1);
      AllBelow(Without(list, n - 1), n - 1);
    }
  }

  // ---------------------------------------------------------------- whole runs

  /**
   What holds of every transaction between two events: it is sent at most 1 + MAX_RETRANSMIT times,
   waits 2^n times its first interval after the n-th retransmission and at most 15 times that
   interval in all, and it is on the list until it has ended, once.
   */
  lemma EveryTransaction(st: State, k: nat)
    requires st.Sound() && st.Settled() && k < |st.history|
    ensures var h := st.history[k];
      && h.sends <= 1 + MAX_RETRANSMIT && |h.waits| <= MAX_RETRANSMIT
      && (h.waits != [] ==>
           h.waits[|h.waits| - 1] == Pow2(|h.waits| - 1) * h.waits[0] && Sum(h.waits) <= 15 * h.waits[0])
      && if st.home[k] in st.list && st.serial[st.home[k]] == k then h.exits == [] && h.sends == |h.waits| > 0
         else |h.exits| == 1
    ensures |st.list| <= MAX_OPEN
  {
    var h := st.history[k];
    PoolFull(st);
    assert st.Told(k);
    if st.home[k] in st.list && st.serial[st.home[k]] == k {
      assert st.WaitingAt(st.home[k]);
    }
    assert Pow2(1) == 2 && Pow2(2) == 4 && Pow2(3) == 8 && Pow2(4) == 16;
    if h.waits != [] {
      TotalWait(h.waits);
    }
  }

  datatype Event = Asked(mid: nat, confirmable: bool, first: nat) | Answer(mid: nat) | Timer(slot: nat) | Poll

  // Any run of requests, responses, timers and checks
  method Run(events: seq<Event>) returns (layer: Layer)
    ensures fresh(layer) && layer.Valid() && layer.St().Settled()
  {
    layer := new Layer();
    for n := 0 to |events|
      invariant fresh(layer) && fresh(layer.used) && fresh(layer.memory) && layer.Valid() && layer.St().Settled()
    {
      match events[n] {
        case Asked(mid, confirmable, first) => var accepted := layer.Request(mid, confirmable, first);
        case Answer(mid) => layer.Response(mid);
        case Timer(slot) =>
          if slot in layer.list {
            layer.Expire(slot);
          }
        case Poll => layer.Check();
      }
    }
  }

  // Four waiting times, the first of which is known
  lemma FourWaits(waits: seq<nat>, first: nat)
    requires |waits| == 4 && waits[0] == first && Doubling(waits)
    ensures waits == [first, 2 * first, 4 * first, 8 * first]
  {
    assert waits[1] == 2 * waits[0] && waits[2] == 2 * waits[1] && waits[3] == 2 * waits[2];
  }

  lemma OneChecked(e: Entry)
    requires e.expired
    ensures Checked([e]) == if e.counter + 1 < MAX_RETRANSMIT then [Again(e)] else []
  {
    assert [e][1..] == [];
  }

  // What is known after some rounds
  predicate Unheard(open: seq<Entry>, history: seq<History>, mid: nat, first: nat, k: nat) {
    && |history| == 1 && [first] <= history[0].waits && history[0].exits in {[], [TimedOut]}
    && open == if k < MAX_RETRANSMIT then [Entry(mid, true, k, Pow2(k) * first, false)] else []
  }

  lemma UnheardNext(open: seq<Entry>, was: seq<History>, now: seq<History>, mid: nat, first: nat, k: nat)
    requires Unheard(open, was, mid, first, k) && k < MAX_RETRANSMIT && GoOn(was, now)
    ensures Unheard(Checked([open[0].(expired := true)]), now, mid, first, k + 1)
  {
    OneChecked(open[0].(expired := true));
    assert GoesOn(was[0], now[0]);
    assert Pow2(k + 1) * first == 2 * (Pow2(k) * first);
  }

  lemma TimesOut(st: State, first: nat)
    requires st.Sound() && st.list == [] && |st.history| == 1
    requires [first] <= st.history[0].waits && st.history[0].exits in {[], [TimedOut]}
    ensures st.history == [History(5, [first, 2 * first, 4 * first, 8 * first], [TimedOut])]
  {
    assert st.Told(0);
    FourWaits(st.history[0].waits, first);
  }

  // The timer of the only transaction goes off, and a check follows.
  method Overdue(layer: Layer)
    requires layer.Valid() && layer.St().Settled() && |layer.list| == 1
    modifies layer, layer.used, layer.memory
    ensures layer.Valid() && layer.St().Settled() && GoOn(old(layer.history), layer.history)
    ensures layer.Open() == Checked([old(layer.Open())[0].(expired := true)])
  {
    var s := layer.list[0];
    assert s in layer.list;
    ghost var e := layer.memory[s];
    assert e == layer.Open()[0];
    layer.Expire(s);
    assert layer.Open() == [e.(expired := true)];
    layer.Check();
  }

  /** A confirmable message that nobody answers is sent five times, the timer going off before every check. */
  method Unanswered(mid: nat, first: nat) returns (layer: Layer)
    ensures fresh(layer) && layer.Valid() && layer.list == []
    ensures layer.history == [History(5, [first, 2 * first, 4 * first, 8 * first], [TimedOut])]
  {
    layer := new Layer();
    var accepted := layer.Request(mid, true, first);
    assert layer.Open() == [Entry(mid, true, 0, first, false)];
    for k := 0 to MAX_RETRANSMIT
      invariant fresh(layer) && fresh(layer.used) && fresh(layer.memory) && layer.Valid() && layer.St().Settled()
      invariant Unheard(layer.Open(), layer.history, mid, first, k)
    {
      ghost var open, was := layer.Open(), layer.history;
      Overdue(layer);
      UnheardNext(open, was, layer.history, mid, first, k);
    }
    TimesOut(layer.St(), first);
  }
}
