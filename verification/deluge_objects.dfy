/**
 The nodes of a Deluge network as objects: a run of their handlers is a run of the network (apps/deluge/deluge.c).
 */
module DelugeObjects {
  import opened Deluge
  import opened DelugeNetwork

  // The handler of one event on the object
  method Handle(node: DelugeNode, input: Input) returns (out: seq<Message>)
    requires node.Valid()
    modifies node, node.pages, node.currentPage
    ensures node.Valid() && node.currentPage == old(node.currentPage)
    ensures node.pages == old(node.pages) || fresh(node.pages)
    ensures (node.State(), out) == Step(old(node.State()), input)
  {
    out := [];
    match input
    case Receive(m, recent, memory) => Take(node, m, recent, memory);
    case RequestTimer(junk) =>
      var request := node.RequestTimer(junk);
      out := [request];
    case SummaryTimer => out := node.SummaryTimer();
    case TxTimer(stale) =>
      if node.txPage < node.pages.Length && |stale| == S_PAGE {
        out := node.TxTimer(stale);
      }
    case ProfileTimer => out := node.ProfileTimer();
    case RoundTimer => node.RoundTimer();
  }

  // A message that arrives
  method Take(node: DelugeNode, m: Message, recent: bool, memory: bool)
    requires node.Valid()
    modifies node, node.pages, node.currentPage
    ensures node.Valid() && node.currentPage == old(node.currentPage)
    ensures node.pages == old(node.pages) || fresh(node.pages)
    ensures node.State() == Step(old(node.State()), Receive(m, recent, memory)).0
  {
    match m
    case Summary(_, _) => node.ReceiveSummary(m, recent);
    case Request(_, _, _) => node.ReceiveRequest(m);
    case Packet(_, pagenum, packetnum, _, payload) =>
      if pagenum < node.pages.Length && packetnum < N_PKT && |payload| == S_PKT {
        node.ReceivePacket(m);
      }
    case Profile(_, npages, versionVector) =>
      if |versionVector| == npages == node.pages.Length {
        node.ReceiveProfile(m, memory);
      }
  }

  // The objects that a node is made of
  ghost function Parts(node: DelugeNode): set<object>
    reads node
  {
    {node, node.pages, node.currentPage}
  }

  ghost predicate Apart(nodes: seq<DelugeNode>, i: nat, j: nat)
    requires i < |nodes| && j < |nodes|
    reads nodes
  {
    Parts(nodes[i]) !! Parts(nodes[j])
  }

  ghost predicate AllApart(nodes: seq<DelugeNode>)
    reads nodes
  {
    forall i, j | 0 <= i < |nodes| && 0 <= j < |nodes| && i != j :: Apart(nodes, i, j)
  }

  ghost function Footprint(nodes: seq<DelugeNode>): set<object>
    reads nodes
  {
    set i, o | 0 <= i < |nodes| && o in Parts(nodes[i]) :: o
  }

  // Only one node has changed, and what it has now is its own or new.
  twostate predicate Changed(nodes: seq<DelugeNode>, k: nat)
    requires k < |nodes|
    reads nodes
  {
    && (forall i | 0 <= i < |nodes| && i != k :: Parts(nodes[i]) == old(Parts(nodes[i])))
    && forall o | o in Parts(nodes[k]) :: o in old(Parts(nodes[k])) || fresh(o)
  }

  // Node `i` is in this state.
  ghost predicate InState(nodes: seq<DelugeNode>, i: nat, n: Node)
    requires i < |nodes|
    reads nodes, Footprint(nodes)
  {
    assert Parts(nodes[i]) <= Footprint(nodes);
    nodes[i].Valid() && nodes[i].State() == n
  }

  ghost predicate InStates(nodes: seq<DelugeNode>, states: seq<Node>)
    reads nodes, Footprint(nodes)
  {
    |states| == |nodes| && forall i | 0 <= i < |nodes| :: InState(nodes, i, states[i])
  }

  // One handler of one node; no other node is touched.
  method HandleAt(nodes: seq<DelugeNode>, k: nat, input: Input, ghost states: seq<Node>) returns (out: seq<Message>)
    requires AllApart(nodes) && k < |nodes| && InStates(nodes, states)
    modifies Parts(nodes[k])
    ensures AllApart(nodes) && Changed(nodes, k) && out == Step(states[k], input).1
    ensures InStates(nodes, states[k := Step(states[k], input).0])
  {
    assert InState(nodes, k, states[k]);
    out := Handle(nodes[k], input);
    forall i | 0 <= i < |nodes| && i != k
      ensures Parts(nodes[i]) == old(Parts(nodes[i])) && InState(nodes, i, states[i])
    {
      assert old(Apart(nodes, i, k)) && old(InState(nodes, i, states[i]));
    }
    forall i, j | 0 <= i < |nodes| && 0 <= j < |nodes| && i != j
      ensures Apart(nodes, i, j)
    {
      assert old(Apart(nodes, i, j));
    }
  }

  // One event, if it can happen; `sent` is every message that was ever sent.
  method Happen(nodes: seq<DelugeNode>, e: Event, sent: set<Message>, ghost states: seq<Node>)
    returns (later: set<Message>, ghost next: seq<Node>)
    requires AllApart(nodes) && InStates(nodes, states)
    modifies Footprint(nodes)
    ensures AllApart(nodes) && fresh(Footprint(nodes) - old(Footprint(nodes)))
    ensures InStates(nodes, next) && Net(next, later) == Apply(Net(states, sent), e)
  {
    later, next := sent, states;
    if e.node < |nodes| && (e.input.Receive? ==> e.input.msg in sent) {
      assert Parts(nodes[e.node]) <= Footprint(nodes);
      var out := HandleAt(nodes, e.node, e.input, states);
      later := sent + set m | m in out;
      next := states[e.node := Step(states[e.node], e.input).0];
    }
  }

  /** A run of the handlers on the objects is the run of the network: what is proved of that holds of the objects. */
  method RunNodes(nodes: seq<DelugeNode>, events: seq<Event>, ghost states: seq<Node>)
    returns (sent: set<Message>, ghost next: seq<Node>)
    requires AllApart(nodes) && InStates(nodes, states)
    modifies Footprint(nodes)
    ensures AllApart(nodes) && InStates(nodes, next) && Net(next, sent) == Run(Net(states, {}), events)
  {
    var i := 0;
    sent, next := {}, states;
    assert events[0..] == events;
    while i < |events|
      invariant 0 <= i <= |events| && AllApart(nodes) && fresh(Footprint(nodes) - old(Footprint(nodes)))
      invariant InStates(nodes, next) && Run(Net(next, sent), events[i..]) == Run(Net(states, {}), events)
    {
      assert events[i..][1..] == events[i + 1..];
      sent, next := Happen(nodes, events[i], sent, next);
      i := i + 1;
    }
    assert events[i..] == [];
  }

  // Nodes that start with these files
  function Started(files: seq<seq<byte>>, versions: seq<nat>): (states: seq<Node>)
    requires |files| == |versions|
    ensures |states| == |files|
  {
    seq(|files|, i requires 0 <= i < |files| => InitObject(files[i], versions[i]))
  }

  method StartNode(nodes: seq<DelugeNode>, file: seq<byte>, version: nat, ghost states: seq<Node>)
    returns (more: seq<DelugeNode>)
    requires AllApart(nodes) && InStates(nodes, states)
    ensures |more| == |nodes| + 1 && more[..|nodes|] == nodes && fresh(Parts(more[|nodes|]))
    ensures AllApart(more) && InStates(more, states + [InitObject(file, version)])
  {
    var n := |nodes|;
    var node := new DelugeNode(file, version);
    more := nodes + [node];
    forall i | 0 <= i < n
      ensures more[i] == nodes[i] && InState(more, i, states[i]) && Parts(more[i]) !! Parts(node)
    {
      assert InState(nodes, i, states[i]);
    }
    forall i, j | 0 <= i < |more| && 0 <= j < |more| && i != j
      ensures Apart(more, i, j)
    {
      assert i < n && j < n ==> Apart(nodes, i, j);
    }
  }

  method StartNodes(files: seq<seq<byte>>, versions: seq<nat>) returns (nodes: seq<DelugeNode>)
    requires |files| == |versions|
    ensures AllApart(nodes) && fresh(Footprint(nodes)) && InStates(nodes, Started(files, versions))
  {
    nodes := [];
    ghost var states := Started(files, versions);
    for i := 0 to |files|
      invariant |nodes| == i && AllApart(nodes) && InStates(nodes, states[..i])
      invariant forall k | 0 <= k < i :: fresh(Parts(nodes[k]))
    {
      nodes := StartNode(nodes, files[i], versions[i], states[..i]);
      assert states[..i + 1] == states[..i] + [InitObject(files[i], versions[i])];
    }
    assert states[..|files|] == states;
  }

  /** Nodes, files and handlers together: under the condition on the files no run spreads wrong bytes. */
  method Deploy(files: seq<seq<byte>>, versions: seq<nat>, events: seq<Event>, ghost g: Goal, ghost floor: int)
    returns (nodes: seq<DelugeNode>, sent: set<Message>, ghost states: seq<Node>)
    requires |files| == |versions| && Initial(Net(Started(files, versions), {}), g, files, versions)
    requires floor < g.top && CarriesAbove(g, files, versions, floor)
    requires forall i | 0 <= i < |versions| :: floor <= versions[i]
    ensures InStates(nodes, states) && Disseminates(Net(states, sent), g)
  {
    nodes := StartNodes(files, versions);
    sent, states := RunNodes(nodes, events, Started(files, versions));
    CarriedDisseminates(Net(Started(files, versions), {}), g, files, versions, floor, events);
  }
}
