/** Where links speak MLDv1, a flood of reports leaves a tree behind: each hub it reaches asks for the
    group on an interface that leads back to the hosts, and data climbs down that tree to them. */
module DeliveryTree {
  import opened Addresses
  import opened Database
  import opened Invariant
  import opened Forwarding
  import opened Handlers
  import opened Runs
  import opened Interfaces
  import opened ReportFlood
  import opened ReportReach
  import DataFlood

  /** `up` says on which interface a hub first heard of the group, `rank` how many hubs away from the
      hosts it is. */
  datatype Tree = Tree(up: map<nat, nat>, rank: map<nat, nat>)

  /** The hub asks for the group on interface `i`, since a time in the window. */
  ghost predicate Stands(db: DB, g: Addr, i: nat, start: int) {
    var e := Lookup(db, g, i, ANY);
    e.Some? && e.value.mode == INCLUDE && InWindow(e.value.refresh, start)
  }

  ghost predicate InTree(tree: Tree, h: nat) {
    h in tree.up && h in tree.rank
  }

  /** Attachment `b` hears hub `s`, of rank below `r`, which heard of the group elsewhere. */
  ghost predicate Hears(topo: Topology, net: Net, tree: Tree, g: Addr, start: int, b: (nat, nat), r: nat, s: nat,
                        j: nat) {
    && SettledHub(net, s, g, start) && InTree(tree, s) && tree.rank[s] < r
    && j != tree.up[s] && Peers(topo, (s, j), b)
  }

  /** The attachment is on a link of the hosts, or hears a hub of rank below `r`. */
  ghost predicate Fed(topo: Topology, origins: set<nat>, net: Net, tree: Tree, g: Addr, start: int, b: (nat, nat),
                      r: nat) {
    b in topo.atts &&
    (topo.link(b.0, b.1) in origins || exists s: nat, j: nat :: Hears(topo, net, tree, g, start, b, r, s, j))
  }

  ghost predicate Rooted(topo: Topology, origins: set<nat>, net: Net, tree: Tree, g: Addr, start: int, h: nat) {
    && h in net.hubs && InTree(tree, h) && Stands(net.hubs[h], g, tree.up[h], start)
    && Fed(topo, origins, net, tree, g, start, (h, tree.up[h]), tree.rank[h])
  }

  ghost predicate Coming(topo: Topology, origins: set<nat>, net: Net, tree: Tree, g: Addr, start: int, m: Msg) {
    m.payload.V1? && exists r: nat :: Fed(topo, origins, net, tree, g, start, (m.hub, m.at), r)
  }

  ghost function SettledHubs(net: Net, g: Addr, start: int): set<nat> {
    set h | h in net.hubs && Settled(net.hubs[h], g, start)
  }

  ghost predicate TreeOk(topo: Topology, origins: set<nat>, net: Net, tree: Tree, g: Addr, start: int) {
    && (forall h | SettledHub(net, h, g, start) ::
          Rooted(topo, origins, net, tree, g, start, h) && tree.rank[h] < |SettledHubs(net, g, start)|)
    && (forall m | m in net.flight :: Coming(topo, origins, net, tree, g, start, m))
  }

  /** MLDv1 is what the links speak and the hosts send, the latter on the `origins`, and nobody leaves
      the group. */
  ghost predicate V1Event(topo: Topology, origins: set<nat>, net: Net, e: Timed, g: Addr) {
    match e.ev
    case Deliver(k, out, ports, mode) =>
      k < |net.flight| && forall i | i in ports && (net.flight[k].hub, i) in topo.atts :: !SendsV2(ports[i], mode)
    case Local(hub, op) => !op.Leave? || op.mca != g
    case Inject(msgs) => 
      forall m | m in msgs :: m.payload.V1? && (m.hub, m.at) in topo.atts && topo.link(m.hub, m.at) in origins
  }

  // ----- one hub

  lemma {:induction false} ReportStands(db: DB, at: nat, g: Addr, i: nat, start: int, now: int)
    requires Inv(db, now) && InWindow(now, start) && RoutableGroup(g)
    ensures var db' := Report1(db, at, g, now).db;
            Stands(db', g, i, start) <==> i == at || Stands(db, g, i, start)
  {
    hide Inv, JoinStep, Lookup, LastWrite;
    LookupAfter(db, Join(g, at, [Write(ANY, INCLUDE)]), g, i, ANY, now, now);
    OneWriteLast(Write(ANY, INCLUDE), ANY);
  }

  lemma {:induction false} LocalStands(db: DB, op: Op, g: Addr, i: nat, start: int, now: int)
    requires Inv(db, now) && InWindow(now, start) && OpOk(op)
    requires !JoinsGroup(op, g) && (!op.Leave? || op.mca != g)
    ensures Stands(db, g, i, start) ==> Stands(Apply(db, op, now), g, i, start)
  {
    hide Inv, Apply, Lookup, LastWrite;
    LookupAfter(db, op, g, i, ANY, now, now);
  }

  // ----- one event

  /** Settled hubs stay settled and keep their place in the tree. */
  ghost predicate Keeps(net: Net, net': Net, tree: Tree, tree': Tree, g: Addr, start: int) {
    forall h | SettledHub(net, h, g, start) && InTree(tree, h) ::
      SettledHub(net', h, g, start) && InTree(tree', h) && tree'.up[h] == tree.up[h] && tree'.rank[h] == tree.rank[h]
  }

  lemma {:induction false} FedStays(topo: Topology, origins: set<nat>, net: Net, net': Net, tree: Tree, tree': Tree,
                                    g: Addr, start: int, b: (nat, nat), r: nat)
    requires Fed(topo, origins, net, tree, g, start, b, r) && Keeps(net, net', tree, tree', g, start)
    ensures Fed(topo, origins, net', tree', g, start, b, r)
  {
    hide SettledHub, InTree, Peers;
    if topo.link(b.0, b.1) !in origins {
      var s: nat, j: nat :| Hears(topo, net, tree, g, start, b, r, s, j);
      assert Hears(topo, net', tree', g, start, b, r, s, j);
    }
  }

  lemma {:induction false} ComingStays(topo: Topology, origins: set<nat>, net: Net, net': Net, tree: Tree, tree': Tree,
                                       g: Addr, start: int, m: Msg)
    requires Coming(topo, origins, net, tree, g, start, m) && Keeps(net, net', tree, tree', g, start)
    ensures Coming(topo, origins, net', tree', g, start, m)
  {
    hide Fed, Keeps;
    var r: nat :| Fed(topo, origins, net, tree, g, start, (m.hub, m.at), r);
    FedStays(topo, origins, net, net', tree, tree', g, start, (m.hub, m.at), r);
  }

  /** A hub whose database is as it was, or still asks on its interface, stays rooted. */
  lemma {:induction false} RootedStays(topo: Topology, origins: set<nat>, net: Net, net': Net, tree: Tree, tree': Tree,
                                       g: Addr, start: int, h: nat)
    requires Rooted(topo, origins, net, tree, g, start, h) && SettledHub(net, h, g, start)
    requires Keeps(net, net', tree, tree', g, start) && h in net'.hubs
    requires Stands(net.hubs[h], g, tree.up[h], start) ==> Stands(net'.hubs[h], g, tree.up[h], start)
    ensures Rooted(topo, origins, net', tree', g, start, h)
  {
    hide Fed, Stands, SettledHub;
    FedStays(topo, origins, net, net', tree, tree', g, start, (h, tree.up[h]), tree.rank[h]);
  }

  /** What a hub that has just heard of the group sends comes from a hub in the tree. */
  lemma {:induction false} OutComing(topo: Topology, origins: set<nat>, net: Net, net': Net, e: Timed, tree: Tree,
                                     g: Addr, start: int, c: Msg)
    requires e.ev.Deliver? && Reliable(topo, net, e, g) && V1Event(topo, origins, net, e, g) && c in e.ev.out
    requires var m := net.flight[e.ev.k];
             SettledHub(net', m.hub, g, start) && InTree(tree, m.hub) && tree.up[m.hub] == m.at
    ensures Coming(topo, origins, net', tree, g, start, c)
  {
    hide SettledHub, Receive, EmitsOn, PortsOk, Addressed;
    var m := net.flight[e.ev.k];
    var i :| i != m.at && SentOn(topo, m.hub, i, c, g, e.ev.ports, e.ev.mode);
    var r := tree.rank[m.hub] + 1;
    assert Hears(topo, net', tree, g, start, (c.hub, c.at), r, m.hub, i);
    assert Fed(topo, origins, net', tree, g, start, (c.hub, c.at), r);
  }

  lemma {:induction false} DeliverHub(net: Net, e: Timed, g: Addr, start: int, fan: nat)
    requires NetOk(net, g, e.now) && InWindow(e.now, start) && RoutableGroup(g) && e.ev.Deliver? && Enabled(net, e, g, fan)
    requires net.flight[e.ev.k].payload.V1?
    ensures var m, net' := net.flight[e.ev.k], Next(net, e, g);
            && SettledHub(net', m.hub, g, start) && net'.hubs.Keys == net.hubs.Keys
            && (forall h | h in net.hubs && h != m.hub :: net'.hubs[h] == net.hubs[h])
            && (forall i: nat ::
                  Stands(net'.hubs[m.hub], g, i, start) <==> i == m.at || Stands(net.hubs[m.hub], g, i, start))
            && (SettledHub(net, m.hub, g, start) ==> e.ev.out == [])
            && (forall c | c in net'.flight :: c in net.flight || c in e.ev.out)
  {
    hide Inv, Report1, Settled, SentFor, Stands;
    var m := net.flight[e.ev.k];
    assert m in net.flight;
    ReceiveSettles(net.hubs[m.hub], m, g, start, e.now);
    forall i: nat {
      ReportStands(net.hubs[m.hub], m.at, g, i, start, e.now);
    }
  }

  /** The place of a hub that a message is about to settle. */
  lemma {:induction false} Place(topo: Topology, origins: set<nat>, net: Net, tree: Tree, g: Addr, start: int,
                                 m: Msg) returns (r: nat)
    requires TreeOk(topo, origins, net, tree, g, start) && m in net.flight
    ensures Fed(topo, origins, net, tree, g, start, (m.hub, m.at), r) && r <= |SettledHubs(net, g, start)|
  {
    hide Settled, Rooted, SettledHubs, Peers;
    assert Coming(topo, origins, net, tree, g, start, m);
    if topo.link(m.hub, m.at) in origins {
      r := 0;
    } else {
      var q: nat :| Fed(topo, origins, net, tree, g, start, (m.hub, m.at), q);
      var s: nat, j: nat :| Hears(topo, net, tree, g, start, (m.hub, m.at), q, s, j);
      r := tree.rank[s] + 1;
      assert Hears(topo, net, tree, g, start, (m.hub, m.at), r, s, j);
    }
  }

  lemma {:induction false} OneMoreSettled(net: Net, net': Net, hub: nat, g: Addr, start: int)
    requires SettledHub(net', hub, g, start) && net'.hubs.Keys == net.hubs.Keys
    requires forall h | h in net.hubs && h != hub :: net'.hubs[h] == net.hubs[h]
    ensures |SettledHubs(net', g, start)| ==
            |SettledHubs(net, g, start)| + if SettledHub(net, hub, g, start) then 0 else 1
  {
    hide Settled;
    var a, b := SettledHubs(net, g, start), SettledHubs(net', g, start);
    if SettledHub(net, hub, g, start) {
      assert a == b;
    } else {
      assert b == a + {hub};
    }
  }

  lemma {:induction false} DeliverGrows(topo: Topology, origins: set<nat>, net: Net, e: Timed, tree: Tree, g: Addr,
                                        start: int, fan: nat)
    returns (tree': Tree)
    requires NetOk(net, g, e.now) && InWindow(e.now, start) && RoutableGroup(g) && e.ev.Deliver? && Enabled(net, e, g, fan)
    requires Reliable(topo, net, e, g) && V1Event(topo, origins, net, e, g) && TreeOk(topo, origins, net, tree, g, start)
    ensures TreeOk(topo, origins, Next(net, e, g), tree', g, start)
  {
    hide NetOk, Next, Reliable, V1Event, Stands, Fed, Settled, Receive, Inv, SentFor, SettledHubs;
    var m, net' := net.flight[e.ev.k], Next(net, e, g);
    assert m in net.flight && Coming(topo, origins, net, tree, g, start, m);
    DeliverHub(net, e, g, start, fan);
    if SettledHub(net, m.hub, g, start) {
      tree' := tree;
    } else {
      var r := Place(topo, origins, net, tree, g, start, m);
      tree' := Tree(tree.up[m.hub := m.at], tree.rank[m.hub := r]);
      assert Keeps(net, net', tree, tree', g, start);
      FedStays(topo, origins, net, net', tree, tree', g, start, (m.hub, m.at), r);
    }
    OneMoreSettled(net, net', m.hub, g, start);
    forall h | SettledHub(net', h, g, start)
      ensures Rooted(topo, origins, net', tree', g, start, h) && tree'.rank[h] < |SettledHubs(net', g, start)|
    {
      if SettledHub(net, h, g, start) {
        RootedStays(topo, origins, net, net', tree, tree', g, start, h);
      }
    }
    forall c | c in net'.flight ensures Coming(topo, origins, net', tree', g, start, c) {
      if c in net.flight {
        ComingStays(topo, origins, net, net', tree, tree', g, start, c);
      } else {
        OutComing(topo, origins, net, net', e, tree', g, start, c);
      }
    }
  }

  lemma {:induction false} OtherGrows(topo: Topology, origins: set<nat>, net: Net, e: Timed, tree: Tree, g: Addr,
                                      start: int, fan: nat)
    requires NetOk(net, g, e.now) && InWindow(e.now, start) && !e.ev.Deliver? && Enabled(net, e, g, fan)
    requires V1Event(topo, origins, net, e, g) && TreeOk(topo, origins, net, tree, g, start)
    ensures TreeOk(topo, origins, Next(net, e, g), tree, g, start)
  {
    hide Stands, Fed, Settled, Inv, Apply, About, Present;
    var net' := Next(net, e, g);
    if e.ev.Local? {
      var db := net.hubs[e.ev.hub];
      LocalKeeps(db, e.ev.op, g, start, e.now);
      forall i: nat {
        LocalStands(db, e.ev.op, g, i, start, e.now);
      }
    }
    assert Keeps(net, net', tree, tree, g, start);
    assert SettledHubs(net', g, start) == SettledHubs(net, g, start);
    forall h | SettledHub(net', h, g, start) ensures Rooted(topo, origins, net', tree, g, start, h) {
      RootedStays(topo, origins, net, net', tree, tree, g, start, h);
    }
    forall m | m in net'.flight ensures Coming(topo, origins, net', tree, g, start, m) {
      if m in net.flight {
        ComingStays(topo, origins, net, net', tree, tree, g, start, m);
      } else {
        OriginComing(topo, origins, net', tree, g, start, m);
      }
    }
  }

  lemma {:induction false} OriginComing(topo: Topology, origins: set<nat>, net: Net, tree: Tree, g: Addr, start: int,
                                        m: Msg)
    requires m.payload.V1? && (m.hub, m.at) in topo.atts && topo.link(m.hub, m.at) in origins
    ensures Coming(topo, origins, net, tree, g, start, m)
  {
    assert Fed(topo, origins, net, tree, g, start, (m.hub, m.at), 0);
  }

  // ----- a run

  ghost predicate V1Run(topo: Topology, origins: set<nat>, net: Net, es: seq<Timed>, g: Addr)
    decreases |es|
  {
    es != [] ==> V1Event(topo, origins, net, es[0], g) && V1Run(topo, origins, Next(net, es[0], g), es[1..], g)
  }

  /** Every flood of MLDv1 reports leaves a tree behind. */
  lemma {:induction false} RunGrows(topo: Topology, origins: set<nat>, net: Net, es: seq<Timed>, tree: Tree, g: Addr,
                                    fan: nat, start: int, t: int)
    returns (tree': Tree)
    requires NetOk(net, g, t) && RoutableGroup(g) && TreeOk(topo, origins, net, tree, g, start)
    requires Legal(net, es, g, fan, start, t) && ReliableRun(topo, net, es, g) && V1Run(topo, origins, net, es, g)
    ensures TreeOk(topo, origins, RunNet(net, es, g), tree', g, start)
    decreases |es|
  {
    hide NetOk, Enabled, Next, Reliable, V1Event, TreeOk, Unsettled, Potential;
    tree' := tree;
    if es != [] {
      var e := es[0];
      NetLater(net, g, t, e.now);
      if e.ev.Deliver? {
        DeliverFalls(net, e, g, start, fan);
        tree' := DeliverGrows(topo, origins, net, e, tree, g, start, fan);
      } else {
        OtherFalls(net, e, g, start, fan);
        OtherGrows(topo, origins, net, e, tree, g, start, fan);
      }
      tree' := RunGrows(topo, origins, Next(net, e, g), es[1..], tree', g, fan, start, e.now);
    }
  }

  // ----- data follows the tree

  /** The state each hub is in while the data passes: its database, its interfaces, and addresses of its
      own that are not the sender's. */
  ghost predicate StatesOk(topo: Topology, net: Net, states: nat -> DataFlood.HubState, src: Addr, now: int) {
    && (forall h | h in net.hubs :: states(h).db == net.hubs[h] && Inv(net.hubs[h], now) && src !in states(h).own)
    && (forall a | a in topo.atts :: a.1 in states(a.0).live)
  }

  /** The links of the two models agree. */
  ghost predicate LinksMatch(topo: Topology, links: DataFlood.Links) {
    forall a, b | Peers(topo, a, b) :: b in links(a.0, a.1)
  }

  function Datagram(src: Addr, g: Addr, hlim: Byte): DataFlood.Packet {
    DataFlood.Packet(src, g, hlim, DataFlood.NotIcmp)
  }

  lemma {:induction false} CopiesContain(to: seq<(nat, nat)>, p: DataFlood.Packet, b: (nat, nat))
    requires b in to
    ensures DataFlood.Copy(b.0, b.1, p) in DataFlood.CopiesTo(to, p)
  {
    if to[0] != b {
      CopiesContain(to[1..], p, b);
    }
  }

  lemma {:induction false} SendContains(links: DataFlood.Links, hub: nat, ifs: seq<nat>, p: DataFlood.Packet, i: nat,
                                        b: (nat, nat))
    requires i in ifs && b in links(hub, i)
    ensures DataFlood.Copy(b.0, b.1, p) in DataFlood.SendOn(links, hub, ifs, p)
  {
    hide DataFlood.CopiesTo;
    if ifs[0] == i {
      CopiesContain(links(hub, i), p, b);
    } else {
      SendContains(links, hub, ifs[1..], p, i, b);
    }
  }

  /** A hub that asks on `up` passes the packet on there. */
  lemma {:induction false} HubPasses(hub: DataFlood.HubState, src: Addr, g: Addr, at: nat, up: nat, hlim: Byte,
                                     start: int, now: int)
    requires Inv(hub.db, now) && RoutableGroup(g) && Routable(src, g) && src !in hub.own && hlim >= 2
    requires Stands(hub.db, g, up, start) && up != at && up in hub.live
    ensures DataFlood.Dispatch(Datagram(src, g, hlim), hub.own) == DataFlood.Route(hlim - 1)
    ensures up in Forward(hub.db, at, src, g, hub.live)
  {
    hide Inv, Forward, Lookup;
    ForwardExact(hub.db, at, src, g, hub.live, now);
  }

  /** The copy arrives at a hub which sends it on, onto a link of the hosts. */
  ghost predicate Delivers(topo: Topology, origins: set<nat>, states: nat -> DataFlood.HubState, c: DataFlood.Copy) {
    && DataFlood.Dispatch(c.packet, states(c.hub).own).Route?
    && exists i | i in Forward(states(c.hub).db, c.at, c.packet.src, c.packet.dst, states(c.hub).live) ::
         topo.link(c.hub, i) in origins
  }

  ghost function StatesOf(states: nat -> DataFlood.HubState, copies: seq<DataFlood.Copy>): (r: seq<DataFlood.HubState>)
    ensures |r| == |copies| && forall k | 0 <= k < |r| :: r[k] == states(copies[k].hub)
  {
    seq(|copies|, k requires 0 <= k < |copies| => states(copies[k].hub))
  }

  lemma {:induction false} ChainCons(links: DataFlood.Links, states: nat -> DataFlood.HubState, c: DataFlood.Copy,
                                     rest: seq<DataFlood.Copy>)
    requires rest != [] && DataFlood.Chain(links, rest, StatesOf(states, rest))
    requires rest[0] in DataFlood.Outputs(links, states(c.hub), c)
    ensures DataFlood.Chain(links, [c] + rest, StatesOf(states, [c] + rest))
  {
    hide DataFlood.Outputs;
    var all := [c] + rest;
    forall k | 0 <= k < |all| - 1 ensures all[k + 1] in DataFlood.Outputs(links, StatesOf(states, all)[k], all[k]) {
      if k > 0 {
        var j := k - 1;
        assert rest[j + 1] in DataFlood.Outputs(links, StatesOf(states, rest)[j], rest[j]);
      }
    }
  }

  /** Data climbs down the tree: a packet that arrives at a hub in the tree, not from the link the hub
      asked on, and with hop limit at least two more than the hub's rank, gets to a hub that sends it onto
      a link of the hosts, over at most as many hubs as the rank. */
  lemma {:induction false} DataClimbs(topo: Topology, origins: set<nat>, net: Net, tree: Tree, g: Addr, start: int,
                                      now: int,
                                      links: DataFlood.Links, states: nat -> DataFlood.HubState, src: Addr,
                                      h: nat, at: nat, hlim: Byte)
    returns (copies: seq<DataFlood.Copy>)
    requires TreeOk(topo, origins, net, tree, g, start) && SettledHub(net, h, g, start)
    requires StatesOk(topo, net, states, src, now) && LinksMatch(topo, links) && RoutableGroup(g) && Routable(src, g)
    requires InTree(tree, h) && at != tree.up[h] && hlim >= tree.rank[h] + 2
    ensures copies != [] && copies[0] == DataFlood.Copy(h, at, Datagram(src, g, hlim)) && |copies| <= tree.rank[h] + 1
    ensures DataFlood.Chain(links, copies, StatesOf(states, copies))
    ensures Delivers(topo, origins, states, copies[|copies| - 1])
    decreases tree.rank[h]
  {
    hide TreeOk, StatesOk, LinksMatch, SettledHub, Delivers, Peers, DataFlood.Outputs, DataFlood.Chain, Routable, Settled;
    var c := DataFlood.Copy(h, at, Datagram(src, g, hlim));
    var up := tree.up[h];
    RootPasses(topo, origins, net, tree, g, start, now, states, src, h, at, hlim);
    if topo.link(h, up) in origins {
      copies := [c];
      ChainOne(links, states, c);
    } else {
      var s, j := Parent(topo, origins, net, tree, g, start, h);
      var rest := DataClimbs(topo, origins, net, tree, g, start, now, links, states, src, s, j, hlim - 1);
      PassesTo(topo, links, states(h), c, up, (s, j));
      ChainCons(links, states, c, rest);
      copies := [c] + rest;
    }
  }

  /** The hub of smaller rank that a hub off the hosts' links hears. */
  lemma {:induction false} Parent(topo: Topology, origins: set<nat>, net: Net, tree: Tree, g: Addr, start: int, h: nat)
    returns (s: nat, j: nat)
    requires TreeOk(topo, origins, net, tree, g, start) && SettledHub(net, h, g, start) && InTree(tree, h)
    requires topo.link(h, tree.up[h]) !in origins
    ensures SettledHub(net, s, g, start) && InTree(tree, s) && tree.rank[s] < tree.rank[h]
    ensures j != tree.up[s] && Peers(topo, (h, tree.up[h]), (s, j))
  {
    hide Settled, Stands, SettledHubs;
    assert Rooted(topo, origins, net, tree, g, start, h);
    s, j :| Hears(topo, net, tree, g, start, (h, tree.up[h]), tree.rank[h], s, j);
  }

  lemma {:induction false} RootPasses(topo: Topology, origins: set<nat>, net: Net, tree: Tree, g: Addr, start: int,
                                      now: int,
                                      states: nat -> DataFlood.HubState, src: Addr, h: nat, at: nat, hlim: Byte)
    requires TreeOk(topo, origins, net, tree, g, start) && SettledHub(net, h, g, start) && InTree(tree, h)
    requires StatesOk(topo, net, states, src, now) && RoutableGroup(g) && Routable(src, g)
    requires at != tree.up[h] && hlim >= 2
    ensures DataFlood.Dispatch(Datagram(src, g, hlim), states(h).own) == DataFlood.Route(hlim - 1)
    ensures tree.up[h] in Forward(states(h).db, at, src, g, states(h).live)
    ensures topo.link(h, tree.up[h]) in origins ==>
              Delivers(topo, origins, states, DataFlood.Copy(h, at, Datagram(src, g, hlim)))
  {
    hide Settled, Stands, Forward, Inv, Routable, DataFlood.Dispatch, Peers;
    assert Rooted(topo, origins, net, tree, g, start, h);
    assert (h, tree.up[h]) in topo.atts;
    HubPasses(states(h), src, g, at, tree.up[h], hlim, start, now);
  }

  lemma {:induction false} PassesTo(topo: Topology, links: DataFlood.Links, hub: DataFlood.HubState,
                                    c: DataFlood.Copy, up: nat, b: (nat, nat))
    requires LinksMatch(topo, links) && Peers(topo, (c.hub, up), b) && c.packet.hlim > 0
    requires DataFlood.Dispatch(c.packet, hub.own) == DataFlood.Route(c.packet.hlim - 1)
    requires up in Forward(hub.db, c.at, c.packet.src, c.packet.dst, hub.live)
    ensures DataFlood.Copy(b.0, b.1, c.packet.(hlim := c.packet.hlim - 1)) in DataFlood.Outputs(links, hub, c)
  {
    hide DataFlood.Dispatch, Forward, Peers, DataFlood.SendOn;
    SendContains(links, c.hub, Forward(hub.db, c.at, c.packet.src, c.packet.dst, hub.live),
                 c.packet.(hlim := c.packet.hlim - 1), up, b);
  }

  lemma {:induction false} ChainOne(links: DataFlood.Links, states: nat -> DataFlood.HubState, c: DataFlood.Copy)
    ensures DataFlood.Chain(links, [c], StatesOf(states, [c]))
  {
  }

  /** Subscribers are reached: when a flood of MLDv1 reports has drained, a data packet that arrives at
      any hub on a route from one the flood reached, with hop limit above the number of hubs, gets onto a
      link of the hosts, unless it came in over the very link the hub asked on. */
  lemma {:induction false} SubscribersReached(topo: Topology, origins: set<nat>, net: Net, es: seq<Timed>, g: Addr,
                                              fan: nat,
                                              start: int, t: int, path: seq<(nat, nat)>, k: nat,
                                              links: DataFlood.Links, states: nat -> DataFlood.HubState,
                                              src: Addr, at: nat, hlim: Byte, now: int)
    returns (tree: Tree, copies: seq<DataFlood.Copy>)
    requires NetOk(net, g, t) && RoutableGroup(g) && net.flight == []
    requires forall h | h in net.hubs :: Ready(net.hubs[h], g, start)
    requires Legal(net, es, g, fan, start, t) && ReliableRun(topo, net, es, g) && V1Run(topo, origins, net, es, g)
    requires RunNet(net, es, g).flight == [] && Route(topo, path) && k < |path|
    requires SettledHub(RunNet(net, es, g), path[0].0, g, start)
    requires StatesOk(topo, RunNet(net, es, g), states, src, now) && LinksMatch(topo, links) && Routable(src, g)
    requires hlim > |RunNet(net, es, g).hubs|
    ensures TreeOk(topo, origins, RunNet(net, es, g), tree, g, start)
    ensures path[k].0 in tree.up
    ensures at != tree.up[path[k].0] ==>
              && copies != [] && copies[0] == DataFlood.Copy(path[k].0, at, Datagram(src, g, hlim))
              && DataFlood.Chain(links, copies, StatesOf(states, copies))
              && Delivers(topo, origins, states, copies[|copies| - 1])
  {
    hide NetOk, Legal, ReliableRun, V1Run, RunNet, TreeOk, StatesOk, LinksMatch, Route, SettledHub, Delivers, Ready, Settled;
    hide DataFlood.Chain, Routable;
    var end, h := RunNet(net, es, g), path[k].0;
    NoTree(topo, origins, net, g, start);
    tree := RunGrows(topo, origins, net, es, Tree(map[], map[]), g, fan, start, t);
    FloodReaches(topo, net, es, g, fan, start, t, path, k);
    RankBound(topo, origins, end, tree, g, start, h);
    copies := [];
    if at != tree.up[h] {
      copies := DataClimbs(topo, origins, end, tree, g, start, now, links, states, src, h, at, hlim);
    }
  }

  lemma {:induction false} NoTree(topo: Topology, origins: set<nat>, net: Net, g: Addr, start: int)
    requires net.flight == [] && forall h | h in net.hubs :: Ready(net.hubs[h], g, start)
    ensures TreeOk(topo, origins, net, Tree(map[], map[]), g, start)
  {
    hide ForwardedAt;
  }

  lemma {:induction false} RankBound(topo: Topology, origins: set<nat>, net: Net, tree: Tree, g: Addr, start: int,
                                     h: nat)
    requires TreeOk(topo, origins, net, tree, g, start) && SettledHub(net, h, g, start)
    ensures InTree(tree, h) && tree.rank[h] + 1 <= |net.hubs|
  {
    hide Settled, Stands, Fed;
    assert Rooted(topo, origins, net, tree, g, start, h);
    assert SettledHubs(net, g, start) <= net.hubs.Keys;
    SubsetSize(SettledHubs(net, g, start), net.hubs.Keys);
  }
}
