/** A small network that meets every assumption of the reach and tree theorems: a host behind hub 0,
    and hub 1 one link further on. */
module FloodExample {
  import opened Addresses
  import opened Database
  import opened Invariant
  import opened Handlers
  import opened Runs
  import opened Interfaces
  import opened ReportFlood
  import opened ReportReach
  import opened DeliveryTree

  const HOST_LINK := 0
  const HUB_LINK := 1

  const TOPO := Topology({(0, 1), (0, 2), (1, 1)}, (h, i) => if h == 0 && i == 1 then HOST_LINK else HUB_LINK)

  function Port(i: nat): Intf {
    Intf(i, 1500, Mld(0, 0), false)
  }

  /** The host's report arrives at hub 0, whose report arrives at hub 1. */
  const REPORTED := Timed(0, Inject([Msg(0, 1, V1)]))
  const PASSED_ON := Timed(0, Deliver(0, [Msg(1, 1, V1)], map[1 := Port(1), 2 := Port(2)], Mld1Only))
  const HEARD := Timed(0, Deliver(0, [], map[1 := Port(1)], Mld1Only))

  const QUIET := Net(map[0 := [], 1 := []], [])

  lemma {:induction false} FirstEvent(g: Addr)
    requires RoutableGroup(g)
    ensures NetOk(QUIET, g, 0) && (forall h | h in QUIET.hubs :: Ready(QUIET.hubs[h], g, 0) && Inv(QUIET.hubs[h], 0))
    ensures Enabled(QUIET, REPORTED, g, 1) && Reliable(TOPO, QUIET, REPORTED, g)
    ensures V1Event(TOPO, {HOST_LINK}, QUIET, REPORTED, g)
    ensures Next(QUIET, REPORTED, g) == QUIET.(flight := [Msg(0, 1, V1)])
  {
  }

  /** Hub 0 hears the host. */
  lemma {:induction false} SecondEvent(g: Addr, net: Net)
    requires RoutableGroup(g) && net == QUIET.(flight := [Msg(0, 1, V1)])
    ensures NetOk(net, g, 0)
    ensures Enabled(net, PASSED_ON, g, 1) && Reliable(TOPO, net, PASSED_ON, g)
    ensures V1Event(TOPO, {HOST_LINK}, net, PASSED_ON, g)
    ensures var next := Next(net, PASSED_ON, g);
            next.hubs.Keys == {0, 1} && next.flight == [Msg(1, 1, V1)] && SettledHub(next, 0, g, 0) && next.hubs[1] == []
  {
    hide Receive, Inv, SentFor, Settled, EmitsOn;
    FirstEvent(g);
    ReceiveSettles([], net.flight[0], g, 0, 0);
    var c := Msg(1, 1, V1);
    assert SentOn(TOPO, 0, 2, c, g, PASSED_ON.ev.ports, Mld1Only);
    assert (PASSED_ON.ev.out[0].hub, PASSED_ON.ev.out[0].at) == (1, 1);
    assert Addressed(PASSED_ON.ev.out, (1, 1));
  }

  /** Hub 1 hears hub 0. */
  lemma {:induction false} ThirdEvent(g: Addr, net: Net)
    requires RoutableGroup(g) && NetOk(net, g, 0) && net.hubs.Keys == {0, 1} && net.flight == [Msg(1, 1, V1)]
    requires SettledHub(net, 0, g, 0)
    ensures Enabled(net, HEARD, g, 1) && Reliable(TOPO, net, HEARD, g)
    ensures V1Event(TOPO, {HOST_LINK}, net, HEARD, g)
    ensures var next := Next(net, HEARD, g);
            next.flight == [] && SettledHub(next, 0, g, 0) && SettledHub(next, 1, g, 0)
  {
    hide Receive, Inv, SentFor, Settled, EmitsOn;
    ReceiveSettles(net.hubs[1], net.flight[0], g, 0, 0);
  }

  /** The assumptions hold of this run, and the flood reaches both hubs. */
  lemma {:induction false} AssumptionsMet(g: Addr)
    requires RoutableGroup(g)
    ensures var es := [REPORTED, PASSED_ON, HEARD];
            && NetOk(QUIET, g, 0) && (forall h | h in QUIET.hubs :: Ready(QUIET.hubs[h], g, 0))
            && Legal(QUIET, es, g, 1, 0, 0) && ReliableRun(TOPO, QUIET, es, g) && V1Run(TOPO, {HOST_LINK}, QUIET, es, g)
            && RunNet(QUIET, es, g).flight == [] && Route(TOPO, [(0, 2), (1, 1)])
            && SettledHub(RunNet(QUIET, es, g), 0, g, 0) && SettledHub(RunNet(QUIET, es, g), 1, g, 0)
  {
    hide NetOk, Enabled, Reliable, V1Event, Next, SettledHub, Ready, Potential;
    var es := [REPORTED, PASSED_ON, HEARD];
    assert es[1..] == [PASSED_ON, HEARD] && [PASSED_ON, HEARD][1..] == [HEARD] && [HEARD][1..] == [];
    FirstEvent(g);
    var a := Next(QUIET, REPORTED, g);
    SecondEvent(g, a);
    var b := Next(a, PASSED_ON, g);
    DeliverFalls(a, PASSED_ON, g, 0, 1);
    ThirdEvent(g, b);
    var c := Next(b, HEARD, g);
    EndOfRun(c, g);
    assert Legal(b, [HEARD], g, 1, 0, 0) && ReliableRun(TOPO, b, [HEARD], g) && V1Run(TOPO, {HOST_LINK}, b, [HEARD], g);
    assert RunNet(b, [HEARD], g) == c;
    var rest := [PASSED_ON, HEARD];
    assert Legal(a, rest, g, 1, 0, 0) && ReliableRun(TOPO, a, rest, g) && V1Run(TOPO, {HOST_LINK}, a, rest, g);
    assert RunNet(a, rest, g) == c;
  }

  lemma {:induction false} EndOfRun(net: Net, g: Addr)
    ensures Legal(net, [], g, 1, 0, 0) && ReliableRun(TOPO, net, [], g) && V1Run(TOPO, {HOST_LINK}, net, [], g)
    ensures RunNet(net, [], g) == net
  {
  }
}
