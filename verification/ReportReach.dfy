/** How far reports for one group get in a network of hubs: what a re-broadcast really puts on each
    link, and, over links that deliver it, which hubs end up with the group. */
module ReportReach {
  import opened Addresses
  import opened Database
  import opened Invariant
  import opened Forwarding
  import opened Handlers
  import opened Runs
  import opened Interfaces
  import opened Reporting
  import opened ReportFlood
  import ReportSplit

  // ----- what one hub emits

  /** The record leaves its interface with an INCLUDE entry. */
  predicate AsksSomething(r: Record) {
    (r.kind == 2 || r.kind == 4 || r.kind == 6) <==> r.srcs == []
  }

  /** The first record for the group asks for something. */
  predicate FirstAsks(recs: seq<Record>, g: Addr) {
    recs != [] && if recs[0].mca == g then AsksSomething(recs[0]) else FirstAsks(recs[1..], g)
  }

  predicate Asks(m: Msg, g: Addr) {
    m.payload.V2? ==> FirstAsks(m.payload.recs, g)
  }

  /** Some re-broadcast of the group puts a packet on the port. */
  ghost predicate EmitsOn(sent: seq<Sending>, g: Addr, port: Intf, mode: Mode) {
    exists n | 0 <= n < |sent| :: sent[n].mca == g && Emits(sent[n].db, g, port, mode)
  }

  /** A report for the group as it leaves on a port. */
  ghost predicate Leaves(p: Payload, g: Addr, port: Intf, mode: Mode) {
    match p
    case V1 => SendsV1(port, mode)
    case V2(recs) => SendsV2(port, mode) && recs != [] && forall k | 0 <= k < |recs| :: ReportSplit.Reportable(recs[k], g)
  }

  lemma {:induction false} FirstAsksNames(recs: seq<Record>, g: Addr)
    requires FirstAsks(recs, g)
    ensures NamesGroup(recs, g)
  {
    if recs[0].mca != g {
      FirstAsksNames(recs[1..], g);
      NamesCons(recs[0], recs[1..], g);
      assert recs == [recs[0]] + recs[1..];
    }
  }

  lemma {:induction false} LeavesAsks(m: Msg, g: Addr, port: Intf, mode: Mode)
    requires Leaves(m.payload, g, port, mode)
    ensures Asks(m, g)
  {
  }

  lemma {:induction false} SentGrows(st: State, i: nat, recs: seq<Record>, now: int)
    ensures st.sent <= Records(st, i, recs, now).sent
    decreases |recs|
  {
    hide JoinStep, IsNew, WritesOf;
    if recs != [] {
      SentGrows(RecordStep(st, i, recs[0], now), i, recs[1..], now);
    }
  }

  /** The report a record gives rise to is made from a database in which the record stands. */
  lemma {:induction false} StepIncludes(st: State, i: nat, r: Record, g: Addr, start: int, now: int) returns (s: Addr)
    requires Inv(st.db, now) && InWindow(now, start) && RoutableGroup(g) && Ready(st.db, g, start)
    requires r.mca == g && AsksSomething(r)
    ensures var st' := RecordStep(st, i, r, now);
            st'.sent == st.sent + [Sending(g, st'.db)] && Inv(st'.db, now) && Included(st'.db, g, i, s)
  {
    hide Inv, JoinStep, IsNew, Ready, Lookup, WritesOf, SentFor, ForwardedAt;
    RecordSettles(st, i, r, g, start, now);
    s := if r.srcs == [] then ANY else r.srcs[0];
    RecordMeaning(st.db, i, r, s, now);
  }

  lemma {:induction false} RecordsInclude(st: State, i: nat, recs: seq<Record>, g: Addr, start: int, now: int)
    returns (n: nat, s: Addr)
    requires Inv(st.db, now) && InWindow(now, start) && RoutableGroup(g) && Ready(st.db, g, start)
    requires FirstAsks(recs, g)
    ensures var sent := Records(st, i, recs, now).sent;
            n < |sent| && sent[n].mca == g && Inv(sent[n].db, now) && Included(sent[n].db, g, i, s)
    decreases |recs|
  {
    hide Inv, RecordStep, IsNew, Included, SentFor, ForwardedAt;
    var r, rest := recs[0], recs[1..];
    var st1 := RecordStep(st, i, r, now);
    if r.mca == g {
      s := StepIncludes(st, i, r, g, start, now);
      n := |st.sent|;
      SentGrows(st1, i, rest, now);
      assert st1.sent[n] == Records(st1, i, rest, now).sent[n];
    } else {
      RecordSettles(st, i, r, g, start, now);
      n, s := RecordsInclude(st1, i, rest, g, start, now);
    }
  }

  /** A hub that has not heard of the group lately, and is asked for something, emits a report on every
      other port. */
  lemma {:induction false} AskingEmits(db: DB, m: Msg, g: Addr, port: Intf, mode: Mode, start: int, now: int)
    requires Inv(db, now) && InWindow(now, start) && RoutableGroup(g) && Ready(db, g, start)
    requires Asks(m, g) && port.ifindex != m.at && MldOk(port.mld, mode)
    ensures EmitsOn(Receive(db, m, g, now).sent, g, port, mode)
  {
    hide Inv, Records, Included, Emits, IsNew, JoinStep, Ready;
    var sent := Receive(db, m, g, now).sent;
    var n: nat, s: Addr;
    match m.payload {
      case V1 =>
        n, s := V1Includes(db, m, g, start, now);
      case V2(recs) =>
        n, s := RecordsInclude(State(db, false, []), m.at, recs, g, start, now);
    }
    EmissionExactly(sent[n].db, g, port, mode, now);
    assert Included(sent[n].db, g, m.at, s);
  }

  lemma {:induction false} V1Includes(db: DB, m: Msg, g: Addr, start: int, now: int) returns (n: nat, s: Addr)
    requires Inv(db, now) && InWindow(now, start) && RoutableGroup(g) && Ready(db, g, start) && m.payload.V1?
    ensures var sent := Receive(db, m, g, now).sent;
            n < |sent| && sent[n].mca == g && Inv(sent[n].db, now) && Included(sent[n].db, g, m.at, s)
  {
    hide Inv, JoinStep, IsNew, Lookup, Ready;
    n, s := 0, ANY;
    var r := Record(IS_EXCLUDE, g, []);
    JoinSettles(db, g, m.at, WritesOf(r), start, now);
    RecordMeaning(db, m.at, r, ANY, now);
    assert WritesOf(r) == [Write(ANY, INCLUDE)];
  }

  // ----- demand that is not passed on

  lemma {:induction false} AbsentNothing(db: DB, g: Addr, i: nat, s: Addr)
    requires !Present(db, g)
    ensures Lookup(db, g, i, s) == None
  {
  }

  /** The first report for a group, if it is a single record, goes out again on a port where only MLDv2
      is spoken exactly when it asks for something. */
  lemma {:induction false} FirstReportEmits(db: DB, r: Record, i: nat, port: Intf, mode: Mode, now: int)
    requires Inv(db, now) && !IsLocalGroup(r.mca) && !Present(db, r.mca)
    requires port.ifindex != i && MldOk(port.mld, mode)
    ensures var st := Records(State(db, false, []), i, [r], now);
            && st.sent == [Sending(r.mca, st.db)]
            && (Emits(st.db, r.mca, port, mode) <==> SendsV1(port, mode) || AsksSomething(r))
  {
    hide Inv, JoinStep, Lookup, WritesOf, Emits, Reports;
    var g := r.mca;
    var st0 := State(db, false, []);
    var st := Records(st0, i, [r], now);
    RecordsSnoc(st0, i, [], r, now);
    assert [] + [r] == [r] && IsNew(db, g, now);
    var db' := JoinStep(db, g, i, WritesOf(r), now);
    assert st.db == db';
    ApplyOk(db, Join(g, i, WritesOf(r)), now, now);
    EmissionExactly(db', g, port, mode, now);
    if AsksSomething(r) {
      var s := if r.srcs == [] then ANY else r.srcs[0];
      RecordMeaning(db, i, r, s, now);
      assert Included(db', g, i, s);
    } else {
      forall j: nat, s: Addr ensures !Included(db', g, j, s) {
        NotIncluded(db, i, r, j, s, now);
      }
    }
  }

  lemma {:induction false} NotIncluded(db: DB, i: nat, r: Record, j: nat, s: Addr, now: int)
    requires Inv(db, now) && !IsLocalGroup(r.mca) && !Present(db, r.mca) && !AsksSomething(r)
    ensures !Included(JoinStep(db, r.mca, i, WritesOf(r), now), r.mca, j, s)
  {
    hide Inv, JoinStep, Lookup, Present;
    AbsentNothing(db, r.mca, j, s);
    if j == i {
      RecordMeaning(db, i, r, s, now);
    } else {
      LookupAfter(db, Join(r.mca, i, WritesOf(r)), r.mca, j, s, now, now);
    }
  }

  /** "All sources but `s`" as the first thing heard of a group: the hub re-broadcasts it, nothing leaves
      on a port where only MLDv2 is spoken, and for the next 125 seconds the hub does not re-broadcast
      whatever else it hears of the group. */
  lemma {:induction false} ExclusionSilences(g: Addr, s: Addr, i: nat, port: Intf, mode: Mode, now: int, m: Msg,
                                             later: int)
    requires RoutableGroup(g) && port.ifindex != i && MldOk(port.mld, mode) && !SendsV1(port, mode)
    requires now <= later < now + 125
    ensures var st := Receive([], Msg(0, i, V2([Record(IS_EXCLUDE, g, [s])])), g, now);
            && st.sent == [Sending(g, st.db)] && !EmitsOn(st.sent, g, port, mode)
            && SentFor(Receive(st.db, m, g, later).sent, g) == 0
  {
    hide Records, Emits, Settled, SentFor;
    var r := Record(IS_EXCLUDE, g, [s]);
    var first := Msg(0, i, V2([r]));
    var st := Receive([], first, g, now);
    FirstReportEmits([], r, i, port, mode, now);
    NamesCons(r, [], g);
    assert [r] + [] == [r];
    ReceiveSettles([], first, g, now, now);
    InvLater(st.db, now, later);
    ReceiveSettles(st.db, m, g, now, later);
  }

  // ----- links that deliver

  /** An attachment is a hub and one of its interfaces; attachments with the same link hear each
      other. */
  datatype Topology = Topology(atts: set<(nat, nat)>, link: (nat, nat) -> nat)

  predicate Peers(topo: Topology, a: (nat, nat), b: (nat, nat)) {
    a in topo.atts && b in topo.atts && a != b && topo.link(a.0, a.1) == topo.link(b.0, b.1)
  }

  predicate Addressed(msgs: seq<Msg>, b: (nat, nat)) {
    exists k | 0 <= k < |msgs| :: (msgs[k].hub, msgs[k].at) == b
  }

  /** The attachments of a hub are live interfaces of its own. */
  ghost predicate PortsOk(topo: Topology, hub: nat, ports: Table, mode: Mode) {
    forall i: nat | (hub, i) in topo.atts :: i in ports && ports[i].ifindex == i && MldOk(ports[i].mld, mode)
  }

  /** Message `c` is a report that hub `hub` sent on its interface `i`. */
  ghost predicate SentOn(topo: Topology, hub: nat, i: nat, c: Msg, g: Addr, ports: Table, mode: Mode) {
    Peers(topo, (hub, i), (c.hub, c.at)) && i in ports && Leaves(c.payload, g, ports[i], mode)
  }

  /** What a hub emits on a link arrives at the other hubs there, and nothing else does; a report from
      a host asks for something and is heard by every hub on its link. */
  ghost predicate Reliable(topo: Topology, net: Net, e: Timed, g: Addr) {
    match e.ev
    case Deliver(k, out, ports, mode) =>
      k < |net.flight| && net.flight[k].hub in net.hubs &&
      var m := net.flight[k];
      var sent := Receive(net.hubs[m.hub], m, g, e.now).sent;
      && PortsOk(topo, m.hub, ports, mode)
      && (forall c | c in out :: exists i | i != m.at :: SentOn(topo, m.hub, i, c, g, ports, mode))
      && (forall i, b | i != m.at && i in ports && Peers(topo, (m.hub, i), b) && EmitsOn(sent, g, ports[i], mode) ::
            Addressed(out, b))
    case Local(hub, op) => true
    case Inject(msgs) =>
      && (forall m | m in msgs :: Asks(m, g))
      && (forall m, b | m in msgs && Peers(topo, (m.hub, m.at), b) :: Addressed(msgs, b))
  }

  ghost predicate SettledHub(net: Net, hub: nat, g: Addr, start: int) {
    hub in net.hubs && Settled(net.hubs[hub], g, start)
  }

  ghost predicate Covered(net: Net, b: (nat, nat), g: Addr, start: int) {
    SettledHub(net, b.0, g, start) || Addressed(net.flight, b)
  }

  /** The peers of a settled hub, and of a message's destination, are settled or about to be, and every
      message asks for something. */
  ghost predicate Spreading(topo: Topology, net: Net, g: Addr, start: int) {
    && (forall a, b | Peers(topo, a, b) && SettledHub(net, a.0, g, start) :: Covered(net, b, g, start))
    && (forall m, b | m in net.flight && Peers(topo, (m.hub, m.at), b) :: Covered(net, b, g, start))
    && (forall h | h in net.hubs :: Settled(net.hubs[h], g, start) || Ready(net.hubs[h], g, start))
    && (forall m | m in net.flight :: Asks(m, g))
  }

  lemma {:induction false} AddressedAppend(msgs: seq<Msg>, more: seq<Msg>, b: (nat, nat))
    ensures Addressed(msgs + more, b) <==> Addressed(msgs, b) || Addressed(more, b)
  {
    if k :| 0 <= k < |msgs| && (msgs[k].hub, msgs[k].at) == b {
      assert (msgs + more)[k] == msgs[k];
    }
    if k :| 0 <= k < |more| && (more[k].hub, more[k].at) == b {
      assert (msgs + more)[|msgs| + k] == more[k];
    }
  }

  lemma {:induction false} AddressedWithout(msgs: seq<Msg>, k: nat, b: (nat, nat))
    requires k < |msgs| && (msgs[k].hub, msgs[k].at) != b
    ensures Addressed(msgs, b) ==> Addressed(msgs[..k] + msgs[k + 1..], b)
  {
    if j :| 0 <= j < |msgs| && (msgs[j].hub, msgs[j].at) == b {
      assert (msgs[..k] + msgs[k + 1..])[if j < k then j else j - 1] == msgs[j];
    }
  }

  /** What a delivery does to the peers of the hub it settles. */
  lemma {:induction false} DeliverCovers(net: Net, e: Timed, g: Addr, start: int, fan: nat, b: (nat, nat))
    requires NetOk(net, g, e.now) && InWindow(e.now, start) && RoutableGroup(g)
    requires e.ev.Deliver? && Enabled(net, e, g, fan)
    ensures SettledHub(Next(net, e, g), net.flight[e.ev.k].hub, g, start)
    ensures Covered(net, b, g, start) ==> Covered(Next(net, e, g), b, g, start)
  {
    hide Inv, Receive, Settled, About, SentFor;
    var k := e.ev.k;
    var m := net.flight[k];
    assert m in net.flight;
    ReceiveSettles(net.hubs[m.hub], m, g, start, e.now);
    if b != (m.hub, m.at) {
      AddressedWithout(net.flight, k, b);
      AddressedAppend(net.flight[..k] + net.flight[k + 1..], e.ev.out, b);
    }
  }

  /** A hub that a message settles has every peer on its other links addressed. */
  lemma {:induction false} DeliverAddresses(topo: Topology, net: Net, e: Timed, g: Addr, start: int, fan: nat, i: nat,
                                            b: (nat, nat))
    requires NetOk(net, g, e.now) && InWindow(e.now, start) && RoutableGroup(g)
    requires e.ev.Deliver? && Enabled(net, e, g, fan) && Reliable(topo, net, e, g) && Spreading(topo, net, g, start)
    requires !SettledHub(net, net.flight[e.ev.k].hub, g, start)
    requires i != net.flight[e.ev.k].at && Peers(topo, (net.flight[e.ev.k].hub, i), b)
    ensures Addressed(e.ev.out, b)
  {
    hide Inv, Receive, Settled, Ready, About, Asks, SentFor, EmitsOn, Covered, SentOn;
    var m := net.flight[e.ev.k];
    assert m in net.flight && (m.hub, i) in topo.atts;
    AskingEmits(net.hubs[m.hub], m, g, e.ev.ports[i], e.ev.mode, start, e.now);
  }

  lemma {:induction false} DeliverSpreads(topo: Topology, net: Net, e: Timed, g: Addr, start: int, fan: nat)
    requires NetOk(net, g, e.now) && InWindow(e.now, start) && RoutableGroup(g)
    requires e.ev.Deliver? && Enabled(net, e, g, fan) && Reliable(topo, net, e, g)
    requires Spreading(topo, net, g, start)
    ensures Spreading(topo, Next(net, e, g), g, start)
  {
    hide Inv, Receive, Settled, About, Covered, Addressed, Ready, Peers, Asks, Leaves, EmitsOn, SentFor, PortsOk;
    var k, out := e.ev.k, e.ev.out;
    var m := net.flight[k];
    var net' := Next(net, e, g);
    assert m in net.flight;
    ReceiveSettles(net.hubs[m.hub], m, g, start, e.now);
    forall b ensures Covered(net, b, g, start) ==> Covered(net', b, g, start) {
      DeliverCovers(net, e, g, start, fan, b);
    }
    forall a, b | Peers(topo, a, b) && SettledHub(net', a.0, g, start) ensures Covered(net', b, g, start) {
      if !SettledHub(net, a.0, g, start) {
        assert a.0 == m.hub;
        if a.1 == m.at {
          assert Peers(topo, (m.hub, m.at), b);
        } else {
          assert Peers(topo, (m.hub, a.1), b);
          DeliverAddresses(topo, net, e, g, start, fan, a.1, b);
          OutCovers(net', net.flight[..k] + net.flight[k + 1..], out, b, g, start);
        }
      }
    }
    forall c | c in net'.flight
      ensures Asks(c, g) && forall b | Peers(topo, (c.hub, c.at), b) :: Covered(net', b, g, start)
    {
      if c !in net.flight {
        assert c in out;
        var i :| i != m.at && SentOn(topo, m.hub, i, c, g, e.ev.ports, e.ev.mode);
        LeavesAsks(c, g, e.ev.ports[i], e.ev.mode);
        forall b | Peers(topo, (c.hub, c.at), b) ensures Covered(net', b, g, start) {
          PeersMeet(topo, (m.hub, i), (c.hub, c.at), b);
          if b == (m.hub, i) {
            SettledCovers(net', b, g, start);
          } else {
            assert SettledHub(net', m.hub, g, start);
            assert Covered(net', b, g, start);
          }
        }
      }
    }
  }

  lemma {:induction false} PeersMeet(topo: Topology, a: (nat, nat), c: (nat, nat), b: (nat, nat))
    requires Peers(topo, a, c) && Peers(topo, c, b)
    ensures b == a || Peers(topo, a, b)
  {
  }

  lemma {:induction false} SettledCovers(net: Net, b: (nat, nat), g: Addr, start: int)
    requires SettledHub(net, b.0, g, start)
    ensures Covered(net, b, g, start)
  {
  }

  lemma {:induction false} OutCovers(net: Net, rest: seq<Msg>, out: seq<Msg>, b: (nat, nat), g: Addr, start: int)
    requires net.flight == rest + out && Addressed(out, b)
    ensures Covered(net, b, g, start)
  {
    AddressedAppend(rest, out, b);
  }

  lemma {:induction false} OtherSpreads(topo: Topology, net: Net, e: Timed, g: Addr, start: int, fan: nat)
    requires NetOk(net, g, e.now) && !e.ev.Deliver? && Enabled(net, e, g, fan) && Reliable(topo, net, e, g)
    requires Spreading(topo, net, g, start)
    ensures Spreading(topo, Next(net, e, g), g, start)
  {
    hide Inv, Settled, About, Addressed, Ready, Peers, Apply, Present, Asks;
    var net' := Next(net, e, g);
    if e.ev.Local? {
      LocalKeeps(net.hubs[e.ev.hub], e.ev.op, g, start, e.now);
    } else {
      forall b {
        AddressedAppend(net.flight, e.ev.msgs, b);
      }
    }
    assert forall h :: SettledHub(net', h, g, start) <==> SettledHub(net, h, g, start);
    assert forall b | Covered(net, b, g, start) :: Covered(net', b, g, start);
  }

  ghost predicate ReliableRun(topo: Topology, net: Net, es: seq<Timed>, g: Addr)
    decreases |es|
  {
    es != [] ==> Reliable(topo, net, es[0], g) && ReliableRun(topo, Next(net, es[0], g), es[1..], g)
  }

  lemma {:induction false} RunSpreads(topo: Topology, net: Net, es: seq<Timed>, g: Addr, fan: nat, start: int, t: int)
    requires NetOk(net, g, t) && RoutableGroup(g) && Spreading(topo, net, g, start)
    requires Legal(net, es, g, fan, start, t) && ReliableRun(topo, net, es, g)
    ensures Spreading(topo, RunNet(net, es, g), g, start)
    decreases |es|
  {
    hide NetOk, Enabled, Next, Reliable, Spreading, Unsettled, Potential;
    if es != [] {
      var e := es[0];
      NetLater(net, g, t, e.now);
      if e.ev.Deliver? {
        DeliverFalls(net, e, g, start, fan);
        DeliverSpreads(topo, net, e, g, start, fan);
      } else {
        OtherFalls(net, e, g, start, fan);
        OtherSpreads(topo, net, e, g, start, fan);
      }
      RunSpreads(topo, Next(net, e, g), es[1..], g, fan, start, e.now);
    }
  }

  /** A route goes from attachment to attachment over links and through hubs. */
  ghost predicate Route(topo: Topology, path: seq<(nat, nat)>) {
    forall k | 0 <= k < |path| - 1 :: path[k].0 == path[k + 1].0 || Peers(topo, path[k], path[k + 1])
  }

  /** Reach: if hosts ask for something, and what the hubs emit is delivered, then, when the reports for
      the group have drained, the group is in the database of every hub on every route from a hub that
      handled one of them. */
  lemma {:induction false} FloodReaches(topo: Topology, net: Net, es: seq<Timed>, g: Addr, fan: nat, start: int, t: int,
                                        path: seq<(nat, nat)>, k: nat)
    requires NetOk(net, g, t) && RoutableGroup(g) && net.flight == []
    requires forall h | h in net.hubs :: Ready(net.hubs[h], g, start)
    requires Legal(net, es, g, fan, start, t) && ReliableRun(topo, net, es, g)
    requires RunNet(net, es, g).flight == [] && Route(topo, path) && k < |path|
    requires SettledHub(RunNet(net, es, g), path[0].0, g, start)
    ensures SettledHub(RunNet(net, es, g), path[k].0, g, start)
    ensures Present(RunNet(net, es, g).hubs[path[k].0], g)
    decreases k
  {
    hide NetOk, Enabled, Next, Reliable, Legal, ReliableRun, RunNet;
    if k > 0 {
      var p := k - 1;
      FloodReaches(topo, net, es, g, fan, start, t, path, p);
      RunSpreads(topo, net, es, g, fan, start, t);
      assert path[p].0 == path[p + 1].0 || Peers(topo, path[p], path[p + 1]);
    }
  }
}
