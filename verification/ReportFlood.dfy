/** A network of hubs that re-originate each other's reports for one group `g`.

    Nothing is assumed about the topology: a re-broadcast may put any messages that name the group in
    flight, to any hubs, as long as there are at most `fan` of them. */
module ReportFlood {
  import opened Addresses
  import opened Database
  import opened Invariant
  import opened Handlers
  import opened Runs
  import opened Interfaces

  /** A report: MLDv1 for the group, or the records of an MLDv2 packet. */
  datatype Payload = V1 | V2(recs: seq<Record>)

  /** A report on its way to interface `at` of hub `hub`. */
  datatype Msg = Msg(hub: nat, at: nat, payload: Payload)

  datatype Net = Net(hubs: map<nat, DB>, flight: seq<Msg>)

  /** Records of an MLDv2 packet may name other groups as well. */
  predicate NamesGroup(recs: seq<Record>, g: Addr) {
    exists k | 0 <= k < |recs| :: recs[k].mca == g
  }

  predicate About(m: Msg, g: Addr) {
    m.payload.V2? ==> NamesGroup(m.payload.recs, g)
  }

  function Receive(db: DB, m: Msg, g: Addr, now: int): State {
    match m.payload
    case V1 => Report1(db, m.at, g, now)
    case V2(recs) => Records(State(db, false, []), m.at, recs, now)
  }

  /** How many of the re-broadcasts are for the group. */
  function SentFor(sent: seq<Sending>, g: Addr): nat {
    if sent == [] then 0 else SentFor(sent[..|sent| - 1], g) + if sent[|sent| - 1].mca == g then 1 else 0
  }

  lemma {:induction false} SentForSnoc(sent: seq<Sending>, x: Sending, g: Addr)
    ensures SentFor([], g) == 0
    ensures SentFor(sent + [x], g) == SentFor(sent, g) + if x.mca == g then 1 else 0
  {
    assert (sent + [x])[..|sent|] == sent;
  }

  // ----- one hub

  /** The hub has handled a report for the group since `start`. */
  predicate Settled(db: DB, g: Addr, start: int) {
    ForwardedAt(db, g).Some? && ForwardedAt(db, g).value >= start
  }

  /** The hub had not heard of the group during the 125 seconds before `start`. */
  predicate Ready(db: DB, g: Addr, start: int) {
    ForwardedAt(db, g).Some? ==> ForwardedAt(db, g).value + 125 <= start
  }

  predicate InWindow(now: int, start: int) {
    start <= now < start + 125
  }

  lemma {:induction false} JoinSettles(db: DB, g: Addr, i: nat, writes: seq<Write>, start: int, now: int)
    requires Inv(db, now) && InWindow(now, start) && !IsLocalGroup(g)
    requires forall w | w in writes :: ValidMode(w.mode)
    ensures var db' := JoinStep(db, g, i, writes, now); Inv(db', now) && Settled(db', g, start)
    ensures Settled(db, g, start) ==> !IsNew(db, g, now)
    ensures Ready(db, g, start) ==> IsNew(db, g, now)
  {
    hide Inv, JoinStep;
    ApplyOk(db, Join(g, i, writes), now, now);
    JoinForwardedAt(db, g, i, writes, now, g);
  }

  /** One record, which may be for another group. */
  lemma {:induction false} RecordSettles(st: State, i: nat, r: Record, g: Addr, start: int, now: int)
    requires Inv(st.db, now) && InWindow(now, start) && RoutableGroup(g)
    ensures var st' := RecordStep(st, i, r, now);
            && Inv(st'.db, now)
            && (if r.mca == g then
                  && Settled(st'.db, g, start)
                  && SentFor(st'.sent, g) == SentFor(st.sent, g) + (if IsNew(st.db, g, now) then 1 else 0)
                else ForwardedAt(st'.db, g) == ForwardedAt(st.db, g) && SentFor(st'.sent, g) == SentFor(st.sent, g))
    ensures Settled(st.db, g, start) ==> !IsNew(st.db, g, now)
    ensures Ready(st.db, g, start) ==> IsNew(st.db, g, now)
  {
    hide Inv, JoinStep, IsNew, Settled, Ready, WritesOf, SentFor, ForwardedAt;
    var st' := RecordStep(st, i, r, now);
    SentForSnoc(st.sent, Sending(r.mca, st'.db), g);
    JoinSettles(st.db, g, i, [Write(ANY, INCLUDE)], start, now);
    if !IsLocalGroup(r.mca) {
      JoinForwardedAt(st.db, r.mca, i, WritesOf(r), now, g);
      JoinSettles(st.db, r.mca, i, WritesOf(r), start, now);
    }
  }

  /** The records of a message, whatever groups they name. */
  lemma {:induction false} RecordsSettle(st: State, i: nat, recs: seq<Record>, g: Addr, start: int, now: int)
    requires Inv(st.db, now) && InWindow(now, start) && RoutableGroup(g)
    ensures var st', n := Records(st, i, recs, now), SentFor(st.sent, g);
            && Inv(st'.db, now)
            && (NamesGroup(recs, g) || Settled(st.db, g, start) ==> Settled(st'.db, g, start))
            && n <= SentFor(st'.sent, g) <= n + 1
            && (Settled(st.db, g, start) || !NamesGroup(recs, g) ==> SentFor(st'.sent, g) == n)
            && (Ready(st.db, g, start) && NamesGroup(recs, g) ==> SentFor(st'.sent, g) == n + 1)
    decreases |recs|
  {
    hide Inv, RecordStep, IsNew, WritesOf, SentFor, ForwardedAt;
    if recs != [] {
      var r, rest := recs[0], recs[1..];
      RecordSettles(st, i, r, g, start, now);
      RecordsSettle(RecordStep(st, i, r, now), i, rest, g, start, now);
      assert recs == [r] + rest;
      NamesCons(r, rest, g);
    }
  }

  lemma {:induction false} NamesCons(r: Record, rest: seq<Record>, g: Addr)
    ensures NamesGroup([r] + rest, g) <==> r.mca == g || NamesGroup(rest, g)
  {
    var recs := [r] + rest;
    assert recs[0] == r && forall k | 0 <= k < |rest| :: recs[k + 1] == rest[k];
    if k :| 0 <= k < |recs| && recs[k].mca == g {
      if k > 0 {
        var j := k - 1;
        assert rest[j] == recs[k];
      }
    }
  }

  /** A report that names the group settles the hub, a settled hub stays silent, and no message makes
      a hub re-broadcast the group twice. */
  lemma {:induction false} ReceiveSettles(db: DB, m: Msg, g: Addr, start: int, now: int)
    requires Inv(db, now) && InWindow(now, start) && RoutableGroup(g)
    ensures var st := Receive(db, m, g, now);
            && Inv(st.db, now)
            && (About(m, g) || Settled(db, g, start) ==> Settled(st.db, g, start))
            && SentFor(st.sent, g) <= 1
            && (Settled(db, g, start) || !About(m, g) ==> SentFor(st.sent, g) == 0)
            && (Ready(db, g, start) && About(m, g) ==> SentFor(st.sent, g) == 1)
  {
    hide Inv, JoinStep, IsNew, Settled, Ready, WritesOf, SentFor;
    SentForSnoc([], Sending(g, Receive(db, m, g, now).db), g);
    assert forall x: Sending :: [] + [x] == [x];
    match m.payload
    case V1 =>
      JoinSettles(db, g, m.at, [Write(ANY, INCLUDE)], start, now);
    case V2(recs) =>
      RecordsSettle(State(db, false, []), m.at, recs, g, start, now);
  }

  // ----- the network

  /** Either a message arrives, at a hub with interfaces `ports`, a hub makes some other step,
      or hosts send reports of their own. */
  datatype Event =
    | Deliver(k: nat, out: seq<Msg>, ports: Table, mode: Mode)
    | Local(hub: nat, op: Op)
    | Inject(msgs: seq<Msg>)

  datatype Timed = Timed(now: int, ev: Event)

  ghost predicate MsgsOk(net: Net, msgs: seq<Msg>, g: Addr) {
    forall m | m in msgs :: m.hub in net.hubs && About(m, g)
  }

  ghost predicate Enabled(net: Net, e: Timed, g: Addr, fan: nat) {
    match e.ev
    case Deliver(k, out, ports, mode) =>
      && k < |net.flight| && net.flight[k].hub in net.hubs
      && MsgsOk(net, out, g)
      && |out| <= fan * SentFor(Receive(net.hubs[net.flight[k].hub], net.flight[k], g, e.now).sent, g)
    case Local(hub, op) =>
      && hub in net.hubs && OpOk(op) && !JoinsGroup(op, g)
      && (Present(net.hubs[hub], g) ==> Present(Apply(net.hubs[hub], op, e.now), g))
    case Inject(msgs) => MsgsOk(net, msgs, g)
  }

  function Next(net: Net, e: Timed, g: Addr): Net {
    match e.ev
    case Deliver(k, out, ports, mode) =>
      if k < |net.flight| && net.flight[k].hub in net.hubs then
        var m := net.flight[k];
        Net(net.hubs[m.hub := Receive(net.hubs[m.hub], m, g, e.now).db],
            net.flight[..k] + net.flight[k + 1..] + out)
      else net
    case Local(hub, op) =>
      if hub in net.hubs then net.(hubs := net.hubs[hub := Apply(net.hubs[hub], op, e.now)]) else net
    case Inject(msgs) => net.(flight := net.flight + msgs)
  }

  ghost predicate NetOk(net: Net, g: Addr, t: int) {
    (forall h | h in net.hubs :: Inv(net.hubs[h], t)) && MsgsOk(net, net.flight, g)
  }

  /** Hubs that have yet to handle a report. */
  function Unsettled(net: Net, g: Addr, start: int): set<nat> {
    set h | h in net.hubs && !Settled(net.hubs[h], g, start)
  }

  /** Reports in flight, plus those that hubs yet to broadcast can still send. */
  function Potential(net: Net, g: Addr, start: int, fan: nat): nat {
    |net.flight| + fan * |Unsettled(net, g, start)|
  }

  lemma {:induction false} UnsettledUpdate(net: Net, hub: nat, db: DB, g: Addr, start: int)
    requires hub in net.hubs
    ensures var net' := net.(hubs := net.hubs[hub := db]);
            Unsettled(net', g, start) ==
              if Settled(db, g, start) then Unsettled(net, g, start) - {hub} else Unsettled(net, g, start) + {hub}
  {
    hide Settled;
  }

  lemma {:induction false} DeliverFalls(net: Net, e: Timed, g: Addr, start: int, fan: nat)
    requires NetOk(net, g, e.now) && InWindow(e.now, start) && RoutableGroup(g)
    requires e.ev.Deliver? && Enabled(net, e, g, fan)
    ensures NetOk(Next(net, e, g), g, e.now)
    ensures Potential(Next(net, e, g), g, start, fan) < Potential(net, g, start, fan)
  {
    hide Inv, Receive, Settled, About, Unsettled;
    var m := net.flight[e.ev.k];
    assert m in net.flight;
    var db := net.hubs[m.hub];
    ReceiveSettles(db, m, g, start, e.now);
    var db' := Receive(db, m, g, e.now).db;
    UnsettledUpdate(net, m.hub, db', g, start);
    var before, after := Unsettled(net, g, start), Unsettled(Next(net, e, g), g, start);
    UnsettledHubs(net, Next(net, e, g), net.(hubs := net.hubs[m.hub := db']), g, start);
    if Settled(db, g, start) {
      assert |e.ev.out| == 0;
      assert after <= before;
      SubsetSize(after, before);
    } else {
      NotSettled(net, m.hub, g, start);
      assert |after| == |before| - 1;
      assert |e.ev.out| <= fan by {
        var n := SentFor(Receive(db, m, g, e.now).sent, g);
        assert n == 0 || n == 1;
      }
      assert fan * |before| == fan * |after| + fan;
    }
    assert fan * |after| <= fan * |before|;
  }

  lemma {:induction false} UnsettledHubs(net: Net, a: Net, b: Net, g: Addr, start: int)
    requires a.hubs == b.hubs
    ensures Unsettled(a, g, start) == Unsettled(b, g, start)
  {
  }

  lemma {:induction false} NotSettled(net: Net, hub: nat, g: Addr, start: int)
    requires hub in net.hubs && !Settled(net.hubs[hub], g, start)
    ensures hub in Unsettled(net, g, start)
  {
  }

  lemma {:induction false} SubsetSize(a: set<nat>, b: set<nat>)
    requires a <= b
    ensures |a| <= |b|
    decreases |b|
  {
    if a != {} {
      var x :| x in a;
      SubsetSize(a - {x}, b - {x});
    }
  }

  lemma {:induction false} LocalKeeps(db: DB, op: Op, g: Addr, start: int, now: int)
    requires Inv(db, now) && OpOk(op) && !JoinsGroup(op, g)
    requires Present(db, g) ==> Present(Apply(db, op, now), g)
    ensures Inv(Apply(db, op, now), now)
    ensures Settled(db, g, start) <==> Settled(Apply(db, op, now), g, start)
    ensures Ready(db, g, start) ==> Ready(Apply(db, op, now), g, start)
  {
    hide Apply, Inv;
    ApplyOk(db, op, now, now);
    ForwardedAtAfter(db, op, g, now);
  }

  lemma {:induction false} OtherKeeps(net: Net, e: Timed, g: Addr, start: int, fan: nat)
    requires NetOk(net, g, e.now) && !e.ev.Deliver? && Enabled(net, e, g, fan)
    ensures NetOk(Next(net, e, g), g, e.now)
    ensures Unsettled(Next(net, e, g), g, start) <= Unsettled(net, g, start)
    ensures |Next(net, e, g).flight| == |net.flight| + (if e.ev.Inject? then |e.ev.msgs| else 0)
  {
    hide Inv, Settled, About, Apply, Present;
    if e.ev.Local? {
      LocalKeeps(net.hubs[e.ev.hub], e.ev.op, g, start, e.now);
    }
  }

  lemma {:induction false} OtherFalls(net: Net, e: Timed, g: Addr, start: int, fan: nat)
    requires NetOk(net, g, e.now) && !e.ev.Deliver? && Enabled(net, e, g, fan)
    ensures NetOk(Next(net, e, g), g, e.now)
    ensures Potential(Next(net, e, g), g, start, fan) <=
            Potential(net, g, start, fan) + (if e.ev.Inject? then |e.ev.msgs| else 0)
  {
    hide NetOk, Enabled, Next, Unsettled;
    OtherKeeps(net, e, g, start, fan);
    var before, after := Unsettled(net, g, start), Unsettled(Next(net, e, g), g, start);
    SubsetSize(after, before);
    assert fan * |after| <= fan * |before|;
  }

  /** The events follow one another, all of them less than 125 seconds after `start`. */
  ghost predicate Legal(net: Net, es: seq<Timed>, g: Addr, fan: nat, start: int, t: int)
    decreases |es|
  {
    es != [] ==>
      && t <= es[0].now && InWindow(es[0].now, start) && Enabled(net, es[0], g, fan)
      && Legal(Next(net, es[0], g), es[1..], g, fan, start, es[0].now)
  }

  function RunNet(net: Net, es: seq<Timed>, g: Addr): Net
    decreases |es|
  {
    if es == [] then net else RunNet(Next(net, es[0], g), es[1..], g)
  }

  function Deliveries(es: seq<Timed>): nat {
    if es == [] then 0 else (if es[0].ev.Deliver? then 1 else 0) + Deliveries(es[1..])
  }

  function Injected(es: seq<Timed>): nat {
    if es == [] then 0 else (if es[0].ev.Inject? then |es[0].ev.msgs| else 0) + Injected(es[1..])
  }

  lemma {:induction false} NetLater(net: Net, g: Addr, t: int, now: int)
    requires NetOk(net, g, t) && t <= now
    ensures NetOk(net, g, now)
  {
    hide Inv;
    forall h | h in net.hubs ensures Inv(net.hubs[h], now) {
      InvLater(net.hubs[h], t, now);
    }
  }

  /** Flooding stops: within 125 seconds the number of deliveries is bounded by what is in flight
      and injected plus one broadcast for each hub, whatever the topology. */
  lemma {:induction false} FloodStops(net: Net, es: seq<Timed>, g: Addr, fan: nat, start: int, t: int)
    requires NetOk(net, g, t) && RoutableGroup(g) && Legal(net, es, g, fan, start, t)
    ensures Deliveries(es) + Potential(RunNet(net, es, g), g, start, fan) <=
            Potential(net, g, start, fan) + Injected(es)
    decreases |es|
  {
    hide NetOk, Enabled, Next, Unsettled, Potential;
    if es != [] {
      var e := es[0];
      NetLater(net, g, t, e.now);
      if e.ev.Deliver? {
        DeliverFalls(net, e, g, start, fan);
      } else {
        OtherFalls(net, e, g, start, fan);
      }
      FloodStops(Next(net, e, g), es[1..], g, fan, start, e.now);
    }
  }

  /** How often a hub re-broadcasts the group during a run. */
  function Broadcasts(net: Net, es: seq<Timed>, g: Addr, hub: nat): nat
    decreases |es|
  {
    if es == [] then 0
    else (if Rebroadcasts(net, es[0], g, hub) then 1 else 0) + Broadcasts(Next(net, es[0], g), es[1..], g, hub)
  }

  predicate Rebroadcasts(net: Net, e: Timed, g: Addr, hub: nat) {
    && e.ev.Deliver? && e.ev.k < |net.flight| && net.flight[e.ev.k].hub == hub && hub in net.hubs
    && SentFor(Receive(net.hubs[hub], net.flight[e.ev.k], g, e.now).sent, g) > 0
  }

  lemma {:induction false} HubAfter(net: Net, e: Timed, g: Addr, start: int, fan: nat, hub: nat)
    requires NetOk(net, g, e.now) && InWindow(e.now, start) && RoutableGroup(g) && Enabled(net, e, g, fan)
    requires hub in net.hubs
    ensures var net' := Next(net, e, g);
            && NetOk(net', g, e.now) && hub in net'.hubs
            && (Settled(net.hubs[hub], g, start) ==>
                  Settled(net'.hubs[hub], g, start) && !Rebroadcasts(net, e, g, hub))
            && (Rebroadcasts(net, e, g, hub) ==> Settled(net'.hubs[hub], g, start))
  {
    hide Inv, Receive, Settled, About, Apply, Present, Unsettled, Potential;
    match e.ev
    case Deliver(k, out, ports, mode) =>
      DeliverFalls(net, e, g, start, fan);
      assert net.flight[k] in net.flight;
      ReceiveSettles(net.hubs[net.flight[k].hub], net.flight[k], g, start, e.now);
    case Local(h, op) =>
      OtherFalls(net, e, g, start, fan);
      LocalKeeps(net.hubs[h], op, g, start, e.now);
    case Inject(msgs) =>
      OtherFalls(net, e, g, start, fan);
  }

  /** Each hub re-broadcasts the group at most once, and not at all once it has handled a report. */
  lemma {:induction false} BroadcastsOnce(net: Net, es: seq<Timed>, g: Addr, fan: nat, start: int, t: int, hub: nat)
    requires NetOk(net, g, t) && RoutableGroup(g) && Legal(net, es, g, fan, start, t) && hub in net.hubs
    ensures Broadcasts(net, es, g, hub) <= 1
    ensures Settled(net.hubs[hub], g, start) ==> Broadcasts(net, es, g, hub) == 0
    decreases |es|
  {
    hide NetOk, Enabled, Next, Settled, Rebroadcasts;
    if es != [] {
      NetLater(net, g, t, es[0].now);
      HubAfter(net, es[0], g, start, fan, hub);
      BroadcastsOnce(Next(net, es[0], g), es[1..], g, fan, start, es[0].now, hub);
    }
  }
}
