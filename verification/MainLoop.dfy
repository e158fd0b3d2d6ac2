/** The daemon's main loop on the heap, from an empty database: whatever arrives, and whatever the
    system answers, the linked lists and the interface table hold what the history calls for, and
    every data packet is forwarded accordingly. */
module MainLoop {
  import opened Addresses
  import opened Database
  import opened Invariant
  import opened Forwarding
  import opened Handlers
  import opened Hub
  import opened Interfaces
  import opened Messages
  import opened Reporting
  import opened Rounds
  import opened Runs
  import opened Wire
  import Daemon
  import Forwarder

  /** The configured mode, and what the system answers during event k: `probe(k)(n)` to interface lookup
      n, `result(k)(n)(i)` to a send on interface i in round n. */
  datatype Env = Env(mode: Mode, probe: nat -> (nat -> Probe), result: nat -> (nat -> (nat -> SendResult)))

  /** The state of the daemon as a value. */
  datatype World = World(db: DB, table: Table)

  /** What one event comes to; `ok` says that an interface was found for it, `sent` where a data
      packet went, `rounds` which reports and queries left. */
  datatype Outcome = Outcome(world: World, ok: bool, sent: seq<nat>, rounds: seq<Round>)

  // ----- one event, as a value

  function Known(t: Table, i: nat, probe: Probe): Table {
    if i in t then t else Created(t, i, probe)
  }

  function Rescan(t: Table, found: seq<nat>, probe: nat -> Probe): Table {
    if found == [] then t
    else
      var n := |found| - 1;
      Known(Rescan(t, found[..n], probe), found[n], probe(n))
  }

  /** An event that was handled, with the rounds it led to. */
  function WithRounds(db: DB, a: Aired): Outcome {
    Outcome(World(db, a.table), true, [], a.rounds)
  }

  function Step(w: World, e: Event, mode: Mode, probe: nat -> Probe, result: nat -> (nat -> SendResult)): Outcome {
    if e.msg.Timeout? then
      WithRounds(ExpireGroups(w.db, e.now), QueryAll(Rescan(w.table, e.msg.found, probe), result(0)))
    else
      var i := e.msg.i;
      var t := Known(w.table, i, probe(0));
      if i !in t then
        Outcome(World(w.db, t), false, [], [])
      else
        match e.msg
        case Mld1Report(_, mca) =>
          var st := Report1(w.db, i, mca, e.now);
          WithRounds(st.db, Broadcast(TableStep(t, SetVersionOf(i, 1, mode, e.now)), i, st.sent, mode, result))
        case Mld1Reduction(_, mca) =>
          var t1 := TableStep(t, SetVersionOf(i, 1, mode, e.now));
          WithRounds(Reduction1(w.db, i, mca),
              if RoutableGroup(mca) && LeaveEmpties(w.db, mca, i) then QueryOne(t1, i, mca, result(0)) else Aired(t1, []))
        case Mld2Report(_, payload) =>
          var st := Finish(State(w.db, false, []), i, ParseReport(payload), e.now);
          WithRounds(st.db, Broadcast(TableStep(t, SetVersionOf(i, 2, mode, e.now)), i, st.sent, mode, result))
        case Query(_, v1) =>
          WithRounds(w.db, Answered(w.db, TableStep(t, SetVersionOf(i, if v1 then 1 else 2, mode, e.now)), i, mode, result))
        case Data(_, src, dst) =>
          var sent := Forward(w.db, i, src, dst, t.Keys);
          Outcome(World(w.db, t - Gone(sent, result(0))), true, sent, [])
  }

  function After(events: seq<Event>, env: Env): World
    decreases |events|, 1
  {
    if events == [] then World([], map[]) else Last(events, env).world
  }

  /** What the last of the events came to. */
  function Last(events: seq<Event>, env: Env): Outcome
    requires events != []
    decreases |events|, 0
  {
    var n := |events| - 1;
    Step(After(events[..n], env), events[n], env.mode, env.probe(n), env.result(n))
  }

  // ----- one event, on the heap

  /** The interface lookup of handleinterfaces: an unknown interface is created if it can be. */
  method FindOrCreate(table: IntTable, i: nat, probe: Probe) returns (ok: bool)
    requires table.Valid()
    modifies table, table.ints
    ensures table.Valid() && (table.ints == old(table.ints) || fresh(table.ints))
    ensures table.Live() == Known(old(table.Live()), i, probe)
    ensures ok <==> i in table.Live()
    ensures ok <==> i in old(table.Live()) || (probe.Device? && probe.mtu >= 1280 && !probe.loopback)
    ensures ok && i !in old(table.Live()) ==> table.Live()[i] == Intf(i, probe.mtu, Mld(0, 0), probe.upstream)
  {
    hide LiveOf;
    ok := table.Find(i);
    if !ok {
      ok := table.Create(i, probe);
    }
  }

  /** The rescan of update_interfaces. */
  method Update(table: IntTable, found: seq<nat>, probe: nat -> Probe)
    requires table.Valid()
    modifies table, table.ints
    ensures table.Valid() && (table.ints == old(table.ints) || fresh(table.ints))
    ensures table.Live() == Rescan(old(table.Live()), found, probe)
  {
    hide LiveOf, TableOk, Known;
    RescanNone(table.Live(), probe);
    for k := 0 to |found|
      invariant table.Valid() && (table.ints == old(table.ints) || fresh(table.ints))
      invariant table.Live() == Rescan(old(table.Live()), found[..k], probe)
    {
      assert found[..k + 1][..k] == found[..k];
      var _ := FindOrCreate(table, found[k], probe(k));
    }
    assert found[..|found|] == found;
  }

  lemma {:induction false} RescanNone(t: Table, probe: nat -> Probe)
    ensures Rescan(t, [], probe) == t
  {
  }

  /** One event: the message is handled on the interface it came in on, or dropped when there is no
      such interface. */
  method HandleEvent(conf: Conf, table: IntTable, e: Event, mode: Mode, probe: nat -> Probe,
                     result: nat -> (nat -> SendResult))
    returns (sent: seq<nat>, rounds: seq<Round>)
    requires conf.Valid() && table.Valid() && Daemon.Apart(conf, table) && Inv(conf.view, e.now)
    modifies conf.repr, table, table.ints
    ensures conf.Valid() && fresh(conf.repr - old(conf.repr)) && table.Valid() && Daemon.Apart(conf, table)
    ensures table.ints == old(table.ints) || fresh(table.ints)
    ensures var o := Step(World(old(conf.view), old(table.Live())), e, mode, probe, result);
            && conf.view == o.world.db && table.Live() == o.world.table
            && sent == o.sent && rounds == o.rounds
  {
    hide Conf.Valid, LiveOf, TableOk, Inv, Report1, Reduction1, Finish, ExpireGroups, Forward, Known, Gone, TableStep;
    hide Broadcast, QueryOne, LeaveEmpties, Answered, Rescan, Lost, Queried;
    sent, rounds := [], [];
    if e.msg.Timeout? {
      Update(table, e.msg.found, probe);
      conf.Timeout(e.now);
      var on := Daemon.SendQueryAll(table, result(0));
      rounds := [Round.Query(ANY, on)];
      return;
    }
    var ok := FindOrCreate(table, e.msg.i, probe(0));
    if !ok {
      return;
    }
    match e.msg
    case Mld1Report(i, mca) =>
      rounds := Daemon.Mld1Report(conf, table, mode, i, mca, result, e.now);
    case Mld1Reduction(i, mca) =>
      rounds := Daemon.Mld1Reduction(conf, table, mode, i, mca, result(0), e.now);
    case Mld2Report(i, payload) =>
      rounds := Daemon.Mld2Report(conf, table, mode, i, payload, result, e.now);
    case Query(i, v1) =>
      rounds := Daemon.MldQuery(conf, table, mode, i, v1, result, e.now);
    case Data(i, src, dst) =>
      sent := Forwarder.Multicast(conf, table, i, src, dst, result(0), e.now);
  }

  /** The main loop: the heap ends as `After` says, and each packet, report and query leaves as `Last`
      says. */
  method Serve(events: seq<Event>, env: Env)
    returns (conf: Conf, table: IntTable, sents: seq<seq<nat>>, aired: seq<seq<Round>>)
    requires EventsOk(events)
    ensures conf.Valid() && table.Valid()
    ensures conf.view == After(events, env).db && table.Live() == After(events, env).table
    ensures |sents| == |aired| == |events|
    ensures forall k | 0 <= k < |events| ::
              sents[k] == Last(events[..k + 1], env).sent && aired[k] == Last(events[..k + 1], env).rounds
  {
    hide Conf.Valid, LiveOf, TableOk, Inv, After, Step;
    conf := new Conf();
    table := new IntTable();
    sents, aired := [], [];
    AfterNone(env);
    for k := 0 to |events|
      invariant conf.Valid() && table.Valid() && Daemon.Apart(conf, table)
      invariant fresh(conf.repr) && fresh(table) && fresh(table.ints)
      invariant World(conf.view, table.Live()) == After(events[..k], env)
      invariant |sents| == |aired| == k
      invariant forall j | 0 <= j < k ::
                  sents[j] == Last(events[..j + 1], env).sent && aired[j] == Last(events[..j + 1], env).rounds
    {
      AfterInv(events[..k], env, events[k].now);
      AfterSnoc(events, k, env);
      var sent, rounds := HandleEvent(conf, table, events[k], env.mode, env.probe(k), env.result(k));
      sents, aired := sents + [sent], aired + [rounds];
    }
    assert events[..|events|] == events;
  }

  lemma {:induction false} AfterNone(env: Env)
    ensures After([], env) == World([], map[])
  {
  }

  lemma {:induction false} AfterSnoc(events: seq<Event>, k: nat, env: Env)
    requires k < |events|
    ensures Last(events[..k + 1], env) == Step(After(events[..k], env), events[k], env.mode, env.probe(k), env.result(k))
    ensures After(events[..k + 1], env) == Last(events[..k + 1], env).world
  {
    hide Step;
    assert events[..k + 1][..k] == events[..k];
  }

  // ----- the events that found an interface

  function Handled(events: seq<Event>, env: Env): seq<Event> {
    if events == [] then []
    else
      var n := |events| - 1;
      Handled(events[..n], env) + if Last(events, env).ok then [events[n]] else []
  }

  lemma {:induction false} StepDb(w: World, e: Event, mode: Mode, probe: nat -> Probe,
                                  result: nat -> (nat -> SendResult))
    ensures var o := Step(w, e, mode, probe, result);
            o.world.db == if o.ok then Handle(w.db, e) else w.db
  {
    hide Report1, Reduction1, Finish, ExpireGroups, Forward, Known, Gone, TableStep, Broadcast, QueryOne, Answered, QueryAll;
  }

  /** The database of the loop is that of the messages handled, which are in order. */
  lemma {:induction false} HandledDb(events: seq<Event>, env: Env, now: int)
    requires EventsOk(events) && (events != [] ==> events[|events| - 1].now <= now)
    ensures EventsOk(Handled(events, env)) && forall e | e in Handled(events, env) :: e.now <= now
    ensures After(events, env).db == DbAfter(Handled(events, env))
  {
    hide Step, Handle;
    if events != [] {
      var n := |events| - 1;
      HandledDb(events[..n], env, events[n].now);
      StepDb(After(events[..n], env), events[n], env.mode, env.probe(n), env.result(n));
      var h := Handled(events[..n], env);
      assert (h + [events[n]])[..|h|] == h && h + [] == h;
      assert forall k | 0 <= k < |h| :: h[k] in h;
    }
  }

  lemma {:induction false} AfterInv(events: seq<Event>, env: Env, now: int)
    requires EventsOk(events) && (events != [] ==> events[|events| - 1].now <= now)
    ensures Inv(After(events, env).db, now)
  {
    hide Inv, DbAfter, StepsOf, After, Handled;
    HandledDb(events, env, now);
    var h := Handled(events, env);
    assert h != [] ==> h[|h| - 1] in h;
    MessagesAreRuns(h);
    StepsOk(h, now);
    RunInv(StepsOf(h), now);
  }

  /** If the report at position `k` was handled and only calm events follow, the same holds among the
      events handled. */
  lemma {:induction false} HandledPosition(events: seq<Event>, env: Env, k: nat, g: Addr, i: nat, until: int)
    returns (p: nat)
    requires k < |events| && Last(events[..k + 1], env).ok
    requires forall m | k < m < |events| :: CalmEvent(events[m], g, i, until)
    ensures var h := Handled(events, env);
            p < |h| && h[p] == events[k] && forall m | p < m < |h| :: CalmEvent(h[m], g, i, until)
    decreases |events|
  {
    hide Last, CalmEvent;
    var n := |events| - 1;
    var h := Handled(events[..n], env);
    if k == n {
      assert events[..k + 1] == events;
      p := |h|;
    } else {
      assert events[..n][..k + 1] == events[..k + 1];
      assert forall m | k < m < n :: events[..n][m] == events[m];
      p := HandledPosition(events[..n], env, k, g, i, until);
    }
  }

  // ----- what the loop delivers

  lemma {:induction false} DataSent(events: seq<Event>, env: Env)
    requires events != [] && events[|events| - 1].msg.Data? && Last(events, env).ok
    ensures var n := |events| - 1;
            var m, w := events[n].msg, After(events[..n], env);
            Last(events, env).sent == Forward(w.db, m.i, m.src, m.dst, Known(w.table, m.i, env.probe(n)(0)).Keys)
    ensures var n := |events| - 1;
            var m, t := events[n].msg, After(events[..n], env).table;
            forall j | j != m.i :: j in Known(t, m.i, env.probe(n)(0)) <==> j in t
  {
    hide Forward, After;
  }

  /** Subscribers are served: between an MLDv1 report for a multicast group `g` handled on `i` and a packet
      for `g` from another interface, anything may come but a reduction for `g` on `i` or a timeout more
      than 250 seconds after the report; the packet is then sent on `i` if `i` is live and its addresses
      are admitted. */
  lemma {:induction false} SubscribersServed(events: seq<Event>, env: Env, k: nat, g: Addr, i: nat)
    requires EventsOk(events) && k + 1 < |events|
    requires events[k].msg == Mld1Report(i, g) && ToBytes(g, 16)[0] == 0xff && Last(events[..k + 1], env).ok
    requires forall m | k < m < |events| - 1 :: CalmEvent(events[m], g, i, events[k].now + 250)
    requires var m := events[|events| - 1].msg;
             m.Data? && m.dst == g && m.i != i && Admitted(m.src, g) && Last(events, env).ok
    requires i in After(events[..|events| - 1], env).table
    ensures i in Last(events, env).sent
  {
    hide Forward, CalmEvent, After, Handled, DbAfter, Last, Known, Routable, Admitted, RoutableGroup, ToBytes;
    DataSent(events, env);
    var n := |events| - 1;
    var before, m := events[..n], events[n].msg;
    assert before[..k + 1] == events[..k + 1];
    assert forall j | 0 <= j < n :: before[j] == events[j];
    var p := HandledPosition(before, env, k, g, i, events[k].now + 250);
    HandledDb(before, env, events[n].now);
    var t := Known(After(before, env).table, m.i, env.probe(n)(0));
    AdmittedRoutable(m.src, g);
    MessageRetention(Handled(before, env), p, g, i, m.i, m.src, t.Keys);
  }

  /** Nobody else is: a packet is sent on `i` exactly when its addresses are admitted, `i` is another live
      interface and, among the messages handled before, one on `i` that included the packet's source or
      `::` in its group still stands. */
  lemma {:induction false} OnlySubscribersServed(events: seq<Event>, env: Env, i: nat)
    requires EventsOk(events) && events != [] && events[|events| - 1].msg.Data? && Last(events, env).ok
    ensures var before, m := events[..|events| - 1], events[|events| - 1].msg;
            i in Last(events, env).sent <==>
              && Admitted(m.src, m.dst) && i != m.i && i in After(before, env).table
              && exists k: nat, s | s == ANY || s == m.src :: Stands(Handled(before, env), k, m.dst, i, s, INCLUDE)
  {
    hide Forward, Admitted, Stands, After, Handled, DbAfter, Last, Known;
    DataSent(events, env);
    var n := |events| - 1;
    var before, m := events[..n], events[n].msg;
    HandledDb(before, env, events[n].now);
    var t := Known(After(before, env).table, m.i, env.probe(n)(0));
    MessageProvenance(Handled(before, env), m.i, m.src, m.dst, t.Keys, i);
  }

  // ----- demand is announced

  /** Every live interface has its own index and a version its machine can be in. */
  ghost predicate VersionsOk(t: Table, mode: Mode) {
    forall j | j in t :: t[j].ifindex == j && MldOk(t[j].mld, mode)
  }

  /** Sends destroy interfaces and change nothing else. */
  ghost predicate Fewer(t: Table, t': Table) {
    forall j | j in t' :: j in t && t'[j] == t[j]
  }

  lemma {:induction false} BroadcastFewer(t: Table, i: nat, sent: seq<Sending>, mode: Mode,
                                          result: nat -> (nat -> SendResult))
    ensures Fewer(t, Broadcast(t, i, sent, mode, result).table)
  {
    hide Emitters, Lost;
    if sent != [] {
      BroadcastFewer(t, i, sent[..|sent| - 1], mode, result);
    }
  }

  lemma {:induction false} AnswerFewer(db: DB, t: Table, i: nat, port: Intf, mcas: seq<Addr>, mode: Mode,
                                       result: nat -> (nat -> SendResult))
    ensures Fewer(t, AnswerEach(db, t, i, port, mcas, mode, result).table)
  {
    hide Emits, Lost;
    if mcas != [] {
      AnswerFewer(db, t, i, port, mcas[..|mcas| - 1], mode, result);
    }
  }

  lemma {:induction false} AnsweredFewer(db: DB, t: Table, i: nat, mode: Mode, result: nat -> (nat -> SendResult))
    requires i in t
    ensures Fewer(t, Answered(db, t, i, mode, result).table)
  {
    hide AnswerEach, Reporting.Reports, Members;
    AnswerFewer(db, t, i, t[i], Members(db, i), mode, result);
  }

  lemma {:induction false} KnownVersions(t: Table, i: nat, probe: Probe, mode: Mode)
    requires VersionsOk(t, mode)
    ensures VersionsOk(Known(t, i, probe), mode)
  {
  }

  lemma {:induction false} RescanVersions(t: Table, found: seq<nat>, probe: nat -> Probe, mode: Mode)
    requires VersionsOk(t, mode)
    ensures VersionsOk(Rescan(t, found, probe), mode)
    decreases |found|
  {
    hide VersionsOk, Known;
    if found != [] {
      var n := |found| - 1;
      RescanVersions(t, found[..n], probe, mode);
      KnownVersions(Rescan(t, found[..n], probe), found[n], probe(n), mode);
    }
  }

  lemma {:induction false} SetVersions(t: Table, i: nat, v: nat, mode: Mode, now: int)
    requires VersionsOk(t, mode) && now > 0 && (v == 1 || v == 2)
    ensures VersionsOk(TableStep(t, SetVersionOf(i, v, mode, now)), mode)
  {
  }

  lemma {:induction false} StepVersions(w: World, e: Event, mode: Mode, probe: nat -> Probe,
                                        result: nat -> (nat -> SendResult))
    requires VersionsOk(w.table, mode) && e.now > 0
    ensures VersionsOk(Step(w, e, mode, probe, result).world.table, mode)
  {
    hide Report1, Reduction1, Finish, ExpireGroups, Forward, Known, Gone, TableStep;
    hide Broadcast, Answered, Rescan, LeaveEmpties, MldOk;
    if e.msg.Timeout? {
      RescanVersions(w.table, e.msg.found, probe, mode);
    } else {
      var i := e.msg.i;
      var t := Known(w.table, i, probe(0));
      KnownVersions(w.table, i, probe(0), mode);
      SetVersions(t, i, 1, mode, e.now);
      SetVersions(t, i, 2, mode, e.now);
      var t1, t2 := TableStep(t, SetVersionOf(i, 1, mode, e.now)), TableStep(t, SetVersionOf(i, 2, mode, e.now));
      if i in t {
        SameKeys(t, i, mode, e.now);
        match e.msg
        case Mld1Report(_, mca) =>
          BroadcastFewer(t1, i, Report1(w.db, i, mca, e.now).sent, mode, result);
        case Mld1Reduction(_, mca) =>
        case Mld2Report(_, payload) =>
          BroadcastFewer(t2, i, Finish(State(w.db, false, []), i, ParseReport(payload), e.now).sent, mode, result);
        case Query(_, v1) =>
          AnsweredFewer(w.db, if v1 then t1 else t2, i, mode, result);
        case Data(_, src, dst) =>
      }
    }
  }

  lemma {:induction false} SameKeys(t: Table, i: nat, mode: Mode, now: int)
    ensures TableStep(t, SetVersionOf(i, 1, mode, now)).Keys == t.Keys
    ensures TableStep(t, SetVersionOf(i, 2, mode, now)).Keys == t.Keys
  {
  }

  lemma {:induction false} AfterVersions(events: seq<Event>, env: Env)
    requires forall e | e in events :: e.now > 0
    ensures VersionsOk(After(events, env).table, env.mode)
  {
    hide Step, VersionsOk;
    if events == [] {
      AfterNone(env);
      NoVersions(env.mode);
    } else {
      var n := |events| - 1;
      AfterVersions(events[..n], env);
      StepVersions(After(events[..n], env), events[n], env.mode, env.probe(n), env.result(n));
    }
  }

  lemma {:induction false} NoVersions(mode: Mode)
    ensures VersionsOk(map[], mode)
  {
  }

  lemma {:induction false} ReportIncludes(db: DB, i: nat, g: Addr, now: int)
    requires Inv(db, now) && RoutableGroup(g)
    ensures var db' := JoinStep(db, g, i, [Write(ANY, INCLUDE)], now); Inv(db', now) && Included(db', g, i, ANY)
  {
    hide Inv, JoinStep, Lookup;
    var r := Record(IS_EXCLUDE, g, []);
    assert WritesOf(r) == [Write(ANY, INCLUDE)];
    ApplyOk(db, Join(g, i, WritesOf(r)), now, now);
    RecordMeaning(db, i, r, ANY, now);
  }

  lemma {:induction false} EverywhereElse(t: Table, i: nat, db: DB, g: Addr, mode: Mode, now: int)
    requires VersionsOk(t, mode) && Inv(db, now) && Included(db, g, i, ANY)
    ensures Emitters(t, i, Sending(g, db), mode) == t.Keys - {i}
  {
    hide Inv, Included, Emits, MldOk;
    forall j | j in t && j != i ensures Emits(db, g, t[j], mode) {
      EmissionExactly(db, g, t[j], mode, now);
    }
  }

  lemma {:induction false} StepAnnounces(w: World, e: Event, mode: Mode, probe: nat -> Probe,
                                         result: nat -> (nat -> SendResult),
                                         i: nat, g: Addr)
    requires Inv(w.db, e.now) && VersionsOk(w.table, mode) && e.now > 0
    requires e.msg == Mld1Report(i, g) && RoutableGroup(g) && i in Known(w.table, i, probe(0))
    ensures var t := Known(w.table, i, probe(0));
            Step(w, e, mode, probe, result).rounds ==
              if IsNew(w.db, g, e.now) then [Report(g, t.Keys - {i})] else []
  {
    hide Inv, IsNew, JoinStep, Known, Included, Emitters, VersionsOk, RoutableGroup, Broadcast, TableStep, Lost;
    var t := Known(w.table, i, probe(0));
    var t1 := TableStep(t, SetVersionOf(i, 1, mode, e.now));
    KnownVersions(w.table, i, probe(0), mode);
    SetVersions(t, i, 1, mode, e.now);
    SameKeys(t, i, mode, e.now);
    ReportIncludes(w.db, i, g, e.now);
    var db1 := JoinStep(w.db, g, i, [Write(ANY, INCLUDE)], e.now);
    EverywhereElse(t1, i, db1, g, mode, e.now);
    BroadcastNone(t1, i, mode, result);
    BroadcastSnoc(t1, i, [], Sending(g, db1), mode, result);
    assert [] + [Sending(g, db1)] == [Sending(g, db1)];
  }

  lemma {:induction false} OkMeans(w: World, e: Event, mode: Mode, probe: nat -> Probe,
                                   result: nat -> (nat -> SendResult))
    requires !e.msg.Timeout? && Step(w, e, mode, probe, result).ok
    ensures e.msg.i in Known(w.table, e.msg.i, probe(0))
  {
    hide Known;
  }

  /** Demand is announced: after any events, an MLDv1 report for `g` on `i` is followed by a report on
      exactly the other live interfaces if `g` is new, and by none otherwise. */
  lemma {:induction false} DemandAnnounced(events: seq<Event>, env: Env, i: nat, g: Addr)
    requires EventsOk(events) && events != [] && forall e | e in events :: e.now > 0
    requires events[|events| - 1].msg == Mld1Report(i, g) && RoutableGroup(g) && Last(events, env).ok
    ensures var n := |events| - 1;
            var w := After(events[..n], env);
            var t := Known(w.table, i, env.probe(n)(0));
            Last(events, env).rounds == if IsNew(w.db, g, events[n].now) then [Report(g, t.Keys - {i})] else []
  {
    hide Inv, IsNew, Known, VersionsOk, After, RoutableGroup, Step;
    var n := |events| - 1;
    assert forall e | e in events[..n] :: e in events;
    assert events[n] in events;
    AfterInv(events[..n], env, events[n].now);
    AfterVersions(events[..n], env);
    OkMeans(After(events[..n], env), events[n], env.mode, env.probe(n), env.result(n));
    StepAnnounces(After(events[..n], env), events[n], env.mode, env.probe(n), env.result(n), i, g);
  }
}
