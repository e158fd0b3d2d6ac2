/** What one event does to the interfaces, and which reports and queries it leads to, said without the
    functions the loop is defined by. */
module LoopLaws {
  import opened Addresses
  import opened Database
  import opened Invariant
  import opened Forwarding
  import opened Handlers
  import opened Interfaces
  import opened Messages
  import opened Reporting
  import opened Rounds
  import opened LinkList
  import opened Wire
  import opened MainLoop

  // ----- which interfaces there are

  /** The system knows the device, it is no loopback and its MTU is at least that of IPv6. */
  predicate Suits(p: Probe) {
    p.Device? && p.mtu >= 1280 && !p.loopback
  }

  /** A lookup creates an unknown interface exactly when its device suits: with the MTU and the upstream
      flag of the device, and no MLD version. */
  lemma {:induction false} KnownExactly(t: Table, i: nat, p: Probe)
    ensures Known(t, i, p) ==
            if i !in t && Suits(p) then t[i := Intf(i, p.mtu, Mld(0, 0), p.upstream)] else t
  {
    assert i !in t ==> t - {i} == t;
  }

  /** Lookup `k` of a rescan is the first to find a device that suits for interface `j`. */
  ghost predicate FirstFinds(found: seq<nat>, probe: nat -> Probe, j: nat, k: nat) {
    && k < |found| && found[k] == j && Suits(probe(k))
    && forall m | 0 <= m < k && found[m] == j :: !Suits(probe(m))
  }

  /** A rescan keeps every interface, and creates each one it comes across whose device suits. */
  lemma {:induction false} RescanExactly(t: Table, found: seq<nat>, probe: nat -> Probe, j: nat)
    ensures var t' := Rescan(t, found, probe);
            && (j in t' <==> j in t || exists k | 0 <= k < |found| :: found[k] == j && Suits(probe(k)))
            && (j in t ==> j in t' && t'[j] == t[j])
            && (j !in t && j in t' ==>
                  exists k: nat :: FirstFinds(found, probe, j, k)
                    && t'[j] == Intf(j, probe(k).mtu, Mld(0, 0), probe(k).upstream))
    decreases |found|
  {
    hide Known;
    if found != [] {
      var n := |found| - 1;
      var t1 := Rescan(t, found[..n], probe);
      RescanExactly(t, found[..n], probe, j);
      KnownExactly(t1, found[n], probe(n));
      assert forall k | 0 <= k < n :: found[..n][k] == found[k];
      if j !in t && j in t1 {
        var k: nat :| FirstFinds(found[..n], probe, j, k) && t1[j] == Intf(j, probe(k).mtu, Mld(0, 0), probe(k).upstream);
        assert FirstFinds(found, probe, j, k);
      }
      if j !in t1 && found[n] == j && Suits(probe(n)) {
        assert FirstFinds(found, probe, j, n);
      }
    }
  }

  // ----- which interfaces are lost

  /** A send on `j` in one of the rounds found the device gone. */
  ghost predicate Loses(rounds: seq<Round>, result: nat -> (nat -> SendResult), j: nat) {
    exists k: nat :: k < |rounds| && j in rounds[k].on && result(k)(j).NoDevice?
  }

  lemma {:induction false} LosesSnoc(rounds: seq<Round>, r: Round, result: nat -> (nat -> SendResult), j: nat)
    ensures Loses(rounds + [r], result, j) <==> Loses(rounds, result, j) || (j in r.on && result(|rounds|)(j).NoDevice?)
    ensures !Loses([], result, j)
  {
    var all := rounds + [r];
    assert all[|rounds|] == r && forall k | 0 <= k < |rounds| :: all[k] == rounds[k];
  }

  /** The interfaces left are those on which no send found the device gone, and they are unchanged. */
  ghost predicate Left(t: Table, a: Aired, result: nat -> (nat -> SendResult)) {
    && (forall j :: j in a.table <==> j in t && !Loses(a.rounds, result, j))
    && (forall j | j in a.table :: a.table[j] == t[j])
  }

  lemma {:induction false} LeftNone(t: Table, result: nat -> (nat -> SendResult))
    ensures Left(t, Aired(t, []), result)
  {
  }

  lemma {:induction false} LeftSnoc(t: Table, a: Aired, r: Round, result: nat -> (nat -> SendResult))
    requires Left(t, a, result)
    ensures Left(t, Aired(a.table - Lost(r.on, result(|a.rounds|)), a.rounds + [r]), result)
  {
    hide Loses;
    forall j: nat {
      LosesSnoc(a.rounds, r, result, j);
    }
  }

  lemma {:induction false} BroadcastLeft(t: Table, i: nat, sent: seq<Sending>, mode: Mode,
                                         result: nat -> (nat -> SendResult))
    ensures var a := Broadcast(t, i, sent, mode, result);
            Left(t, a, result) && |a.rounds| == |sent|
    ensures var rounds := Broadcast(t, i, sent, mode, result).rounds;
            forall n | 0 <= n < |sent| :: rounds[n].Report? && rounds[n].mca == sent[n].mca
    decreases |sent|
  {
    hide Emitters, Lost, Left;
    if sent == [] {
      LeftNone(t, result);
    } else {
      var n := |sent| - 1;
      BroadcastLeft(t, i, sent[..n], mode, result);
      var a := Broadcast(t, i, sent[..n], mode, result);
      LeftSnoc(t, a, Report(sent[n].mca, Emitters(a.table, i, sent[n], mode)), result);
    }
  }

  lemma {:induction false} AnswerLeft(db: DB, t: Table, i: nat, port: Intf, mcas: seq<Addr>, mode: Mode,
                                      result: nat -> (nat -> SendResult))
    ensures Left(t, AnswerEach(db, t, i, port, mcas, mode, result), result)
    decreases |mcas|
  {
    hide Emits, Lost, Left;
    if mcas == [] {
      LeftNone(t, result);
    } else {
      var n := |mcas| - 1;
      AnswerLeft(db, t, i, port, mcas[..n], mode, result);
      LeftSnoc(t, AnswerEach(db, t, i, port, mcas[..n], mode, result), Report(mcas[n], {i}), result);
    }
  }

  lemma {:induction false} OneLeft(t: Table, r: Round, result: nat -> (nat -> SendResult))
    ensures Left(t, Aired(t, []), result)
    ensures Left(t, Aired(t - Lost(r.on, result(0)), [r]), result)
  {
    hide Left, Lost;
    LeftNone(t, result);
    LeftSnoc(t, Aired(t, []), r, result);
    assert [] + [r] == [r];
  }

  lemma {:induction false} AnsweredLeft(db: DB, t: Table, i: nat, mode: Mode, result: nat -> (nat -> SendResult))
    requires i in t
    ensures Left(t, Answered(db, t, i, mode, result), result)
  {
    hide Left, AnswerEach, Reporting.Reports, Members, Lost;
    AnswerLeft(db, t, i, t[i], Members(db, i), mode, result);
    OneLeft(t, FullReport({i}), result);
  }

  // ----- one event

  /** The version a message tells of. */
  function Heard(m: Mld, msg: Message, mode: Mode, now: int): Mld {
    match msg
    case Mld1Report(_, _) => SetVersion(m, 1, mode, now)
    case Mld1Reduction(_, _) => SetVersion(m, 1, mode, now)
    case Mld2Report(_, _) => SetVersion(m, 2, mode, now)
    case Query(_, v1) => SetVersion(m, if v1 then 1 else 2, mode, now)
    case Data(_, _, _) => m
    case Timeout(_) => m
  }

  /** The interfaces an event is handled with. */
  function Start(w: World, e: Event, probe: nat -> Probe): Table {
    if e.msg.Timeout? then Rescan(w.table, e.msg.found, probe) else Known(w.table, e.msg.i, probe(0))
  }

  /** The interface that a message comes in on changes its version, and no other does. */
  function Told(t: Table, e: Event, mode: Mode): Table {
    if e.msg.Timeout? || e.msg.i !in t then t
    else t[e.msg.i := t[e.msg.i].(mld := Heard(t[e.msg.i].mld, e.msg, mode, e.now))]
  }

  lemma {:induction false} DataLeft(t: Table, sent: seq<nat>, result: nat -> SendResult)
    ensures forall j :: j in t - Gone(sent, result) <==> j in t && !(j in sent && result(j).NoDevice?)
  {
  }

  /** What one event does to the interfaces. */
  lemma {:induction false} StepTable(w: World, e: Event, mode: Mode, probe: nat -> Probe,
                                     result: nat -> (nat -> SendResult))
    ensures var o, t := MainLoop.Step(w, e, mode, probe, result), Start(w, e, probe);
            && (o.ok <==> e.msg.Timeout? || e.msg.i in t)
            && (forall j :: j in o.world.table <==>
                  j in t && !Loses(o.rounds, result, j) && !(j in o.sent && result(0)(j).NoDevice?))
            && (forall j | j in o.world.table :: o.world.table[j] == Told(t, e, mode)[j])
  {
    hide Report1, Reduction1, Finish, ExpireGroups, Forward, Known, Gone, Broadcast, Answered, Rescan, LeaveEmpties;
    hide Lost, Loses, SetVersion, Queried;
    var t := Start(w, e, probe);
    var t1 := Told(t, e, mode);
    if e.msg.Timeout? {
      OneLeft(t, Round.Query(ANY, Queried(t)), result);
    } else if e.msg.i in t {
      var i := e.msg.i;
      match e.msg
      case Mld1Report(_, mca) =>
        BroadcastLeft(t1, i, Report1(w.db, i, mca, e.now).sent, mode, result);
      case Mld1Reduction(_, mca) =>
        OneLeft(t1, Round.Query(mca, {i}), result);
      case Mld2Report(_, payload) =>
        BroadcastLeft(t1, i, Finish(State(w.db, false, []), i, ParseReport(payload), e.now).sent, mode, result);
      case Query(_, v1) =>
        AnsweredLeft(w.db, t1, i, mode, result);
      case Data(_, src, dst) =>
        DataLeft(t, Forward(w.db, i, src, dst, t.Keys), result(0));
        OneLeft(t, FullReport({}), result);
    } else {
      OneLeft(t, FullReport({}), result);
    }
  }

  /** A message is handled exactly when its interface is there or its device suits; the interfaces after
      any event are those found, less those on which a send found the device gone, and only the version of
      the interface the message came in on has changed. */
  lemma {:induction false} TableAfter(events: seq<Event>, env: Env)
    requires events != []
    ensures var n := |events| - 1;
            var e, w, o := events[n], After(events[..n], env), Last(events, env);
            var t := Start(w, e, env.probe(n));
            && (o.ok <==> e.msg.Timeout? || e.msg.i in w.table || Suits(env.probe(n)(0)))
            && (forall j :: j in After(events, env).table <==>
                  j in t && !Loses(o.rounds, env.result(n), j) && !(j in o.sent && env.result(n)(0)(j).NoDevice?))
            && (forall j | j in After(events, env).table :: After(events, env).table[j] == Told(t, e, env.mode)[j])
  {
    hide MainLoop.Step, Rescan, Known, Loses, Heard;
    var n := |events| - 1;
    StepTable(After(events[..n], env), events[n], env.mode, env.probe(n), env.result(n));
    if !events[n].msg.Timeout? {
      KnownExactly(After(events[..n], env).table, events[n].msg.i, env.probe(n)(0));
    }
  }

  // ----- queries sent

  /** At a timeout queries leave on exactly the interfaces found that are not upstream. */
  lemma {:induction false} TimeoutQueries(events: seq<Event>, env: Env)
    requires events != [] && events[|events| - 1].msg.Timeout?
    ensures var n := |events| - 1;
            var t := Rescan(After(events[..n], env).table, events[n].msg.found, env.probe(n));
            var rounds := Last(events, env).rounds;
            && |rounds| == 1 && rounds[0].Query? && rounds[0].mca == ANY
            && forall j :: j in rounds[0].on <==> j in t && !t[j].upstream
  {
    hide Rescan, ExpireGroups, Lost;
  }

  /** A reduction empties an entry exactly when `::` is its only source. */
  lemma {:induction false} EmptiesExactly(db: DB, g: Addr, i: nat, now: int)
    requires Inv(db, now)
    ensures LeaveEmpties(db, g, i) <==>
            Lookup(db, g, i, ANY).Some? && forall s | s != ANY :: Lookup(db, g, i, s).None?
  {
    hide Inv, Entry;
    var e := Entry(db, g, i);
    if e.Some? {
      EntryOk(db, g, i, now);
      var subs := e.value.subs;
      if Lookup(db, g, i, ANY).Some? && |subs| > 1 {
        var s := if subs[0].src == ANY then subs[1].src else subs[0].src;
        assert s != ANY && Lookup(db, g, i, s).Some?;
      }
    }
  }

  /** After a reduction a query for the group leaves on the link exactly when the group is multicast and not
      of local scope, `::` was the only source subscribed there, and the link is not upstream. */
  lemma {:induction false} ReductionQueries(events: seq<Event>, env: Env, i: nat, g: Addr)
    requires EventsOk(events) && events != [] && events[|events| - 1].msg == Mld1Reduction(i, g) && Last(events, env).ok
    ensures var n := |events| - 1;
            var w, b := After(events[..n], env), ToBytes(g, 16);
            var t := Known(w.table, i, env.probe(n)(0));
            i in t &&
            Last(events, env).rounds ==
              if b[0] == 0xff && b[1] % 16 != 1 && b[1] % 16 != 2 && Lookup(w.db, g, i, ANY).Some?
                 && (forall s | s != ANY :: Lookup(w.db, g, i, s).None?) && !t[i].upstream
              then [Round.Query(g, {i})] else []
  {
    hide Inv, LeaveEmpties, Lookup, Known, After, ToBytes, Reduction1, IsMulticast, IsMcNodeLocal, IsMcLinkLocal;
    var n := |events| - 1;
    var w := After(events[..n], env);
    AfterInv(events[..n], env, events[n].now);
    EmptiesExactly(w.db, g, i, events[n].now);
    ClassesByBytes(g);
  }

  // ----- queries answered

  lemma {:induction false} EntriesExactly(ints: seq<GrpInt>, i: nat, mca: Addr, now: int)
    requires IntsOk(ints, now)
    ensures EntriesOf(ints, i, mca) == if EntryOf(ints, i).Some? then [mca] else []
  {
    hide IntOk;
    if ints != [] {
      IntsTail(ints, now);
      EntriesExactly(ints[1..], i, mca, now);
      assert ints == [ints[0]] + ints[1..];
      EntryOfCons(ints[0], ints[1..], i);
    }
  }

  /** The groups an MLDv1 query is answered with: each with an entry for the interface, once. */
  lemma {:induction false} MembersExactly(db: DB, i: nat, now: int)
    requires Inv(db, now)
    ensures var r := Members(db, i);
            Distinct(r) && forall g :: g in r <==> Entry(db, g, i).Some?
  {
    hide GroupOk, EntriesOf;
    if db != [] {
      var rest := db[1..];
      GroupsTail(db, i, now);
      MembersExactly(rest, i, now);
      assert db == [db[0]] + rest;
      GroupEntries(db, i, now);
      forall g {
        EntryCons(db[0], rest, g, i);
      }
      var r := Members(rest, i);
      assert db[0].mca !in r;
      assert forall a | 0 <= a < |r| :: r[a] in r;
    }
  }

  lemma {:induction false} GroupEntries(db: DB, i: nat, now: int)
    requires Inv(db, now) && db != []
    ensures EntriesOf(db[0].ints, i, db[0].mca) == if EntryOf(db[0].ints, i).Some? then [db[0].mca] else []
  {
    assert GroupOk(db[0], now);
    EntriesExactly(db[0].ints, i, db[0].mca, now);
  }

  /** Where MLDv1 is used every one of the reports leaves. */
  lemma {:induction false} EachReported(db: DB, t: Table, i: nat, port: Intf, mcas: seq<Addr>, mode: Mode,
                                        result: nat -> (nat -> SendResult))
    requires SendsV1(port, mode)
    ensures var rounds := AnswerEach(db, t, i, port, mcas, mode, result).rounds;
            |rounds| == |mcas| && forall k | 0 <= k < |mcas| :: rounds[k] == Report(mcas[k], {i})
    decreases |mcas|
  {
    hide Emits, Lost, SendsV1;
    if mcas != [] {
      EachReported(db, t, i, port, mcas[..|mcas| - 1], mode, result);
    }
  }

  /** Any group at all has a source to report exactly when another interface includes one. */
  lemma {:induction false} AnyReports(db: DB, out: nat, now: int)
    requires Inv(db, now)
    ensures Reporting.Reports(db, None, out) <==> exists g: Addr, j: nat, s: Addr :: j != out && Included(db, g, j, s)
  {
    hide ReportedSources, Included;
    if k :| 0 <= k < |db| && ReportedSources(db[k].ints, out) != [] {
      var g := db[k].mca;
      assert Reporting.Reports(db, Some(g), out);
      ReportsExactly(db, g, out, now);
      var j: nat, s: Addr :| j != out && Included(db, g, j, s);
    }
    if g: Addr, j: nat, s: Addr :| j != out && Included(db, g, j, s) {
      ReportsExactly(db, g, out, now);
      var k :| 0 <= k < |db| && db[k].mca == g && ReportedSources(db[k].ints, out) != [];
    }
  }

  /** One report leaves on `i` for each group with an entry there, and nothing else. */
  ghost predicate OneEach(rounds: seq<Round>, db: DB, i: nat) {
    && Distinct(rounds) && (forall r | r in rounds :: r.Report? && r.on == {i})
    && forall g :: Report(g, {i}) in rounds <==> Entry(db, g, i).Some?
  }

  lemma {:induction false} AnswerMeaning(db: DB, t: Table, i: nat, mode: Mode, result: nat -> (nat -> SendResult),
                                         now: int)
    requires Inv(db, now) && i in t && MldOk(t[i].mld, mode) && (mode.Both? ==> t[i].mld.version != 0)
    ensures var rounds := Answered(db, t, i, mode, result).rounds;
            if mode.Mld1Only? || (mode.Both? && t[i].mld.version == 1) then OneEach(rounds, db, i)
            else
              && (mode.Mld2Only? || t[i].mld.version == 2)
              && rounds == if exists g: Addr, j: nat, s: Addr :: j != i && Included(db, g, j, s)
                           then [FullReport({i})] else []
  {
    hide Inv, Entry, Included, AnswerEach, Members, Reporting.Reports, Lost, Distinct;
    MembersExactly(db, i, now);
    AnyReports(db, i, now);
    if SendsV1(t[i], mode) {
      EachReported(db, t, i, t[i], Members(db, i), mode, result);
      ReportsOf(Members(db, i), AnswerEach(db, t, i, t[i], Members(db, i), mode, result).rounds, i);
    }
  }

  /** A query is answered in the version of the link.  In MLDv1, one report leaves on the link for each group
      with an entry there; in MLDv2, one report for all groups, if another interface includes any source. */
  lemma {:induction false} QueryMeaning(events: seq<Event>, env: Env, i: nat, v1: bool)
    requires EventsOk(events) && events != [] && forall e | e in events :: e.now > 0
    requires events[|events| - 1].msg == Message.Query(i, v1) && Last(events, env).ok
    ensures var n := |events| - 1;
            var w, rounds := After(events[..n], env), Last(events, env).rounds;
            var t := Told(Known(w.table, i, env.probe(n)(0)), events[n], env.mode);
            i in t &&
            if env.mode.Mld1Only? || (env.mode.Both? && t[i].mld.version == 1) then OneEach(rounds, w.db, i)
            else
              && (env.mode.Mld2Only? || t[i].mld.version == 2)
              && rounds == if exists g: Addr, j: nat, s: Addr :: j != i && Included(w.db, g, j, s)
                           then [FullReport({i})] else []
  {
    hide Inv, Known, After, Included, Answered, OneEach;
    var n := |events| - 1;
    var w, now, mode := After(events[..n], env), events[n].now, env.mode;
    var base := Known(w.table, i, env.probe(n)(0));
    assert forall e | e in events[..n] :: e in events;
    assert events[n] in events;
    AfterInv(events[..n], env, now);
    AfterVersions(events[..n], env);
    KnownVersions(w.table, i, env.probe(n)(0), mode);
    AnswerMeaning(w.db, Told(base, events[n], mode), i, mode, env.result(n), now);
  }

  lemma {:induction false} ReportsOf(mcas: seq<Addr>, rounds: seq<Round>, i: nat)
    requires |rounds| == |mcas| && forall k | 0 <= k < |mcas| :: rounds[k] == Report(mcas[k], {i})
    requires Distinct(mcas)
    ensures forall r | r in rounds :: r.Report? && r.on == {i}
    ensures Distinct(rounds)
    ensures forall g :: Report(g, {i}) in rounds <==> g in mcas
  {
    forall g ensures Report(g, {i}) in rounds <==> g in mcas {
      if g in mcas {
        var k :| 0 <= k < |mcas| && mcas[k] == g;
        assert rounds[k] == Report(g, {i});
      }
    }
  }

  // ----- reports passed on

  /** On which interfaces the reports of round `n` leave: those still there, other than `i`, on which MLDv1
      is used or for which another interface includes a source. */
  lemma {:induction false} RoundExactly(t: Table, i: nat, sent: seq<Sending>, mode: Mode,
                                        result: nat -> (nat -> SendResult),
                                        n: nat, j: nat, now: int)
    requires n < |sent| && VersionsOk(t, mode) && Inv(sent[n].db, now)
    ensures var rounds := Broadcast(t, i, sent, mode, result).rounds;
            |rounds| == |sent| &&
            (j in rounds[n].on <==>
               && j in t && j != i && !Loses(rounds[..n], result, j)
               && (SendsV1(t[j], mode) || exists k: nat, s: Addr :: k != j && Included(sent[n].db, sent[n].mca, k, s)))
    decreases |sent|
  {
    hide Inv, Included, Emits, Lost, Loses, MldOk, SendsV1;
    var m := |sent| - 1;
    var a := Broadcast(t, i, sent[..m], mode, result);
    BroadcastLeft(t, i, sent, mode, result);
    BroadcastLeft(t, i, sent[..m], mode, result);
    var rounds := Broadcast(t, i, sent, mode, result).rounds;
    if n < m {
      RoundExactly(t, i, sent[..m], mode, result, n, j, now);
      assert rounds[..n] == a.rounds[..n];
    } else {
      assert rounds[..n] == a.rounds;
      if j in a.table {
        EmissionExactly(sent[n].db, sent[n].mca, t[j], mode, now);
      }
    }
  }

  lemma {:induction false} SentInv(st: State, i: nat, recs: seq<Record>, now: int)
    requires Inv(st.db, now) && forall x | x in st.sent :: Inv(x.db, now)
    ensures var st' := Records(st, i, recs, now); Inv(st'.db, now) && forall x | x in st'.sent :: Inv(x.db, now)
    decreases |recs|
  {
    hide Inv, JoinStep, IsNew, WritesOf;
    if recs != [] {
      if !IsLocalGroup(recs[0].mca) {
        ApplyOk(st.db, Join(recs[0].mca, i, WritesOf(recs[0])), now, now);
      }
      SentInv(RecordStep(st, i, recs[0], now), i, recs[1..], now);
    }
  }

  /** After any events, each re-broadcast of an MLDv2 report leaves on exactly the interfaces still there,
      other than its own, on which MLDv1 is used or for which another interface includes a source in the
      database its record left. */
  lemma {:induction false} ReportAnnounced(events: seq<Event>, env: Env, i: nat, payload: seq<Byte>, sent: seq<Sending>,
                                           t: Table, n: nat, j: nat)
    requires EventsOk(events) && events != [] && forall e | e in events :: e.now > 0
    requires events[|events| - 1].msg == Mld2Report(i, payload) && Last(events, env).ok
    requires var z := |events| - 1;
             var w := After(events[..z], env);
             && sent == Records(State(w.db, false, []), i, ParseReport(payload).recs, events[z].now).sent
             && t == Told(Known(w.table, i, env.probe(z)(0)), events[z], env.mode)
    requires n < |sent|
    ensures var rounds := Last(events, env).rounds;
            && |rounds| == |sent| && rounds[n].Report? && rounds[n].mca == sent[n].mca
            && (j in rounds[n].on <==>
                  && j in t && j != i && !Loses(rounds[..n], env.result(|events| - 1), j)
                  && (SendsV1(t[j], env.mode) || exists k: nat, s: Addr :: k != j && Included(sent[n].db, sent[n].mca, k, s)))
  {
    hide Inv, Known, After, Included, Records, Broadcast, Loses, SendsV1, ParseReport, VersionsOk;
    var z := |events| - 1;
    var w, now, mode := After(events[..z], env), events[z].now, env.mode;
    var base := Known(w.table, i, env.probe(z)(0));
    assert forall e | e in events[..z] :: e in events;
    assert events[z] in events;
    AfterInv(events[..z], env, now);
    AfterVersions(events[..z], env);
    KnownVersions(w.table, i, env.probe(z)(0), mode);
    SetVersions(base, i, 2, mode, now);
    SentInv(State(w.db, false, []), i, ParseReport(payload).recs, now);
    assert sent[n] in sent;
    BroadcastLeft(t, i, sent, mode, env.result(z));
    RoundExactly(t, i, sent, mode, env.result(z), n, j, now);
  }

  // ----- a run

  /** A report on interface 2 and then a packet on interface 1, neither known before: both are handled, and
      the packet is sent. */
  lemma {:induction false} ServedRun(g: Addr, src: Addr)
    requires ToBytes(g, 16)[0] == 0xff && Admitted(src, g)
    ensures var env := Env(Both, _ => _ => Device(1500, false, false), _ => _ => _ => Sent);
            var events := [Event(10, Mld1Report(2, g)), Event(20, Data(1, src, g))];
            Last(events[..1], env).ok && Last(events, env).ok && 2 in Last(events, env).sent
  {
    hide After, Last, Known, Admitted, ToBytes, Heard, Loses;
    var env := Env(Both, _ => _ => Device(1500, false, false), _ => _ => _ => Sent);
    var events := [Event(10, Mld1Report(2, g)), Event(20, Data(1, src, g))];
    var first := events[..1];
    TableAfter(first, env);
    TableAfter(events, env);
    KnownExactly(After(first[..0], env).table, 2, Device(1500, false, false));
    NothingLost(Last(first, env).rounds, env.result(0));
    assert first == [Event(10, Mld1Report(2, g))] && first[..0] == [];
    AfterNone(env);
    NoData(first, env);
    assert 2 in After(first, env).table;
    SubscribersServed(events, env, 0, g, 2);
  }

  lemma {:induction false} NothingLost(rounds: seq<Round>, result: nat -> (nat -> SendResult))
    requires forall n, j: nat :: result(n)(j) == Sent
    ensures forall j: nat :: !Loses(rounds, result, j)
  {
  }

  lemma {:induction false} NoData(events: seq<Event>, env: Env)
    requires events != [] && !events[|events| - 1].msg.Data?
    ensures Last(events, env).sent == []
  {
    hide After, Known, Report1, Reduction1, Finish, Answered, Broadcast, QueryOne, QueryAll, ExpireGroups;
  }
}
