/** The MLD message handlers as they run: on the linked lists, the interface table and the bytes of
    the message. */
module Daemon {
  import opened Addresses
  import opened Database
  import opened Handlers
  import opened Hub
  import opened Interfaces
  import opened Messages
  import opened Reporting
  import opened Rounds
  import opened Wire

  lemma {:induction false} FinishStep(st: State, i: nat, rec: Record, rest: Visit, now: int)
    ensures Finish(st, i, rest.(recs := [rec] + rest.recs), now) ==
            Finish(RecordStep(st, i, rec, now), i, rest, now)
  {
    hide RecordStep, JoinStep;
    assert ([rec] + rest.recs)[0] == rec && ([rec] + rest.recs)[1..] == rest.recs;
  }

  ghost predicate Apart(conf: Conf, table: IntTable)
    reads conf, table
  {
    table !in conf.repr && table.ints !in conf.repr
  }

  /** l4_ipv6_icmpv6_mld1_report */
  method Mld1Report(conf: Conf, table: IntTable, mode: Mode, i: nat, mca: Addr, result: nat -> (nat -> SendResult),
                    now: int)
    returns (rounds: seq<Round>)
    requires conf.Valid() && table.Valid() && Apart(conf, table) && i in table.Live()
    modifies conf.repr, table.ints
    ensures conf.Valid() && fresh(conf.repr - old(conf.repr)) && table.Valid() && Apart(conf, table)
    ensures var st := Report1(old(conf.view), i, mca, now);
            && conf.view == st.db
            && Aired(table.Live(), rounds) ==
               Broadcast(TableStep(old(table.Live()), SetVersionOf(i, 1, mode, now)), i, st.sent, mode, result)
  {
    hide Conf.Valid, JoinStep, LiveOf, TableOk, IsNew, Broadcast, Emitters, Lost;
    rounds := [];
    table.SetMldVersion(i, 1, mode, now);
    ghost var t := table.Live();
    BroadcastNone(t, i, mode, result);
    if !IsMulticast(mca) || IsMcNodeLocal(mca) || IsMcLinkLocal(mca) {
      return;
    }
    var isnew := conf.Join(mca, i, [Write(ANY, INCLUDE)], now);
    if isnew {
      var on, order := SendReportAll(conf, table, i, mca, mode, result(0));
      BroadcastSnoc(t, i, [], Sending(mca, conf.view), mode, result);
      assert [] + [Sending(mca, conf.view)] == [Sending(mca, conf.view)];
      rounds := [Report(mca, on)];
    }
  }

  /** l4_ipv6_icmpv6_mld1_reduction: a reduction that takes the last source is followed by a query. */
  method Mld1Reduction(conf: Conf, table: IntTable, mode: Mode, i: nat, mca: Addr, result: nat -> SendResult, now: int)
    returns (rounds: seq<Round>)
    requires conf.Valid() && table.Valid() && Apart(conf, table) && i in table.Live()
    modifies conf.repr, table.ints
    ensures conf.Valid() && conf.repr == old(conf.repr) && table.Valid() && Apart(conf, table)
    ensures conf.view == Reduction1(old(conf.view), i, mca)
    ensures var t := TableStep(old(table.Live()), SetVersionOf(i, 1, mode, now));
            Aired(table.Live(), rounds) ==
              if RoutableGroup(mca) && LeaveEmpties(old(conf.view), mca, i) then QueryOne(t, i, mca, result)
              else Aired(t, [])
  {
    hide Conf.Valid, LeaveStep, LeaveEmpties, LiveOf, TableOk;
    rounds := [];
    table.SetMldVersion(i, 1, mode, now);
    if !IsMulticast(mca) || IsMcNodeLocal(mca) || IsMcLinkLocal(mca) {
      return;
    }
    var emptied := conf.Leave(mca, i);
    if emptied {
      table.Slot(i);
      if !table.ints[i].upstream {
        table.Send(i, result(i));
        rounds := [Round.Query(mca, {i})];
      }
    }
  }

  /** The source loop of one record: one write per source, in order. */
  method ReadSources(p: seq<Byte>, off: nat, nsrcs: nat, mode: nat) returns (writes: seq<Write>)
    requires off + ADDR_SIZE * nsrcs <= |p|
    ensures writes == SourceWrites(ReadAddrs(p, off, nsrcs), mode)
  {
    hide ReadAddr, ReadAddrs;
    writes := [];
    var src: nat, left: nat := off, nsrcs;
    while left > 0
      invariant left <= nsrcs && |writes| == nsrcs - left && src == off + ADDR_SIZE * |writes|
      invariant forall k | 0 <= k < |writes| :: writes[k] == Write(ReadAddrs(p, off, nsrcs)[k], mode)
    {
      ReadAddrsAt(p, off, nsrcs, |writes|);
      writes := writes + [Write(ReadAddr(p, src), mode)];
      src := src + ADDR_SIZE;
      left := left - 1;
    }
  }

  /** What one record asks for; its sources start at `src`. */
  method ReadWrites(p: seq<Byte>, kind: nat, mca: Addr, src: nat, nsrcs: nat) returns (writes: seq<Write>)
    requires src + ADDR_SIZE * nsrcs <= |p|
    ensures writes == WritesOf(Record(kind, mca, ReadAddrs(p, src, nsrcs)))
  {
    if nsrcs == 0 {
      writes := [Write(ANY, if Excludes(kind) then INCLUDE else EXCLUDE)];
    } else {
      writes := ReadSources(p, src, nsrcs, ModeOf(kind));
    }
  }

  /** l4_ipv6_icmpv6_mld2_report: the database and the re-broadcasts are those of the records in
      the payload, handled one after the other. */
  method Mld2Report(conf: Conf, table: IntTable, mode: Mode, i: nat, p: seq<Byte>, result: nat -> (nat -> SendResult),
                    now: int)
    returns (rounds: seq<Round>)
    requires conf.Valid() && table.Valid() && Apart(conf, table) && i in table.Live()
    modifies conf.repr, table.ints
    ensures conf.Valid() && fresh(conf.repr - old(conf.repr)) && table.Valid() && Apart(conf, table)
    ensures var st := Finish(State(old(conf.view), false, []), i, ParseReport(p), now);
            && conf.view == st.db
            && Aired(table.Live(), rounds) ==
               Broadcast(TableStep(old(table.Live()), SetVersionOf(i, 2, mode, now)), i, st.sent, mode, result)
  {
    hide Conf.Valid, LiveOf, TableOk, JoinStep, IsNew, WritesOf, ReadAddr, ReadWord, ReadAddrs, RecordStep, Broadcast;
    rounds := [];
    table.SetMldVersion(i, 2, mode, now);
    BroadcastNone(table.Live(), i, mode, result);
    if |p| < REPORT_HEADER {
      return;
    }
    var ngrec := ReadWord(p, 6);
    if REPORT_HEADER + ngrec * RECORD_HEADER > |p| {
      return;
    }
    rounds := WalkRecords(conf, table, mode, i, p, ngrec, result, now);
  }

  /** The walk, with each re-broadcast made as soon as its record has been handled. */
  method WalkRecords(conf: Conf, table: IntTable, mode: Mode, i: nat, p: seq<Byte>, n: nat,
                     result: nat -> (nat -> SendResult), now: int)
    returns (rounds: seq<Round>)
    requires conf.Valid() && table.Valid() && Apart(conf, table)
    modifies conf.repr, table.ints
    ensures conf.Valid() && fresh(conf.repr - old(conf.repr)) && old(conf.repr) <= conf.repr
    ensures table.Valid() && Apart(conf, table)
    ensures var st := Finish(State(old(conf.view), false, []), i, Parse(p, REPORT_HEADER, n), now);
            && conf.view == st.db
            && Aired(table.Live(), rounds) == Broadcast(old(table.Live()), i, st.sent, mode, result)
  {
    hide Conf.Valid, LiveOf, TableOk, JoinStep, IsNew, WritesOf, ReadAddr, ReadWord, ReadAddrs, RecordStep, Records, Finish;
    hide Broadcast, Emitters, Lost, Parse;
    var ngrec: nat, off: nat, isnew := n, REPORT_HEADER, false;
    rounds := [];
    ghost var sent: seq<Sending> := [];
    ghost var t := table.Live();
    BroadcastNone(t, i, mode, result);
    ghost var goal := Finish(State(conf.view, false, []), i, Parse(p, off, n), now);
    while ngrec > 0
      invariant conf.Valid() && fresh(conf.repr - old(conf.repr)) && old(conf.repr) <= conf.repr
      invariant table.Valid() && Apart(conf, table) && |rounds| == |sent|
      invariant Finish(State(conf.view, isnew, sent), i, Parse(p, off, ngrec), now) == goal
      invariant Aired(table.Live(), rounds) == Broadcast(t, i, sent, mode, result)
    {
      ghost var st := State(conf.view, isnew, sent);
      ParseRound(p, off, ngrec);
      if off > |p| || off + RECORD_HEADER > |p| {
        FinishEarly(st, i, Parse(p, off, ngrec), now);
        return;
      }
      var kind, aux, nsrcs, mca := p[off], p[off + 1], ReadWord(p, off + 2), ReadAddr(p, off + 4);
      var src := off + RECORD_HEADER;
      if !KnownKind(kind) {
        FinishEarly(st, i, Parse(p, off, ngrec), now);
        return;
      }
      if src + ADDR_SIZE * nsrcs > |p| {
        FinishEarly(st, i, Parse(p, off, ngrec), now);
        if !IsLocalGroup(mca) {
          isnew := conf.Join(mca, i, [], now);
        }
        return;
      }
      ghost var rec := Record(kind, mca, ReadAddrs(p, src, nsrcs));
      FinishStep(st, i, rec, Parse(p, src + ADDR_SIZE * nsrcs + aux, ngrec - 1), now);
      RecordStepIs(st, i, rec, now);
      if !IsLocalGroup(mca) {
        var writes := ReadWrites(p, kind, mca, src, nsrcs);
        isnew := conf.Join(mca, i, writes, now);
      }
      if isnew {
        BroadcastSnoc(t, i, sent, Sending(mca, conf.view), mode, result);
        var on, order := SendReportAll(conf, table, i, mca, mode, result(|rounds|));
        rounds := rounds + [Report(mca, on)];
        sent := sent + [Sending(mca, conf.view)];
      }
      off := src + ADDR_SIZE * nsrcs + aux;
      ngrec := ngrec - 1;
    }
    ParseNone(p, off);
    FinishEarly(State(conf.view, isnew, sent), i, Parse(p, off, ngrec), now);
  }

  /** One round of the walk, as `Parse` has it. */
  lemma {:induction false} ParseRound(p: seq<Byte>, off: nat, ngrec: nat)
    requires ngrec > 0
    ensures var v := Parse(p, off, ngrec);
            if off > |p| || off + RECORD_HEADER > |p| || !KnownKind(p[off]) then v.recs == [] && v.partial.None?
            else
              var nsrcs, mca, src := ReadWord(p, off + 2), ReadAddr(p, off + 4), off + RECORD_HEADER;
              if src + ADDR_SIZE * nsrcs > |p| then v.recs == [] && v.partial == Some(mca)
              else
                var rest := Parse(p, src + ADDR_SIZE * nsrcs + p[off + 1], ngrec - 1);
                v == rest.(recs := [Record(p[off], mca, ReadAddrs(p, src, nsrcs))] + rest.recs)
  {
    hide ReadAddr, ReadWord, ReadAddrs;
  }

  lemma {:induction false} FinishEarly(st: State, i: nat, v: Visit, now: int)
    requires v.recs == []
    ensures Finish(st, i, v, now) ==
            if v.partial.Some? && !IsLocalGroup(v.partial.value)
            then st.(db := JoinStep(st.db, v.partial.value, i, [], now)) else st
  {
  }

  lemma {:induction false} RecordStepIs(st: State, i: nat, rec: Record, now: int)
    ensures var local := IsLocalGroup(rec.mca);
            var isnew := if local then st.isnew else IsNew(st.db, rec.mca, now);
            var db := if local then st.db else JoinStep(st.db, rec.mca, i, WritesOf(rec), now);
            RecordStep(st, i, rec, now) ==
              State(db, isnew, if isnew then st.sent + [Sending(rec.mca, db)] else st.sent)
  {
  }

  // ----- sends

  /** mld_send_report on a live interface, as one send. */
  method SendReport(conf: Conf, table: IntTable, k: nat, mca: Addr, mode: Mode, result: SendResult)
    returns (emitted: bool)
    requires conf.Valid() && table.Valid() && Apart(conf, table) && k in table.Live()
    modifies table.ints
    ensures table.Valid()
    ensures emitted <==> Emits(conf.view, mca, old(table.Live())[k], mode)
    ensures table.Live() == if emitted && result.NoDevice? then old(table.Live()) - {k} else old(table.Live())
  {
    hide Conf.Valid, LiveOf, Reporting.Reports;
    table.Slot(k);
    var port := table.ints[k];
    emitted := SendsV1(port, mode);
    if SendsV2(port, mode) {
      var any := conf.Reports(Some(mca), port.ifindex);
      emitted := emitted || any;
    }
    if emitted {
      table.Send(k, result);
    }
  }

  /** mld_send_report_all: a report on every live interface but the one the group was heard on, lowest
      index first, where there is one to send; a send that finds the device gone destroys that
      interface. */
  method SendReportAll(conf: Conf, table: IntTable, arrival: nat, mca: Addr, mode: Mode, result: nat -> SendResult)
    returns (on: set<nat>, order: seq<nat>)
    requires conf.Valid() && table.Valid() && Apart(conf, table)
    modifies table.ints
    ensures table.Valid()
    ensures on == (set j | j in order) && forall a, b | 0 <= a < b < |order| :: order[a] < order[b]
    ensures on == Emitters(old(table.Live()), arrival, Sending(mca, conf.view), mode)
    ensures table.Live() == old(table.Live()) - Lost(on, result)
  {
    hide Conf.Valid, LiveOf, TableOk, Emits, Emitters;
    on, order := {}, [];
    var k: nat := 0;
    ghost var before := table.Live();
    ghost var emitters := Emitters(before, arrival, Sending(mca, conf.view), mode);
    EmittersExactly(before, arrival, Sending(mca, conf.view), mode);
    LiveBound(table);
    while k < table.ints.Length
      invariant k <= table.ints.Length && table.Valid() && forall j | j in before :: j < table.ints.Length
      invariant on == set j | j in emitters && j < k
      invariant on == (set j | j in order) && forall a | 0 <= a < |order| :: order[a] < k
      invariant forall a, b | 0 <= a < b < |order| :: order[a] < order[b]
      invariant table.Live() == before - Lost(on, result)
    {
      var found := table.Find(k);
      if found && k != arrival {
        var emitted := SendReport(conf, table, k, mca, mode, result(k));
        if emitted {
          on, order := on + {k}, order + [k];
        }
      }
      k := k + 1;
    }
  }

  lemma {:induction false} EmittersExactly(t: Table, i: nat, s: Sending, mode: Mode)
    ensures forall j | j in Emitters(t, i, s, mode) :: j in t && j != i
    ensures forall j | j in t && j != i :: j in Emitters(t, i, s, mode) <==> Emits(s.db, s.mca, t[j], mode)
  {
    hide Emits;
  }

  /** send_mld_querys */
  method SendQueryAll(table: IntTable, result: nat -> SendResult) returns (on: set<nat>)
    requires table.Valid()
    modifies table.ints
    ensures table.Valid()
    ensures on == Queried(old(table.Live())) && table.Live() == old(table.Live()) - Lost(on, result)
  {
    hide LiveOf, TableOk;
    on := {};
    var k: nat := 0;
    ghost var before := table.Live();
    LiveBound(table);
    while k < table.ints.Length
      invariant k <= table.ints.Length && table.Valid() && forall j | j in before :: j < table.ints.Length
      invariant on == set j | j in Queried(before) && j < k
      invariant table.Live() == before - Lost(on, result)
    {
      var found := table.Find(k);
      if found && !table.ints[k].upstream {
        table.Send(k, result(k));
        on := on + {k};
      }
      k := k + 1;
    }
  }

  /** l4_ipv6_icmpv6_mld_query: the version of the query is noted, then it is answered. */
  method MldQuery(conf: Conf, table: IntTable, mode: Mode, i: nat, v1: bool, result: nat -> (nat -> SendResult),
                  now: int)
    returns (rounds: seq<Round>)
    requires conf.Valid() && table.Valid() && Apart(conf, table) && i in table.Live()
    modifies table.ints
    ensures table.Valid()
    ensures var t := TableStep(old(table.Live()), SetVersionOf(i, if v1 then 1 else 2, mode, now));
            Aired(table.Live(), rounds) == Answered(conf.view, t, i, mode, result)
  {
    hide Conf.Valid, LiveOf, TableOk, Reporting.Reports, AnswerEach, Members;
    rounds := [];
    table.SetMldVersion(i, if v1 then 1 else 2, mode, now);
    table.Slot(i);
    var port := table.ints[i];
    match QueryAnswer(port.mld, mode)
    case OneByOne =>
      var mcas := conf.Members(i);
      rounds := SendEach(conf, table, i, mcas, mode, result);
    case AllAtOnce =>
      var any := conf.Reports(None, i);
      if any {
        table.Send(i, result(0)(i));
        rounds := [FullReport({i})];
      }
    case NoAnswer =>
  }

  /** The reports of an MLDv1 answer. */
  method SendEach(conf: Conf, table: IntTable, i: nat, mcas: seq<Addr>, mode: Mode, result: nat -> (nat -> SendResult))
    returns (rounds: seq<Round>)
    requires conf.Valid() && table.Valid() && Apart(conf, table) && i in table.Live()
    modifies table.ints
    ensures table.Valid()
    ensures Aired(table.Live(), rounds) ==
            AnswerEach(conf.view, old(table.Live()), i, old(table.Live())[i], mcas, mode, result)
  {
    hide Conf.Valid, LiveOf, TableOk, Reporting.Reports, AnswerEach;
    rounds := [];
    table.Slot(i);
    var port := table.ints[i];
    ghost var t := table.Live();
    AnswerEachNone(conf.view, t, i, port, mode, result);
    OwnIndex(t, i);
    for n := 0 to |mcas|
      invariant table.Valid() && (table.Live() == t || table.Live() == t - {i})
      invariant Aired(table.Live(), rounds) == AnswerEach(conf.view, t, i, port, mcas[..n], mode, result)
    {
      AnswerEachStep(conf.view, t, i, port, mcas, n, mode, result);
      var live := table.Find(i);
      var any := false;
      if live && SendsV2(port, mode) {
        any := conf.Reports(Some(mcas[n]), i);
      }
      if SendsV1(port, mode) || any {
        if live {
          table.Send(i, result(|rounds|)(i));
        }
        rounds := rounds + [Report(mcas[n], {i})];
      }
    }
    assert mcas[..|mcas|] == mcas;
  }

  lemma {:induction false} OwnIndex(t: Table, i: nat)
    requires TableOk(t) && i in t
    ensures t[i].ifindex == i
  {
  }

  lemma {:induction false} LiveBound(table: IntTable)
    ensures forall i | i in table.Live() :: i < table.ints.Length
  {
  }
}
