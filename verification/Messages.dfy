/** Histories of messages and timeouts as the daemon meets them, and what they come to as
    histories of database steps. */
module Messages {
  import opened Addresses
  import opened Database
  import opened Invariant
  import opened Handlers
  import opened Forwarding
  import opened Runs
  import opened Wire

  /** What a walk leaves behind; the record it gave up on has had its group looked up. */
  function Finish(st: State, i: nat, v: Visit, now: int): State {
    var st1 := Records(st, i, v.recs, now);
    if v.partial.Some? && !IsLocalGroup(v.partial.value)
    then st1.(db := JoinStep(st1.db, v.partial.value, i, [], now))
    else st1
  }

  /** A message on interface `i`, with the bytes of an MLDv2 report as received, or a data packet
      that reaches the forwarder, or the timeout, with the interfaces a rescan comes across. */
  datatype Message =
    | Mld1Report(i: nat, mca: Addr)
    | Mld1Reduction(i: nat, mca: Addr)
    | Mld2Report(i: nat, payload: seq<Byte>)
    | Query(i: nat, v1: bool)
    | Data(i: nat, src: Addr, dst: Addr)
    | Timeout(found: seq<nat>)

  datatype Event = Event(now: int, msg: Message)

  function Handle(db: DB, e: Event): DB {
    match e.msg
    case Mld1Report(i, mca) => Report1(db, i, mca, e.now).db
    case Mld1Reduction(i, mca) => Reduction1(db, i, mca)
    case Mld2Report(i, payload) => Finish(State(db, false, []), i, ParseReport(payload), e.now).db
    case Query(i, v1) => db
    case Data(i, src, dst) => db
    case Timeout(found) => ExpireGroups(db, e.now)
  }

  function DbAfter(h: seq<Event>): DB {
    if h == [] then [] else Handle(DbAfter(h[..|h| - 1]), h[|h| - 1])
  }

  ghost predicate EventsOk(h: seq<Event>) {
    forall j, k | 0 <= j < k < |h| :: h[j].now <= h[k].now
  }

  // ----- messages as steps

  function VisitOps(i: nat, v: Visit): seq<Op> {
    OpsOf(i, v.recs) +
    if v.partial.Some? && !IsLocalGroup(v.partial.value) then [Join(v.partial.value, i, [])] else []
  }

  function OpsOfMessage(msg: Message): seq<Op> {
    match msg
    case Mld1Report(i, mca) => if RoutableGroup(mca) then [Join(mca, i, [Write(ANY, INCLUDE)])] else []
    case Mld1Reduction(i, mca) => if RoutableGroup(mca) then [Leave(mca, i)] else []
    case Mld2Report(i, payload) => VisitOps(i, ParseReport(payload))
    case Query(i, v1) => []
    case Data(i, src, dst) => []
    case Timeout(found) => [Expire]
  }

  function Stamp(ops: seq<Op>, now: int): (r: seq<Step>)
    ensures |r| == |ops| && forall k | 0 <= k < |r| :: r[k] == Step(now, ops[k])
  {
    seq(|ops|, k requires 0 <= k < |ops| => Step(now, ops[k]))
  }

  function StepsOf(h: seq<Event>): seq<Step> {
    if h == [] then []
    else StepsOf(h[..|h| - 1]) + Stamp(OpsOfMessage(h[|h| - 1].msg), h[|h| - 1].now)
  }

  lemma {:induction false} ApplyAllSnoc(db: DB, ops: seq<Op>, op: Op, now: int)
    ensures ApplyAll(db, ops + [op], now) == Apply(ApplyAll(db, ops, now), op, now)
    decreases |ops|
  {
    hide Apply;
    if ops == [] {
      assert ops + [op] == [op] && [op][1..] == [];
    } else {
      assert (ops + [op])[0] == ops[0] && (ops + [op])[1..] == ops[1..] + [op];
      ApplyAllSnoc(Apply(db, ops[0], now), ops[1..], op, now);
    }
  }

  lemma {:induction false} RunStamp(s: seq<Step>, ops: seq<Op>, now: int)
    ensures Run(s + Stamp(ops, now)) == ApplyAll(Run(s), ops, now)
    decreases |ops|
  {
    hide Apply;
    if ops == [] {
      assert s + Stamp(ops, now) == s;
    } else {
      var n := |ops| - 1;
      RunStamp(s, ops[..n], now);
      ApplyAllSnoc(Run(s), ops[..n], ops[n], now);
      assert ops == ops[..n] + [ops[n]];
      var all := s + Stamp(ops, now);
      assert all[..|all| - 1] == s + Stamp(ops[..n], now);
    }
  }

  /** Every message is a sequence of database steps. */
  lemma {:induction false} HandleIsSteps(db: DB, e: Event)
    ensures Handle(db, e) == ApplyAll(db, OpsOfMessage(e.msg), e.now)
  {
    hide JoinStep, LeaveStep, ExpireGroups, ParseReport;
    match e.msg
    case Mld2Report(i, payload) =>
      var v := ParseReport(payload);
      var ops := OpsOf(i, v.recs);
      RecordsFold(State(db, false, []), i, v.recs, e.now);
      if v.partial.Some? && !IsLocalGroup(v.partial.value) {
        ApplyAllSnoc(db, ops, Join(v.partial.value, i, []), e.now);
      } else {
        assert ops + [] == ops;
      }
    case Mld1Report(i, mca) => ApplyOne(db, Join(mca, i, [Write(ANY, INCLUDE)]), e.now);
    case Mld1Reduction(i, mca) => ApplyOne(db, Leave(mca, i), e.now);
    case Timeout(found) => ApplyOne(db, Expire, e.now);
    case Query(i, v1) =>
    case Data(i, src, dst) =>
  }

  lemma {:induction false} ApplyOne(db: DB, op: Op, now: int)
    ensures ApplyAll(db, [op], now) == Apply(db, op, now)
  {
    assert [op][1..] == [];
  }

  lemma {:induction false} MessageOpsOk(msg: Message)
    ensures forall op | op in OpsOfMessage(msg) :: OpOk(op)
  {
    hide ParseReport;
    if msg.Mld2Report? {
      OpsOfOk(msg.i, ParseReport(msg.payload).recs);
    }
  }

  lemma {:induction false} StepsOk(h: seq<Event>, now: int)
    requires EventsOk(h) && (h != [] ==> h[|h| - 1].now <= now)
    ensures RunOk(StepsOf(h)) && forall k | 0 <= k < |StepsOf(h)| :: StepsOf(h)[k].now <= now
  {
    hide OpOk, OpsOfMessage;
    if h != [] {
      var n := |h| - 1;
      StepsOk(h[..n], h[n].now);
      MessageOpsOk(h[n].msg);
      var a, b := StepsOf(h[..n]), Stamp(OpsOfMessage(h[n].msg), h[n].now);
      assert forall k | 0 <= k < |b| :: b[k].op in OpsOfMessage(h[n].msg);
      assert forall k | 0 <= k < |a| :: (a + b)[k] == a[k];
      assert forall k | |a| <= k < |a + b| :: (a + b)[k] == b[k - |a|];
    }
  }

  /** A history of messages is a history of steps, so every theorem about runs is one about
      messages. */
  lemma {:induction false} MessagesAreRuns(h: seq<Event>)
    requires EventsOk(h)
    ensures RunOk(StepsOf(h)) && Run(StepsOf(h)) == DbAfter(h)
  {
    hide Apply, Handle, OpsOfMessage;
    if h == [] {
      RunEmpty();
    } else {
      var n := |h| - 1;
      StepsOk(h, h[n].now);
      MessagesAreRuns(h[..n]);
      RunStamp(StepsOf(h[..n]), OpsOfMessage(h[n].msg), h[n].now);
      HandleIsSteps(DbAfter(h[..n]), h[n]);
    }
  }

  // ----- retention, in terms of messages

  /** The steps of messages after position `k` keep what the retention theorem asks for. */
  ghost predicate Calm(s: seq<Step>, k: nat, g: Addr, i: nat, until: int) {
    forall j | k < j < |s| :: s[j].op != Leave(g, i) && (s[j].op.Expire? ==> s[j].now <= until)
  }

  ghost predicate CalmEvent(e: Event, g: Addr, i: nat, until: int) {
    e.msg != Mld1Reduction(i, g) && (e.msg.Timeout? ==> e.now <= until)
  }

  lemma {:induction false} CalmOps(e: Event, g: Addr, i: nat, until: int)
    requires CalmEvent(e, g, i, until)
    ensures forall op | op in OpsOfMessage(e.msg) :: op != Leave(g, i) && (op.Expire? ==> e.now <= until)
  {
    hide ParseReport;
    if e.msg.Mld2Report? {
      OpsOfOk(e.msg.i, ParseReport(e.msg.payload).recs);
    }
  }

  lemma {:induction false} ReportPosition(h: seq<Event>, k: nat, g: Addr, i: nat, until: int) returns (p: nat)
    requires k < |h| && h[k].msg == Mld1Report(i, g) && RoutableGroup(g)
    requires forall j | k < j < |h| :: CalmEvent(h[j], g, i, until)
    ensures var s := StepsOf(h);
            && p < |s| && s[p] == Step(h[k].now, Join(g, i, [Write(ANY, INCLUDE)]))
            && Calm(s, p, g, i, until)
    decreases |h|
  {
    hide OpsOfMessage, CalmEvent;
    var n := |h| - 1;
    var a, b := StepsOf(h[..n]), Stamp(OpsOfMessage(h[n].msg), h[n].now);
    assert StepsOf(h) == a + b;
    if k == n {
      p := |a|;
      MessageOpsJoin(i, g);
    } else {
      assert forall j | k < j < n :: h[..n][j] == h[j];
      p := ReportPosition(h[..n], k, g, i, until);
      CalmOps(h[n], g, i, until);
      assert forall j | 0 <= j < |b| :: b[j].op in OpsOfMessage(h[n].msg);
      assert forall j | 0 <= j < |a| :: (a + b)[j] == a[j];
      assert forall j | |a| <= j < |a + b| :: (a + b)[j] == b[j - |a|];
    }
  }

  lemma {:induction false} MessageOpsJoin(i: nat, g: Addr)
    requires RoutableGroup(g)
    ensures OpsOfMessage(Mld1Report(i, g)) == [Join(g, i, [Write(ANY, INCLUDE)])]
  {
  }

  /** Retention over messages: after an MLDv1 report for `g` on `i`, whatever well-formed or
      malformed messages follow, as long as none is an MLDv1 reduction for `g` on `i` and no timeout
      comes more than 250 seconds later, every routable packet for `g` from another interface is
      sent on `i` while `i` is live. */
  lemma {:induction false} MessageRetention(h: seq<Event>, k: nat, g: Addr, i: nat, arrival: nat, src: Addr,
                                            live: set<nat>)
    requires EventsOk(h) && k < |h| && h[k].msg == Mld1Report(i, g) && RoutableGroup(g)
    requires forall j | k < j < |h| ::
               CalmEvent(h[j], g, i, h[k].now + 250)
    requires Routable(src, g) && arrival != i && i in live
    ensures i in Forward(DbAfter(h), arrival, src, g, live)
  {
    hide Forward, StepsOf, DbAfter, Run, RunOk, CalmEvent, EventsOk;
    MessagesAreRuns(h);
    var p := ReportPosition(h, k, g, i, h[k].now + 250);
    Retention(StepsOf(h), p, g, i, arrival, src, live);
  }

  // ----- what each message means for one row

  /** What one record says of source `s`, by the number of its type. */
  function RecordSays(r: Record, s: Addr): Option<nat> {
    if r.kind == 2 || r.kind == 4 || r.kind == 6 then
      if r.srcs == [] then (if s == ANY then Some(INCLUDE) else None)
      else if s in r.srcs && s != ANY then Some(EXCLUDE) else None
    else
      if s in r.srcs then Some(INCLUDE) else None
  }

  /** The last thing the records say of source `s` in group `g`. */
  function RecordsSay(recs: seq<Record>, g: Addr, s: Addr): Option<nat> {
    if recs == [] then None
    else
      var r := recs[|recs| - 1];
      if r.mca == g && RecordSays(r, s).Some? then RecordSays(r, s) else RecordsSay(recs[..|recs| - 1], g, s)
  }

  /** What a message says of source `s` of group `g` on interface `i`. */
  function Says(msg: Message, g: Addr, i: nat, s: Addr): Option<nat> {
    match msg
    case Mld1Report(j, mca) => if j == i && mca == g && IsMulticast(g) && s == ANY then Some(INCLUDE) else None
    case Mld2Report(j, payload) => if j == i then RecordsSay(ParseReport(payload).recs, g, s) else None
    case Mld1Reduction(_, _) => None
    case Query(_, _) => None
    case Data(_, _, _) => None
    case Timeout(_) => None
  }

  /** The message ends a subscription to `s` made at time `since` without saying anything new of it. */
  predicate Ends(e: Event, g: Addr, i: nat, s: Addr, since: int) {
    || (e.msg == Mld1Reduction(i, g) && IsMulticast(g) && s == ANY)
    || (e.msg.Timeout? && e.now - since > 250)
  }

  lemma {:induction false} RecordRow(st: State, i: nat, r: Record, g: Addr, i': nat, s: Addr, now: int)
    requires Inv(st.db, now) && !IsLocalGroup(g)
    ensures var db' := RecordStep(st, i, r, now).db;
            && Inv(db', now)
            && Lookup(db', g, i', s) ==
               if i' == i && r.mca == g && RecordSays(r, s).Some? then Some(Sub(s, RecordSays(r, s).value, now))
               else Lookup(st.db, g, i', s)
  {
    hide Inv, JoinStep, Lookup, LastWrite, IsNew, IsLocalGroup, WritesOf;
    if !IsLocalGroup(r.mca) {
      ApplyOk(st.db, Join(r.mca, i, WritesOf(r)), now, now);
      if r.mca == g && i' == i {
        RecordMeaning(st.db, i, r, s, now);
      } else {
        LookupAfter(st.db, Join(r.mca, i, WritesOf(r)), g, i', s, now, now);
      }
    }
  }

  lemma {:induction false} RecordsRow(st: State, i: nat, recs: seq<Record>, g: Addr, i': nat, s: Addr, now: int)
    requires Inv(st.db, now) && !IsLocalGroup(g)
    ensures var db' := Records(st, i, recs, now).db;
            && Inv(db', now)
            && Lookup(db', g, i', s) ==
               if i' == i && RecordsSay(recs, g, s).Some? then Some(Sub(s, RecordsSay(recs, g, s).value, now))
               else Lookup(st.db, g, i', s)
  {
    hide Inv, RecordStep, Lookup, RecordSays, IsLocalGroup;
    if recs != [] {
      var n := |recs| - 1;
      RecordsRow(st, i, recs[..n], g, i', s, now);
      assert recs == recs[..n] + [recs[n]];
      RecordsSnoc(st, i, recs[..n], recs[n], now);
      RecordRow(Records(st, i, recs[..n], now), i, recs[n], g, i', s, now);
    }
  }

  lemma {:induction false} VisitRow(db: DB, i: nat, v: Visit, g: Addr, i': nat, s: Addr, now: int)
    requires Inv(db, now) && !IsLocalGroup(g)
    ensures var db' := Finish(State(db, false, []), i, v, now).db;
            Lookup(db', g, i', s) ==
              if i' == i && RecordsSay(v.recs, g, s).Some? then Some(Sub(s, RecordsSay(v.recs, g, s).value, now))
              else Lookup(db, g, i', s)
  {
    hide Inv, Records, JoinStep, Lookup, RecordsSay, IsLocalGroup;
    var st := Records(State(db, false, []), i, v.recs, now);
    RecordsRow(State(db, false, []), i, v.recs, g, i', s, now);
    if v.partial.Some? && !IsLocalGroup(v.partial.value) {
      LookupAfter(st.db, Join(v.partial.value, i, []), g, i', s, now, now);
    }
  }

  /** The group of a record that claims too many sources enters the database without any source, and is
      taken as just forwarded although no report for it was sent. */
  lemma {:induction false} OverlongRecord(st: State, i: nat, recs: seq<Record>, g: Addr, now: int)
    requires !IsLocalGroup(g)
    ensures var st' := Finish(st, i, Visit(recs, Some(g), TooManySources), now);
            && ForwardedAt(st'.db, g) == Some(now) && Present(st'.db, g)
            && st'.sent == Records(st, i, recs, now).sent
  {
    hide JoinStep, Records;
    JoinForwardedAt(Records(st, i, recs, now).db, g, i, [], now, g);
  }

  /** Every message, for every source of every group on every interface: the row is what the message
      says, or gone if the message ends it, or as it was. */
  lemma {:induction false} MessageMeaning(db: DB, e: Event, g: Addr, i: nat, s: Addr)
    requires Inv(db, e.now) && !IsLocalGroup(g)
    ensures var before, after := Lookup(db, g, i, s), Lookup(Handle(db, e), g, i, s);
            var says := Says(e.msg, g, i, s);
            if says.Some? then after == Some(Sub(s, says.value, e.now))
            else if before.Some? && Ends(e, g, i, s, before.value.refresh) then after.None?
            else after == before
  {
    hide Inv, JoinStep, LeaveStep, ExpireGroups, Lookup, Finish, ParseReport, IsMulticast, IsLocalGroup;
    match e.msg
    case Mld1Report(j, mca) =>
      if RoutableGroup(mca) {
        LookupAfter(db, Join(mca, j, [Write(ANY, INCLUDE)]), g, i, s, e.now, e.now);
        OneWriteLast(Write(ANY, INCLUDE), s);
      }
    case Mld1Reduction(j, mca) =>
      if RoutableGroup(mca) {
        LookupAfter(db, Leave(mca, j), g, i, s, e.now, e.now);
      }
    case Mld2Report(j, payload) =>
      VisitRow(db, j, ParseReport(payload), g, i, s, e.now);
    case Query(_, _) =>
    case Data(_, _, _) =>
    case Timeout(_) =>
      TimeoutMeaning(db, g, i, s, e.now);
  }

  // ----- histories of messages

  /** Message `k` gave source `s` its mode, and nothing since said anything else of it or ended it. */
  ghost predicate Stands(h: seq<Event>, k: nat, g: Addr, i: nat, s: Addr, mode: nat) {
    && k < |h| && Says(h[k].msg, g, i, s) == Some(mode)
    && forall j | k < j < |h| :: Says(h[j].msg, g, i, s).None? && !Ends(h[j], g, i, s, h[k].now)
  }

  lemma {:induction false} StandsStep(h: seq<Event>, k: nat, g: Addr, i: nat, s: Addr, mode: nat)
    requires h != []
    ensures var n := |h| - 1;
            Stands(h, k, g, i, s, mode) <==>
              if k == n then Says(h[n].msg, g, i, s) == Some(mode)
              else Stands(h[..n], k, g, i, s, mode) && Says(h[n].msg, g, i, s).None? && !Ends(h[n], g, i, s, h[k].now)
    ensures Stands(h, k, g, i, s, mode) ==> k < |h|
  {
    hide Says, Ends;
    var n := |h| - 1;
    assert forall j | 0 <= j < n :: h[..n][j] == h[j];
  }

  lemma {:induction false} NothingStands(g: Addr, i: nat, s: Addr)
    ensures Lookup(DbAfter([]), g, i, s).None?
    ensures !exists k: nat, mode: nat :: Stands([], k, g, i, s, mode)
  {
  }

  lemma {:induction false} DbStep(h: seq<Event>)
    requires h != []
    ensures DbAfter(h) == Handle(DbAfter(h[..|h| - 1]), h[|h| - 1])
  {
  }

  lemma {:induction false} DbInv(h: seq<Event>, now: int)
    requires EventsOk(h) && (h != [] ==> h[|h| - 1].now <= now)
    ensures Inv(DbAfter(h), now)
  {
    hide Inv, DbAfter, StepsOf, Run;
    MessagesAreRuns(h);
    StepsOk(h, now);
    RunInv(StepsOf(h), now);
  }

  /** A source has a mode and a time exactly when a message that gave it these still stands. */
  lemma {:induction false} MessageHistory(h: seq<Event>, g: Addr, i: nat, s: Addr, sub: Sub)
    requires EventsOk(h) && !IsLocalGroup(g)
    ensures Lookup(DbAfter(h), g, i, s) == Some(sub) <==>
            exists k: nat :: Stands(h, k, g, i, s, sub.mode) && k < |h| && sub == Sub(s, sub.mode, h[k].now)
    decreases |h|
  {
    hide Inv, Lookup, DbAfter, Handle, Says, Ends, Stands, IsLocalGroup;
    if h == [] {
      NothingStands(g, i, s);
      return;
    }
    var n := |h| - 1;
    DbStep(h);
    DbInv(h[..n], h[n].now);
    MessageMeaning(DbAfter(h[..n]), h[n], g, i, s);
    MessageHistory(h[..n], g, i, s, sub);
    if Lookup(DbAfter(h), g, i, s) == Some(sub) {
      if Says(h[n].msg, g, i, s).Some? {
        StandsStep(h, n, g, i, s, sub.mode);
      } else {
        var k: nat :| Stands(h[..n], k, g, i, s, sub.mode) && k < n && sub == Sub(s, sub.mode, h[k].now);
        StandsStep(h, k, g, i, s, sub.mode);
      }
    }
    if k: nat :| Stands(h, k, g, i, s, sub.mode) && k < |h| && sub == Sub(s, sub.mode, h[k].now) {
      StandsStep(h, k, g, i, s, sub.mode);
    }
  }

  // ----- which packets are routed, by their bytes

  /** The source is neither `::` nor multicast (ff00::/8) nor link-local (fe80::/10); the destination is not
      `::` and not of node-local (ffx1::/16) or link-local (ffx2::/16) scope. */
  predicate Admitted(src: Addr, dst: Addr) {
    var s, d := ToBytes(src, 16), ToBytes(dst, 16);
    && src != 0 && dst != 0 && s[0] != 0xff && !(s[0] == 0xfe && 0x80 <= s[1] <= 0xbf)
    && !(d[0] == 0xff && (d[1] % 16 == 1 || d[1] % 16 == 2))
  }

  /** A copy goes to exactly the other live interfaces that include `::` or the source, if the addresses
      are admitted. */
  lemma {:induction false} ForwardByBytes(db: DB, arrival: nat, src: Addr, dst: Addr, live: set<nat>, i: nat, now: int)
    requires Inv(db, now)
    ensures i in Forward(db, arrival, src, dst, live) <==>
            && Admitted(src, dst) && i != arrival && i in live
            && (IsIncluded(Lookup(db, dst, i, ANY)) || IsIncluded(Lookup(db, dst, i, src)))
  {
    hide Inv, Lookup, Forward, ToBytes, IsMulticast, IsMcNodeLocal, IsMcLinkLocal, IsLinkLocal;
    ForwardExact(db, arrival, src, dst, live, now);
    ClassesByBytes(src);
    ClassesByBytes(dst);
  }

  /** From messages to copies: a packet goes out on another live interface `i` exactly when its addresses
      are admitted and a message on `i` that included its source, or `::`, still stands. */
  lemma {:induction false} MessageProvenance(h: seq<Event>, arrival: nat, src: Addr, dst: Addr, live: set<nat>, i: nat)
    requires EventsOk(h)
    ensures i in Forward(DbAfter(h), arrival, src, dst, live) <==>
            && Admitted(src, dst) && i != arrival && i in live
            && exists k: nat, s | s == ANY || s == src :: Stands(h, k, dst, i, s, INCLUDE)
  {
    hide Inv, Lookup, Forward, DbAfter, Stands, Admitted;
    var now := if h == [] then 0 else h[|h| - 1].now;
    DbInv(h, now);
    ForwardByBytes(DbAfter(h), arrival, src, dst, live, i, now);
    if Admitted(src, dst) {
      AdmittedGroup(src, dst);
      IncludedStands(h, dst, i, ANY);
      IncludedStands(h, dst, i, src);
    }
  }

  lemma {:induction false} AdmittedRoutable(src: Addr, dst: Addr)
    requires Admitted(src, dst)
    ensures Routable(src, dst)
    ensures ToBytes(dst, 16)[0] == 0xff ==> RoutableGroup(dst)
  {
    hide ToBytes, IsMulticast, IsMcNodeLocal, IsMcLinkLocal, IsLinkLocal;
    ClassesByBytes(src);
    ClassesByBytes(dst);
  }

  lemma {:induction false} AdmittedGroup(src: Addr, dst: Addr)
    requires Admitted(src, dst)
    ensures !IsLocalGroup(dst)
  {
    hide ToBytes;
    ClassesByBytes(dst);
  }

  lemma {:induction false} IncludedStands(h: seq<Event>, g: Addr, i: nat, s: Addr)
    requires EventsOk(h) && !IsLocalGroup(g)
    ensures IsIncluded(Lookup(DbAfter(h), g, i, s)) <==> exists k: nat :: Stands(h, k, g, i, s, INCLUDE)
  {
    hide Lookup, DbAfter, Says, Ends, IsLocalGroup;
    var e := Lookup(DbAfter(h), g, i, s);
    if IsIncluded(e) {
      MessageHistory(h, g, i, s, e.value);
    }
    if k: nat :| Stands(h, k, g, i, s, INCLUDE) {
      MessageHistory(h, g, i, s, Sub(s, INCLUDE, h[k].now));
    }
  }
}
