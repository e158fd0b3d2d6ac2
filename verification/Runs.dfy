/** Theorems about whole histories of the database. */
module Runs {
  import opened Addresses
  import opened Database
  import opened Invariant
  import opened Forwarding

  datatype Step = Step(now: int, op: Op)

  /** The clock never goes back, and the steps are ones the handlers make. */
  ghost predicate RunOk(h: seq<Step>) {
    && (forall k | 0 <= k < |h| :: OpOk(h[k].op))
    && (forall j, k | 0 <= j < k < |h| :: h[j].now <= h[k].now)
  }

  predicate NotBefore(now: int, h: seq<Step>) {
    h != [] ==> h[|h| - 1].now <= now
  }

  function Run(h: seq<Step>): DB {
    if h == [] then []
    else Apply(Run(h[..|h| - 1]), h[|h| - 1].op, h[|h| - 1].now)
  }

  lemma {:induction false} RunEmpty()
    ensures Run([]) == []
  {
  }

  /** Every reachable database satisfies the invariant. */
  lemma {:induction false} RunInv(h: seq<Step>, now: int)
    requires RunOk(h) && NotBefore(now, h)
    ensures Inv(Run(h), now)
  {
    if h != [] {
      var n := |h| - 1;
      RunInv(h[..n], h[n].now);
      ApplyOk(Run(h[..n]), h[n].op, h[n].now, h[n].now);
      InvLater(Run(h), h[n].now, now);
    }
  }

  lemma {:induction false} LastStep(h: seq<Step>, g: Addr, i: nat, s: Addr)
    requires RunOk(h) && h != []
    ensures var n := |h| - 1;
            && RunOk(h[..n])
            && Entry(Run(h), g, i) == EntryEffect(h[n].op, g, i, Entry(Run(h[..n]), g, i), h[n].now)
            && Lookup(Run(h), g, i, s) == LookupEffect(h[n].op, g, i, s, Lookup(Run(h[..n]), g, i, s), h[n].now)
  {
    var n := |h| - 1;
    RunInv(h[..n], h[n].now);
    EntryAfter(Run(h[..n]), h[n].op, g, i, h[n].now, h[n].now);
    LookupAfter(Run(h[..n]), h[n].op, g, i, s, h[n].now, h[n].now);
  }

  // ----- provenance, freshness and retention

  /** The step is a report on `i` for `g` that sets the mode of source `s`. */
  predicate Names(op: Op, g: Addr, i: nat, s: Addr) {
    op.Join? && op.mca == g && op.ifindex == i && LastWrite(op.writes, s).Some?
  }

  predicate Revokes(op: Op, g: Addr, i: nat, s: Addr) {
    op == Leave(g, i) && s == ANY
  }

  /** Step `k` put `sub` in the database, and nothing since overwrote, revoked or expired it. */
  ghost predicate Backs(h: seq<Step>, k: nat, g: Addr, i: nat, s: Addr, sub: Sub) {
    && k < |h| && Names(h[k].op, g, i, s)
    && sub == Sub(s, LastWrite(h[k].op.writes, s).value, h[k].now)
    && forall j | k < j < |h| :: Outlives(h[j].op, g, i, s, h[k].now, h[j].now)
  }

  predicate Outlives(op: Op, g: Addr, i: nat, s: Addr, since: int, now: int) {
    && !Names(op, g, i, s) && !Revokes(op, g, i, s)
    && (op.Expire? ==> now - since <= 250)
  }

  lemma {:induction false} BacksStep(h: seq<Step>, k: nat, g: Addr, i: nat, s: Addr, sub: Sub)
    requires h != []
    ensures var n := |h| - 1;
            Backs(h, k, g, i, s, sub) <==>
              if k == n then Names(h[n].op, g, i, s) && sub == Sub(s, LastWrite(h[n].op.writes, s).value, h[n].now)
              else Backs(h[..n], k, g, i, s, sub) && Outlives(h[n].op, g, i, s, sub.refresh, h[n].now)
  {
    hide Names, Revokes, LastWrite;
    var n := |h| - 1;
    assert forall j | 0 <= j < n :: h[..n][j] == h[j];
  }

  /** An entry is in the database if and only if the history backs it. */
  lemma {:induction false} History(h: seq<Step>, g: Addr, i: nat, s: Addr, sub: Sub)
    requires RunOk(h)
    ensures Lookup(Run(h), g, i, s) == Some(sub) <==> exists k: nat :: Backs(h, k, g, i, s, sub)
  {
    hide Run, Lookup, LastWrite, Backs;
    if h == [] {
      HistoryEmpty(g, i, s, sub);
      return;
    }
    var n := |h| - 1;
    LastStep(h, g, i, s);
    History(h[..n], g, i, s, sub);
    if Lookup(Run(h), g, i, s) == Some(sub) {
      if Names(h[n].op, g, i, s) {
        BacksStep(h, n, g, i, s, sub);
      } else {
        var k: nat :| Backs(h[..n], k, g, i, s, sub);
        BacksBound(h[..n], k, g, i, s, sub);
        BacksStep(h, k, g, i, s, sub);
      }
    }
    if k: nat :| Backs(h, k, g, i, s, sub) {
      BacksStep(h, k, g, i, s, sub);
      BacksBound(h, k, g, i, s, sub);
    }
  }

  lemma {:induction false} HistoryEmpty(g: Addr, i: nat, s: Addr, sub: Sub)
    ensures Lookup(Run([]), g, i, s) == None
    ensures !exists k: nat :: Backs([], k, g, i, s, sub)
  {
  }

  lemma {:induction false} BacksBound(h: seq<Step>, k: nat, g: Addr, i: nat, s: Addr, sub: Sub)
    requires RunOk(h) && Backs(h, k, g, i, s, sub)
    ensures k < |h| && sub.refresh == h[k].now <= h[|h| - 1].now
  {
  }

  /** Provenance: the forwarder sends a copy of (src, dst) on `i` if and only if an earlier
      report on `i` for `dst` asked for `src` or for `::`, and was not overwritten, revoked or
      expired since. */
  lemma {:induction false} Provenance(h: seq<Step>, arrival: nat, src: Addr, dst: Addr, live: set<nat>, i: nat,
                                      now: int)
    requires RunOk(h) && NotBefore(now, h)
    ensures i in Forward(Run(h), arrival, src, dst, live) <==>
            && Routable(src, dst) && i != arrival && i in live
            && exists k: nat, s | s == ANY || s == src ::
                 k < |h| && Backs(h, k, dst, i, s, Sub(s, INCLUDE, h[k].now))
  {
    RunInv(h, now);
    ForwardExact(Run(h), arrival, src, dst, live, now);
    IncludedIsBacked(h, dst, i, ANY);
    IncludedIsBacked(h, dst, i, src);
  }

  lemma {:induction false} IncludedIsBacked(h: seq<Step>, g: Addr, i: nat, s: Addr)
    requires RunOk(h)
    ensures IsIncluded(Lookup(Run(h), g, i, s)) <==>
            exists k: nat :: k < |h| && Backs(h, k, g, i, s, Sub(s, INCLUDE, h[k].now))
  {
    var e := Lookup(Run(h), g, i, s);
    if IsIncluded(e) {
      History(h, g, i, s, e.value);
      var k: nat :| Backs(h, k, g, i, s, e.value);
      assert Backs(h, k, g, i, s, Sub(s, INCLUDE, h[k].now));
    }
    if k: nat :| k < |h| && Backs(h, k, g, i, s, Sub(s, INCLUDE, h[k].now)) {
      History(h, g, i, s, Sub(s, INCLUDE, h[k].now));
    }
  }

  /** Freshness: the report behind a forwarded copy is at most 250 seconds older than any timeout
      so far, so its age is at most 250 seconds plus the time since the last timeout. */
  lemma {:induction false} Freshness(h: seq<Step>, e: nat, arrival: nat, src: Addr, dst: Addr, live: set<nat>, i: nat,
                                     now: int)
    requires RunOk(h) && NotBefore(now, h) && i in Forward(Run(h), arrival, src, dst, live)
    requires e < |h| && h[e].op.Expire?
    ensures exists k: nat, s | s == ANY || s == src ::
              && k < |h| && Backs(h, k, dst, i, s, Sub(s, INCLUDE, h[k].now))
              && now - h[k].now <= 250 + (now - h[e].now)
  {
    hide Run, Forward, LastWrite;
    Provenance(h, arrival, src, dst, live, i, now);
    var k: nat, s :| (s == ANY || s == src) && k < |h| && Backs(h, k, dst, i, s, Sub(s, INCLUDE, h[k].now));
    assert e > k ==> Outlives(h[e].op, dst, i, s, h[k].now, h[e].now);
  }

  /** A report at step `k` that asks for `::` keeps an INCLUDE entry alive through every
      continuation without a reduction and without a timeout more than 250 seconds later. */
  lemma {:induction false} KeepsAny(h: seq<Step>, k: nat, g: Addr, i: nat)
    requires RunOk(h) && k < |h| && Names(h[k].op, g, i, ANY)
    requires forall j | k < j < |h| ::
               && h[j].op != Leave(g, i)
               && (h[j].op.Expire? ==> h[j].now <= h[k].now + 250)
    ensures var e := Lookup(Run(h), g, i, ANY);
            e.Some? && e.value.mode == INCLUDE && h[k].now <= e.value.refresh <= h[|h| - 1].now
  {
    hide Run, Lookup, LastWrite;
    var n := |h| - 1;
    LastStep(h, g, i, ANY);
    if k < n {
      assert forall j | 0 <= j < n :: h[..n][j] == h[j];
      KeepsAny(h[..n], k, g, i);
    }
    if Names(h[n].op, g, i, ANY) {
      IncludesAny(h[n].op.writes);
    }
  }

  lemma {:induction false} IncludesAny(writes: seq<Write>)
    requires forall w | w in writes :: ValidMode(w.mode)
    ensures LastWrite(writes, ANY).Some? ==> LastWrite(writes, ANY).value == INCLUDE
  {
    if writes != [] {
      IncludesAny(writes[..|writes| - 1]);
      assert writes[|writes| - 1] in writes;
    }
  }

  /** Retention: after an MLDv1 report for `g` on `i`, whatever other reports, records,
      reductions and timely timeouts follow, every routable packet for `g` from another
      interface is sent on `i` while `i` is live. */
  lemma {:induction false} Retention(h: seq<Step>, k: nat, g: Addr, i: nat, arrival: nat, src: Addr, live: set<nat>)
    requires RunOk(h) && k < |h| && h[k].op == Join(g, i, [Write(ANY, INCLUDE)])
    requires forall j | k < j < |h| ::
               && h[j].op != Leave(g, i)
               && (h[j].op.Expire? ==> h[j].now <= h[k].now + 250)
    requires Routable(src, g) && arrival != i && i in live
    ensures i in Forward(Run(h), arrival, src, g, live)
  {
    KeepsAny(h, k, g, i);
    var now := h[|h| - 1].now;
    RunInv(h, now);
    ForwardExact(Run(h), arrival, src, g, live, now);
  }

  // ----- exclusion

  /** A record that excludes source `s` gives it the mode EXCLUDE and the time of the record. */
  lemma {:induction false} ExclusionWrites(db: DB, g: Addr, i: nat, s: Addr, now: int)
    requires Inv(db, now) && !IsLocalGroup(g) && s != ANY
    ensures Lookup(JoinStep(db, g, i, [Write(s, EXCLUDE)], now), g, i, s) == Some(Sub(s, EXCLUDE, now))
  {
    hide Inv, JoinStep, Lookup;
    LookupAfter(db, Join(g, i, [Write(s, EXCLUDE)]), g, i, s, now, now);
    assert LastWrite([Write(s, EXCLUDE)], s) == Some(EXCLUDE);
  }

  /** The report on `i` for `g` has nothing to say about source `s`. */
  predicate Silent(op: Op, g: Addr, i: nat, s: Addr) {
    op.Join? && op.mca == g && op.ifindex == i ==> forall w | w in op.writes :: w.src != s
  }

  lemma {:induction false} SilentWrites(writes: seq<Write>, s: Addr)
    requires forall w | w in writes :: w.src != s
    ensures LastWrite(writes, s).None?
  {
    if writes != [] {
      assert writes[|writes| - 1] in writes;
      SilentWrites(writes[..|writes| - 1], s);
    }
  }

  lemma {:induction false} ExclusionStays(h: seq<Step>, k: nat, g: Addr, i: nat, s: Addr)
    requires RunOk(h) && k < |h| && h[k].op == Join(g, i, [Write(s, EXCLUDE)]) && s != ANY
    requires forall j | k < j < |h| :: Silent(h[j].op, g, i, s)
    ensures !IsIncluded(Lookup(Run(h), g, i, s))
    decreases |h|
  {
    hide Run, Lookup, LastWrite, Silent, EntryEffect, Inv;
    var n := |h| - 1;
    LastStep(h, g, i, s);
    if k == n {
      OneWrite(s);
    } else {
      assert forall j | 0 <= j < n :: h[..n][j] == h[j];
      ExclusionStays(h[..n], k, g, i, s);
      SilentEffect(h[n].op, g, i, s, Lookup(Run(h[..n]), g, i, s), h[n].now);
    }
  }

  lemma {:induction false} OneWrite(s: Addr)
    requires s != ANY
    ensures LastWrite([Write(s, EXCLUDE)], s) == Some(EXCLUDE)
  {
  }

  lemma {:induction false} SilentEffect(op: Op, g: Addr, i: nat, s: Addr, e: Option<Sub>, now: int)
    requires Silent(op, g, i, s) && !IsIncluded(e)
    ensures !IsIncluded(LookupEffect(op, g, i, s, e, now))
  {
    hide LastWrite;
    if op.Join? && op.mca == g && op.ifindex == i {
      SilentWrites(op.writes, s);
    }
  }

  /** Exclusion: after a record on `i` that excludes source `s`, as long as no later record on `i` names
      `s` and `::` is not subscribed there, no copy of (s, g) goes out on `i`. */
  lemma {:induction false} ExclusionStops(h: seq<Step>, k: nat, g: Addr, i: nat, s: Addr, arrival: nat, live: set<nat>)
    requires RunOk(h) && k < |h| && h[k].op == Join(g, i, [Write(s, EXCLUDE)]) && s != ANY
    requires forall j | k < j < |h| :: Silent(h[j].op, g, i, s)
    requires Lookup(Run(h), g, i, ANY).None?
    ensures i !in Forward(Run(h), arrival, s, g, live)
  {
    hide Run, Lookup, Forward;
    ExclusionStays(h, k, g, i, s);
    var now := h[|h| - 1].now;
    RunInv(h, now);
    ForwardExact(Run(h), arrival, s, g, live, now);
  }

  // ----- leaves

  predicate AddsTo(op: Op, g: Addr, i: nat) {
    op.Join? && op.mca == g && op.ifindex == i
    && exists w | w in op.writes :: w.src != ANY || w.mode != EXCLUDE
  }

  /** Step `k` was a reduction that took the last source of (g, i); nothing was added since and
      no timeout came by. */
  ghost predicate Emptied(h: seq<Step>, k: nat, g: Addr, i: nat) {
    && k < |h| && TakesLast(h, k, g, i)
    && forall j | k < j < |h| :: KeepsMark(h[j].op, g, i)
  }

  predicate Marked(e: Option<GrpInt>) {
    e.Some? && e.value.count == -2
  }

  lemma {:induction false} RefreshAllMark(gi: GrpInt, writes: seq<Write>, now: int)
    requires IntOk(gi, now) && forall w | w in writes :: ValidMode(w.mode)
    ensures (forall w | w in writes :: w == Write(ANY, EXCLUDE)) ==> RefreshAll(gi, writes, now) == gi
    ensures (exists w | w in writes :: w != Write(ANY, EXCLUDE)) ==> RefreshAll(gi, writes, now).subs != []
    ensures gi.subs != [] ==> RefreshAll(gi, writes, now).subs != []
    decreases |writes|
  {
    if writes != [] {
      var w := writes[0];
      assert w in writes;
      RefreshOk(gi, w.src, w.mode, now);
      RefreshAllMark(Refresh(gi, w.src, w.mode, now), writes[1..], now);
      assert forall v | v in writes :: v == w || v in writes[1..];
      assert forall v | v in writes[1..] :: v in writes;
    }
  }

  /** The reduction at step `k` found `::` as the only source. */
  predicate TakesLast(h: seq<Step>, k: nat, g: Addr, i: nat)
    requires k < |h|
  {
    var e := Entry(Run(h[..k]), g, i);
    h[k].op == Leave(g, i) && e.Some? && |e.value.subs| == 1 && e.value.subs[0].src == ANY
  }

  predicate KeepsMark(op: Op, g: Addr, i: nat) {
    !op.Expire? && !AddsTo(op, g, i)
  }

  lemma {:induction false} MarkStep(h: seq<Step>, g: Addr, i: nat)
    requires RunOk(h) && h != []
    ensures var n := |h| - 1;
            Marked(Entry(Run(h), g, i)) <==>
              TakesLast(h, n, g, i) || (Marked(Entry(Run(h[..n]), g, i)) && KeepsMark(h[n].op, g, i))
  {
    hide Run, Entry;
    var n := |h| - 1;
    var now := h[n].now;
    var e := Entry(Run(h[..n]), g, i);
    LastStep(h, g, i, ANY);
    RunInv(h[..n], now);
    RunInv(h, now);
    if e.Some? {
      EntryOk(Run(h[..n]), g, i, now);
      ExpireIntOk(e.value, now);
    }
    if Entry(Run(h), g, i).Some? {
      EntryOk(Run(h), g, i, now);
    }
    if h[n].op.Join? && h[n].op.mca == g && h[n].op.ifindex == i {
      RefreshAllMark(EntryOrEmpty(e, i), h[n].op.writes, now);
    }
  }

  lemma {:induction false} EmptiedStep(h: seq<Step>, k: nat, g: Addr, i: nat)
    requires h != []
    ensures var n := |h| - 1;
            Emptied(h, k, g, i) <==>
              if k == n then TakesLast(h, n, g, i) else Emptied(h[..n], k, g, i) && KeepsMark(h[n].op, g, i)
  {
    hide Run, KeepsMark, Entry;
    var n := |h| - 1;
    if k < n {
      assert h[..n][..k] == h[..k];
    }
    assert forall j | 0 <= j < n :: h[..n][j] == h[j];
  }

  /** The marker -2 means: last emptied by a reduction, and nothing added since. */
  lemma {:induction false} MarkMeaning(h: seq<Step>, g: Addr, i: nat)
    requires RunOk(h)
    ensures Marked(Entry(Run(h), g, i)) <==> exists k: nat :: Emptied(h, k, g, i)
  {
    hide Run, Emptied, TakesLast, KeepsMark, Entry;
    if h == [] {
      EmptiedNever(g, i);
      return;
    }
    var n := |h| - 1;
    MarkStep(h, g, i);
    MarkMeaning(h[..n], g, i);
    EmptiedStep(h, n, g, i);
    if Marked(Entry(Run(h), g, i)) && !TakesLast(h, n, g, i) {
      var k: nat :| Emptied(h[..n], k, g, i);
      EmptiedBound(h[..n], k, g, i);
      EmptiedStep(h, k, g, i);
    }
    if k: nat :| Emptied(h, k, g, i) {
      EmptiedStep(h, k, g, i);
    }
  }

  lemma {:induction false} EmptiedNever(g: Addr, i: nat)
    ensures !Marked(Entry(Run([]), g, i)) && !exists k: nat :: Emptied([], k, g, i)
  {
  }

  lemma {:induction false} EmptiedBound(h: seq<Step>, k: nat, g: Addr, i: nat)
    requires Emptied(h, k, g, i)
    ensures k < |h|
  {
  }

  /** Leave handling: a timeout removes (g, i) exactly when a reduction emptied its list and no
      report for it came in between. */
  lemma {:induction false} TimeoutRemoves(h: seq<Step>, g: Addr, i: nat, now: int)
    requires RunOk(h) && NotBefore(now, h) && Entry(Run(h), g, i).Some?
    ensures Entry(Run(h + [Step(now, Expire)]), g, i).None? <==> exists k: nat :: Emptied(h, k, g, i)
  {
    var h' := h + [Step(now, Expire)];
    assert h'[..|h|] == h;
    LastStep(h', g, i, ANY);
    MarkMeaning(h, g, i);
  }

  /** A report between the reduction and the timeout saves the entry, with an exact count. */
  lemma {:induction false} ReportSaves(h: seq<Step>, g: Addr, i: nat, now: int)
    requires RunOk(h) && h != [] && NotBefore(now, h) && AddsTo(h[|h| - 1].op, g, i)
    ensures var e := Entry(Run(h), g, i); e.Some? && e.value.subs != [] && e.value.count == |e.value.subs|
    ensures Entry(Run(h + [Step(now, Expire)]), g, i).Some?
  {
    hide Run;
    LastStep(h, g, i, ANY);
    MarkStep(h, g, i);
    RunInv(h, now);
    EntryOk(Run(h), g, i, now);
    var h' := h + [Step(now, Expire)];
    assert h'[..|h|] == h;
    LastStep(h', g, i, ANY);
    var n := |h| - 1;
    RunInv(h[..n], h[n].now);
    if Entry(Run(h[..n]), g, i).Some? {
      EntryOk(Run(h[..n]), g, i, h[n].now);
    }
    RefreshAllMark(EntryOrEmpty(Entry(Run(h[..n]), g, i), i), h[n].op.writes, h[n].now);
  }

  /** Expiry alone never collects an entry: once present and unmarked it stays, however many
      timeouts pass and however empty it gets, until a reduction for it arrives. */
  lemma {:induction false} ExpiryAloneKeeps(h: seq<Step>, k: nat, g: Addr, i: nat)
    requires RunOk(h) && k <= |h|
    requires Entry(Run(h[..k]), g, i).Some? && !Marked(Entry(Run(h[..k]), g, i))
    requires forall j | k <= j < |h| :: h[j].op != Leave(g, i)
    ensures Entry(Run(h), g, i).Some? && !Marked(Entry(Run(h), g, i))
    decreases |h|
  {
    hide Run;
    if k == |h| {
      assert h[..k] == h;
    } else {
      var n := |h| - 1;
      assert h[..n][..k] == h[..k];
      ExpiryAloneKeeps(h[..n], k, g, i);
      LastStep(h, g, i, ANY);
      MarkStep(h, g, i);
    }
  }

  lemma {:induction false} OneRefresh(i: nat, now: int, later: int)
    requires later > now + 250
    ensures var gi := RefreshAll(GrpInt(i, [], 0), [Write(ANY, INCLUDE)], now);
            gi == GrpInt(i, [Sub(ANY, INCLUDE, now)], 1) && ExpireInt(gi, later) == GrpInt(i, [], 0)
  {
    assert [Write(ANY, INCLUDE)][1..] == [];
    var sub := Sub(ANY, INCLUDE, now);
    assert Stale(sub, later) && [sub][1..] == [];
    assert ExpireSubs([sub], later) == [] + ExpireSubs([], later);
  }

  /** An entry that is kept although it is empty: one report, and a timeout a long time later. */
  lemma {:induction false} EmptyEntryStays(g: Addr, i: nat)
    requires IsMulticast(g) && !IsLocalGroup(g)
    ensures var h := [Step(0, Join(g, i, [Write(ANY, INCLUDE)])), Step(1000, Expire)];
            RunOk(h) && Entry(Run(h), g, i) == Some(GrpInt(i, [], 0))
  {
    hide Run, Entry, Lookup, LookupEffect, RefreshAll, ExpireInt, IsMulticast, IsLocalGroup;
    var join := Step(0, Join(g, i, [Write(ANY, INCLUDE)]));
    var h := [join, Step(1000, Expire)];
    assert h[..1] == [join] && [join][..0] == [];
    LastStep([join], g, i, ANY);
    LastStep(h, g, i, ANY);
    NoEntry(g, i);
    OneRefresh(i, 0, 1000);
  }

  lemma {:induction false} NoEntry(g: Addr, i: nat)
    ensures Entry(Run([]), g, i) == None
  {
  }

  // ----- the rate limit on re-broadcasts

  predicate Present(db: DB, g: Addr) {
    FindGroup(db, g) < |db|
  }

  predicate JoinsGroup(op: Op, g: Addr) {
    op.Join? && op.mca == g
  }

  function ForwardedAt(db: DB, g: Addr): Option<int> {
    var k := FindGroup(db, g);
    if k == |db| then None else Some(db[k].lastForward)
  }

  lemma {:induction false} ForwardedAtCons(x: Group, db: DB, g: Addr)
    ensures ForwardedAt([x] + db, g) == if x.mca == g then Some(x.lastForward) else ForwardedAt(db, g)
  {
    assert ([x] + db)[1..] == db;
  }

  lemma {:induction false} ExpireForwardedAt(db: DB, g: Addr, now: int)
    requires Inv(db, now)
    ensures var e := ForwardedAt(ExpireGroups(db, now), g); e.Some? ==> e == ForwardedAt(db, g)
  {
    if db != [] {
      var rest := db[1..];
      var r := ExpireGroups(rest, now);
      GroupsTail(db, 0, now);
      ExpireForwardedAt(rest, g, now);
      assert db == [db[0]] + rest && [] + r == r;
      ForwardedAtCons(db[0], rest, g);
      ForwardedAtCons(db[0].(ints := ExpireInts(db[0].ints, now)), r, g);
      assert db[0].mca == g ==> ForwardedAt(rest, g).None? by {
        assert forall a | 0 <= a < |rest| :: rest[a] == db[a + 1];
      }
    }
  }

  lemma {:induction false} GetForwardedAt(db: DB, mca: Addr, ifindex: nat, now: int, g: Addr)
    ensures ForwardedAt(GroupintGet(db, mca, ifindex, now), g) == if g == mca then Some(now) else ForwardedAt(db, g)
  {
    hide FindGroup;
    var k := FindGroup(db, mca);
    if k == |db| {
      FindGroupAppend(db, Group(mca, [GrpInt(ifindex, [], 0)], now), g);
    } else {
      FindGroupReplace(db, k, Group(mca, WithInt(db[k].ints, ifindex), now), g);
    }
  }

  lemma {:induction false} JoinForwardedAt(db: DB, mca: Addr, ifindex: nat, writes: seq<Write>, now: int, g: Addr)
    ensures ForwardedAt(JoinStep(db, mca, ifindex, writes, now), g) == if g == mca then Some(now) else ForwardedAt(db, g)
  {
    hide ForwardedAt, UpdateInt, GroupintGet;
    var db1 := GroupintGet(db, mca, ifindex, now);
    GetForwardedAt(db, mca, ifindex, now, g);
    var gi := Entry(db1, mca, ifindex);
    if gi.Some? {
      UpdateForwardedAt(db1, mca, ifindex, RefreshAll(gi.value, writes, now), g);
    }
  }

  lemma {:induction false} ForwardedAtAfter(db: DB, op: Op, g: Addr, now: int)
    requires Inv(db, now)
    ensures var db' := Apply(db, op, now);
            if JoinsGroup(op, g) then ForwardedAt(db', g) == Some(now)
            else Present(db', g) ==> ForwardedAt(db', g) == ForwardedAt(db, g)
  {
    match op
    case Join(mca, ifindex, writes) =>
      JoinForwardedAt(db, mca, ifindex, writes, now, g);
    case Leave(mca, ifindex) =>
      var gi := Entry(db, mca, ifindex);
      if gi.Some? {
        UpdateForwardedAt(db, mca, ifindex, Unsubscribe(gi.value), g);
      }
    case Expire =>
      ExpireForwardedAt(db, g, now);
  }

  lemma {:induction false} UpdateForwardedAt(db: DB, mca: Addr, ifindex: nat, gi: GrpInt, g: Addr)
    ensures ForwardedAt(UpdateInt(db, mca, ifindex, gi), g) == ForwardedAt(db, g)
  {
    hide FindGroup, FindInt;
    var k := FindGroup(db, mca);
    if k < |db| && FindInt(db[k].ints, ifindex) < |db[k].ints| {
      FindGroupReplace(db, k, db[k].(ints := db[k].ints[FindInt(db[k].ints, ifindex) := gi]), g);
    }
  }

  /** `lastforward` is the time of the last report of any kind for the group, whether or not
      that report was forwarded. */
  lemma {:induction false} LastForwardMeaning(h: seq<Step>, g: Addr)
    requires RunOk(h) && Present(Run(h), g)
    ensures exists k | 0 <= k < |h| ::
              && JoinsGroup(h[k].op, g) && ForwardedAt(Run(h), g) == Some(h[k].now)
              && forall j | k < j < |h| :: !JoinsGroup(h[j].op, g)
  {
    hide Apply;
    var n := |h| - 1;
    RunInv(h[..n], h[n].now);
    ForwardedAtAfter(Run(h[..n]), h[n].op, g, h[n].now);
    if !JoinsGroup(h[n].op, g) {
      LastForwardMeaning(h[..n], g);
    }
  }

  /** groupint_get answers "new" exactly when the group is absent or no report for it was seen
      in the last 125 seconds. */
  lemma {:induction false} NewExactly(h: seq<Step>, g: Addr, now: int)
    requires RunOk(h) && NotBefore(now, h)
    ensures IsNew(Run(h), g, now) <==>
            || !Present(Run(h), g)
            || forall k | 0 <= k < |h| && JoinsGroup(h[k].op, g) :: now - h[k].now >= 125
  {
    hide Run;
    if Present(Run(h), g) {
      LastForwardMeaning(h, g);
    }
  }

  /** Rate limit: while the group stays in the database, two answers "new" are at least 125
      seconds apart. */
  lemma {:induction false} RateLimit(h: seq<Step>, j: nat, k: nat, g: Addr)
    requires RunOk(h) && j < k < |h| && JoinsGroup(h[j].op, g)
    requires Present(Run(h[..k]), g) && IsNew(Run(h[..k]), g, h[k].now)
    ensures h[k].now - h[j].now >= 125
  {
    NewExactly(h[..k], g, h[k].now);
    assert h[..k][j] == h[j];
  }

  /** The intention written beside the code is to forward again once 125 seconds have passed
      since the last forwarding.  With `f` the last forwarded report, or any other that long ago,
      the code does so exactly when no later report came during the last 125 seconds. */
  lemma {:induction false} ForwardAgainExactly(h: seq<Step>, f: nat, g: Addr, now: int)
    requires RunOk(h) && NotBefore(now, h) && Present(Run(h), g)
    requires f < |h| && JoinsGroup(h[f].op, g) && now - h[f].now >= 125
    ensures IsNew(Run(h), g, now) <==>
            forall k | f < k < |h| && JoinsGroup(h[k].op, g) :: now - h[k].now >= 125
  {
    NewExactly(h, g, now);
  }

  /** After report `f`, no report for `g` is answered "new". */
  ghost predicate SilentAfter(h: seq<Step>, f: nat, g: Addr) {
    forall k | f < k < |h| && JoinsGroup(h[k].op, g) :: !IsNew(Run(h[..k]), g, h[k].now)
  }

  /** Step `k` comes less than 125 seconds after some report for `g`. */
  ghost predicate SoonAfter(h: seq<Step>, k: nat, g: Addr)
    requires k < |h|
  {
    exists j | 0 <= j < k :: JoinsGroup(h[j].op, g) && h[k].now - h[j].now < 125
  }

  /** Silence is exactly this: each report finds the group present and follows another one within
      125 seconds. */
  lemma {:induction false} SilentExactly(h: seq<Step>, f: nat, g: Addr)
    requires RunOk(h)
    ensures SilentAfter(h, f, g) <==>
            forall k | f < k < |h| && JoinsGroup(h[k].op, g) :: Present(Run(h[..k]), g) && SoonAfter(h, k, g)
  {
    hide Run, Present;
    forall k | f < k < |h| && JoinsGroup(h[k].op, g)
      ensures IsNew(Run(h[..k]), g, h[k].now) <==> !Present(Run(h[..k]), g) || !SoonAfter(h, k, g)
    {
      NewExactly(h[..k], g, h[k].now);
      assert forall j | 0 <= j < k :: h[..k][j] == h[j];
    }
  }

  /** So a group that is reported often enough is forwarded once and never again: after a report on
      `i` that no reduction follows, if each report comes less than 125 seconds after another, the
      group stays in the database and none of them is answered "new". */
  lemma {:induction false} ForwardingStarves(h: seq<Step>, f: nat, g: Addr, i: nat)
    requires RunOk(h) && f < |h| && AddsTo(h[f].op, g, i)
    requires forall k | f < k < |h| :: h[k].op != Leave(g, i)
    requires forall k | f < k < |h| && JoinsGroup(h[k].op, g) :: SoonAfter(h, k, g)
    ensures SilentAfter(h, f, g)
    ensures forall k | f < k <= |h| :: Present(Run(h[..k]), g)
  {
    hide Run, SilentAfter, SoonAfter, AddsTo, Marked;
    assert h[..f + 1][f] == h[f];
    ReportSaves(h[..f + 1], g, i, h[f].now);
    Unmarked(Entry(Run(h[..f + 1]), g, i));
    forall k | f < k <= |h| ensures Present(Run(h[..k]), g) {
      assert h[..k][..f + 1] == h[..f + 1];
      assert forall j | 0 <= j < k :: h[..k][j] == h[j];
      ExpiryAloneKeeps(h[..k], f + 1, g, i);
    }
    SilentExactly(h, f, g);
  }

  lemma {:induction false} Unmarked(e: Option<GrpInt>)
    requires e.Some? && e.value.count == |e.value.subs|
    ensures !Marked(e)
  {
  }

  /** A run of this kind: a report every 100 seconds. */
  lemma {:induction false} StarvingRun(g: Addr)
    requires IsMulticast(g) && !IsLocalGroup(g)
    ensures var join := Join(g, 1, [Write(ANY, INCLUDE)]);
            var h := [Step(1000, join), Step(1100, join), Step(1200, join), Step(1300, join)];
            RunOk(h) && AddsTo(h[0].op, g, 1) && IsNew(Run(h[..0]), g, 1000) && SilentAfter(h, 0, g)
  {
    hide Run, SilentAfter;
    var join := Join(g, 1, [Write(ANY, INCLUDE)]);
    var h := [Step(1000, join), Step(1100, join), Step(1200, join), Step(1300, join)];
    RunEmpty();
    assert Write(ANY, INCLUDE) in join.writes;
    forall k | 0 < k < 4 ensures SoonAfter(h, k, g) {
      var p := k - 1;
      assert JoinsGroup(h[p].op, g);
    }
    ForwardingStarves(h, 0, g, 1);
  }
}
