/** What the MLD message handlers do with the database, and which groups they re-broadcast. */
module Handlers {
  import opened Addresses
  import opened Database
  import opened Invariant

  const IS_INCLUDE := 1
  const IS_EXCLUDE := 2
  const TO_EXCLUDE := 4
  const BLOCK_OLD := 6

  /** A group record of an MLDv2 report. */
  datatype Record = Record(kind: nat, mca: Addr, srcs: seq<Addr>)

  predicate KnownKind(kind: nat) {
    IS_INCLUDE <= kind <= BLOCK_OLD
  }

  predicate Excludes(kind: nat) {
    kind == IS_EXCLUDE || kind == TO_EXCLUDE || kind == BLOCK_OLD
  }

  /** The mode a record with sources gives them. */
  function ModeOf(kind: nat): nat {
    if Excludes(kind) then EXCLUDE else INCLUDE
  }

  function SourceWrites(srcs: seq<Addr>, mode: nat): (w: seq<Write>)
    ensures |w| == |srcs| && forall k | 0 <= k < |w| :: w[k] == Write(srcs[k], mode)
  {
    seq(|srcs|, k requires 0 <= k < |srcs| => Write(srcs[k], mode))
  }

  /** "Exclude no source" subscribes to `::`; a record with sources gives each of them a mode. */
  function WritesOf(rec: Record): (w: seq<Write>)
    ensures forall x | x in w :: ValidMode(x.mode)
  {
    if rec.srcs == [] then [Write(ANY, if Excludes(rec.kind) then INCLUDE else EXCLUDE)]
    else SourceWrites(rec.srcs, ModeOf(rec.kind))
  }

  /** A re-broadcast: the group, and the database its reports are made from. */
  datatype Sending = Sending(mca: Addr, db: DB)

  /** The state of the record walk: the database, the flag carried from record to record, and the
      re-broadcasts so far. */
  datatype State = State(db: DB, isnew: bool, sent: seq<Sending>)

  function RecordStep(st: State, i: nat, rec: Record, now: int): State {
    var st1 := if IsLocalGroup(rec.mca) then st
               else State(JoinStep(st.db, rec.mca, i, WritesOf(rec), now), IsNew(st.db, rec.mca, now), st.sent);
    if st1.isnew then st1.(sent := st1.sent + [Sending(rec.mca, st1.db)]) else st1
  }

  function Records(st: State, i: nat, recs: seq<Record>, now: int): State
    decreases |recs|
  {
    if recs == [] then st else Records(RecordStep(st, i, recs[0], now), i, recs[1..], now)
  }

  predicate RoutableGroup(mca: Addr) {
    IsMulticast(mca) && !IsLocalGroup(mca)
  }

  /** An MLDv1 report. */
  function Report1(db: DB, i: nat, mca: Addr, now: int): State {
    if !RoutableGroup(mca) then State(db, false, [])
    else
      var isnew := IsNew(db, mca, now);
      var db1 := JoinStep(db, mca, i, [Write(ANY, INCLUDE)], now);
      State(db1, isnew, if isnew then [Sending(mca, db1)] else [])
  }

  /** An MLDv1 reduction. */
  function Reduction1(db: DB, i: nat, mca: Addr): DB {
    if !RoutableGroup(mca) then db else LeaveStep(db, mca, i)
  }

  // ----- the messages as database steps

  function OpsOf(i: nat, recs: seq<Record>): seq<Op> {
    if recs == [] then []
    else (if IsLocalGroup(recs[0].mca) then [] else [Join(recs[0].mca, i, WritesOf(recs[0]))]) + OpsOf(i, recs[1..])
  }

  function ApplyAll(db: DB, ops: seq<Op>, now: int): DB
    decreases |ops|
  {
    if ops == [] then db else ApplyAll(Apply(db, ops[0], now), ops[1..], now)
  }

  lemma {:induction false} OpsOfOk(i: nat, recs: seq<Record>)
    ensures forall op | op in OpsOf(i, recs) :: op.Join? && OpOk(op)
  {
    if recs != [] {
      OpsOfOk(i, recs[1..]);
    }
  }

  /** The database after a report is the left fold of one step per routable record. */
  lemma {:induction false} RecordsFold(st: State, i: nat, recs: seq<Record>, now: int)
    ensures Records(st, i, recs, now).db == ApplyAll(st.db, OpsOf(i, recs), now)
    decreases |recs|
  {
    hide JoinStep, WritesOf, IsNew;
    if recs != [] {
      RecordsFold(RecordStep(st, i, recs[0], now), i, recs[1..], now);
      var rest := OpsOf(i, recs[1..]);
      if IsLocalGroup(recs[0].mca) {
        assert [] + rest == rest;
      } else {
        var op := Join(recs[0].mca, i, WritesOf(recs[0]));
        assert ([op] + rest)[0] == op && ([op] + rest)[1..] == rest;
      }
    }
  }

  lemma {:induction false} SourceWritesLast(srcs: seq<Addr>, mode: nat, s: Addr)
    ensures LastWrite(SourceWrites(srcs, mode), s) ==
            if s in srcs && (s != ANY || mode != EXCLUDE) then Some(mode) else None
  {
    if srcs != [] {
      var n := |srcs| - 1;
      SourceWritesLast(srcs[..n], mode, s);
      assert SourceWrites(srcs, mode)[..n] == SourceWrites(srcs[..n], mode);
      assert srcs == srcs[..n] + [srcs[n]];
    }
  }

  lemma {:induction false} OneWriteLast(w: Write, s: Addr)
    ensures LastWrite([w], s) == if s == w.src && (s != ANY || w.mode != EXCLUDE) then Some(w.mode) else None
  {
    assert [w][..0] == [];
  }

  /** What a record means for source `s` on the interface it came in on, by the number of its type.
      Types 2 (is EXCLUDE), 4 (to EXCLUDE) and 6 (block) with no source ask for every source, and give
      each source listed the mode EXCLUDE, except that `::` is never excluded; types 1, 3 and 5 with no
      source change nothing, and give each source listed the mode INCLUDE. */
  lemma {:induction false} RecordMeaning(db: DB, i: nat, rec: Record, s: Addr, now: int)
    requires Inv(db, now) && !IsLocalGroup(rec.mca)
    ensures var e := Lookup(JoinStep(db, rec.mca, i, WritesOf(rec), now), rec.mca, i, s);
            var excludes := rec.kind == 2 || rec.kind == 4 || rec.kind == 6;
            if excludes && rec.srcs == [] && s == ANY then e == Some(Sub(ANY, INCLUDE, now))
            else if excludes && s in rec.srcs && s != ANY then e == Some(Sub(s, EXCLUDE, now))
            else if !excludes && s in rec.srcs then e == Some(Sub(s, INCLUDE, now))
            else e == Lookup(db, rec.mca, i, s)
  {
    hide Inv, JoinStep, Lookup, LastWrite, SourceWrites;
    LookupAfter(db, Join(rec.mca, i, WritesOf(rec)), rec.mca, i, s, now, now);
    if rec.srcs == [] {
      OneWriteLast(WritesOf(rec)[0], s);
    } else {
      SourceWritesLast(rec.srcs, ModeOf(rec.kind), s);
    }
  }

  // ----- which records are re-broadcast

  /** The state in which record `k` is met. */
  function Before(db: DB, i: nat, recs: seq<Record>, k: nat, now: int): State
    requires k <= |recs|
  {
    Records(State(db, false, []), i, recs[..k], now)
  }

  predicate AnswersNew(db: DB, i: nat, recs: seq<Record>, k: nat, now: int)
    requires k < |recs|
  {
    !IsLocalGroup(recs[k].mca) && IsNew(Before(db, i, recs, k, now).db, recs[k].mca, now)
  }

  /** Record `k` is re-broadcast on account of record `j`: the same record, or an earlier routable
      one followed by link-local or node-local records only. */
  predicate CarriedFrom(db: DB, i: nat, recs: seq<Record>, j: nat, k: nat, now: int)
    requires j <= k < |recs|
  {
    AnswersNew(db, i, recs, j, now) && forall m | j < m <= k :: IsLocalGroup(recs[m].mca)
  }

  lemma {:induction false} RecordsSnoc(st: State, i: nat, recs: seq<Record>, rec: Record, now: int)
    ensures Records(st, i, recs + [rec], now) == RecordStep(Records(st, i, recs, now), i, rec, now)
    decreases |recs|
  {
    hide RecordStep;
    if recs == [] {
      assert recs + [rec] == [rec] && [rec][1..] == [];
    } else {
      assert (recs + [rec])[0] == recs[0] && (recs + [rec])[1..] == recs[1..] + [rec];
      RecordsSnoc(RecordStep(st, i, recs[0], now), i, recs[1..], rec, now);
    }
  }

  lemma {:induction false} BeforeStep(db: DB, i: nat, recs: seq<Record>, k: nat, now: int)
    requires k < |recs|
    ensures Before(db, i, recs, k + 1, now) == RecordStep(Before(db, i, recs, k, now), i, recs[k], now)
  {
    assert recs[..k + 1] == recs[..k] + [recs[k]];
    RecordsSnoc(State(db, false, []), i, recs[..k], recs[k], now);
  }

  /** After record `k` the flag is set exactly when some record accounts for it; the flag set
      means that record `k` has just been re-broadcast, from the database it left, and clear that it
      has not. */
  lemma {:induction false} BroadcastExactly(db: DB, i: nat, recs: seq<Record>, k: nat, now: int)
    requires k < |recs|
    ensures var b, a := Before(db, i, recs, k, now), Before(db, i, recs, k + 1, now);
            && (a.isnew <==> exists j | 0 <= j <= k :: CarriedFrom(db, i, recs, j, k, now))
            && a.sent == if a.isnew then b.sent + [Sending(recs[k].mca, a.db)] else b.sent
  {
    hide Records, IsNew, JoinStep;
    BeforeStep(db, i, recs, k, now);
    if IsLocalGroup(recs[k].mca) {
      if k > 0 {
        var p := k - 1;
        BroadcastExactly(db, i, recs, p, now);
        if j :| 0 <= j <= p && CarriedFrom(db, i, recs, j, p, now) {
          assert CarriedFrom(db, i, recs, j, k, now);
        }
        if j :| 0 <= j <= k && CarriedFrom(db, i, recs, j, k, now) {
          assert CarriedFrom(db, i, recs, j, p, now);
        }
      } else {
        BeforeFirst(db, i, recs, now);
      }
    } else {
      assert CarriedFrom(db, i, recs, k, k, now) <==> AnswersNew(db, i, recs, k, now);
    }
  }

  lemma {:induction false} BeforeFirst(db: DB, i: nat, recs: seq<Record>, now: int)
    ensures Before(db, i, recs, 0, now) == State(db, false, [])
  {
  }

  /** A link-local group that is re-broadcast: its record follows one that was answered "new". */
  lemma {:induction false} LocalGroupBroadcast(g: Addr, l: Addr, i: nat, now: int)
    requires !IsLocalGroup(g) && IsLocalGroup(l)
    ensures var st := Records(State([], false, []), i, [Record(IS_EXCLUDE, g, []), Record(IS_EXCLUDE, l, [])], now);
            |st.sent| == 2 && st.sent[1].mca == l
  {
    hide JoinStep;
    var r, q := Record(IS_EXCLUDE, g, []), Record(IS_EXCLUDE, l, []);
    var st := State([], false, []);
    RecordsSnoc(st, i, [], r, now);
    RecordsSnoc(st, i, [r], q, now);
    assert [] + [r] == [r] && [r] + [q] == [r, q];
    assert Records(st, i, [], now) == st && IsNew([], g, now);
  }
}
