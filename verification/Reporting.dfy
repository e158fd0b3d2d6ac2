/** Which reports a hub sends for a group, and on which interfaces any packet leaves at all. */
module Reporting {
  import opened Addresses
  import opened Database
  import opened Invariant
  import opened Forwarding
  import opened Interfaces

  function IncludedSources(subs: seq<Sub>): seq<Addr> {
    if subs == [] then []
    else (if subs[0].mode == EXCLUDE then [] else [subs[0].src]) + IncludedSources(subs[1..])
  }

  /** The sources the other interfaces of the group include, in list order. */
  function ReportedSources(ints: seq<GrpInt>, out: nat): seq<Addr> {
    if ints == [] then []
    else (if ints[0].ifindex == out then [] else IncludedSources(ints[0].subs)) + ReportedSources(ints[1..], out)
  }

  lemma {:induction false} IncludedExactly(subs: seq<Sub>, s: Addr, now: int)
    requires SubsOk(subs, now)
    ensures s in IncludedSources(subs) <==> IsIncluded(LookupSub(subs, s))
  {
    if subs != [] {
      hide LookupSub;
      var rest := subs[1..];
      assert forall a | 0 <= a < |rest| :: rest[a] == subs[a + 1];
      IncludedExactly(rest, s, now);
      assert subs == [subs[0]] + rest;
      LookupCons(subs[0], rest, s);
      if subs[0].src == s {
        NoSub(rest, s);
      }
    } else {
      NoSub([], s);
    }
  }

  /** The report for interface `out` lists `s` exactly when another interface includes it. */
  lemma {:induction false} ReportedExactly(ints: seq<GrpInt>, out: nat, s: Addr, now: int)
    requires forall k | 0 <= k < |ints| :: IntOk(ints[k], now)
    ensures s in ReportedSources(ints, out) <==>
            exists k | 0 <= k < |ints| :: ints[k].ifindex != out && IsIncluded(LookupSub(ints[k].subs, s))
  {
    hide LookupSub, IncludedSources;
    if ints != [] {
      ReportedExactly(ints[1..], out, s, now);
      IncludedExactly(ints[0].subs, s, now);
      if k :| 0 <= k < |ints[1..]| && ints[1..][k].ifindex != out && IsIncluded(LookupSub(ints[1..][k].subs, s)) {
        assert ints[k + 1].ifindex != out && IsIncluded(LookupSub(ints[k + 1].subs, s));
      }
      if k :| 0 <= k < |ints| && ints[k].ifindex != out && IsIncluded(LookupSub(ints[k].subs, s)) {
        if k > 0 {
          assert ints[1..][k - 1] == ints[k];
        }
      }
    }
  }

  lemma {:induction false} IncludedSnoc(subs: seq<Sub>, s: Sub)
    ensures IncludedSources([]) == []
    ensures IncludedSources(subs + [s]) == IncludedSources(subs) + if s.mode == EXCLUDE then [] else [s.src]
  {
    if subs == [] {
      assert subs + [s] == [s] && [s][1..] == [];
    } else {
      IncludedSnoc(subs[1..], s);
      assert (subs + [s])[1..] == subs[1..] + [s] && (subs + [s])[0] == subs[0];
      hide IncludedSources;
      var first := if subs[0].mode == EXCLUDE then [] else [subs[0].src];
      var last := if s.mode == EXCLUDE then [] else [s.src];
      assert first + (IncludedSources(subs[1..]) + last) == first + IncludedSources(subs[1..]) + last;
    }
  }

  lemma {:induction false} ReportedSnoc(ints: seq<GrpInt>, gi: GrpInt, out: nat)
    ensures ReportedSources([], out) == []
    ensures ReportedSources(ints + [gi], out) ==
            ReportedSources(ints, out) + if gi.ifindex == out then [] else IncludedSources(gi.subs)
  {
    hide IncludedSources;
    if ints == [] {
      assert ints + [gi] == [gi] && [gi][1..] == [];
    } else {
      ReportedSnoc(ints[1..], gi, out);
      assert (ints + [gi])[1..] == ints[1..] + [gi] && (ints + [gi])[0] == ints[0];
      hide ReportedSources;
      var first := if ints[0].ifindex == out then [] else IncludedSources(ints[0].subs);
      var last := if gi.ifindex == out then [] else IncludedSources(gi.subs);
      assert first + (ReportedSources(ints[1..], out) + last) == first + ReportedSources(ints[1..], out) + last;
    }
  }

  // ----- which groups an MLDv1 query is answered with

  function EntriesOf(ints: seq<GrpInt>, i: nat, mca: Addr): seq<Addr> {
    if ints == [] then [] else (if ints[0].ifindex == i then [mca] else []) + EntriesOf(ints[1..], i, mca)
  }

  /** The groups with an entry for interface `i`, in list order. */
  function Members(db: DB, i: nat): seq<Addr> {
    if db == [] then [] else EntriesOf(db[0].ints, i, db[0].mca) + Members(db[1..], i)
  }

  lemma {:induction false} EntriesSnoc(ints: seq<GrpInt>, gi: GrpInt, i: nat, mca: Addr)
    ensures EntriesOf([], i, mca) == []
    ensures EntriesOf(ints + [gi], i, mca) == EntriesOf(ints, i, mca) + if gi.ifindex == i then [mca] else []
  {
    if ints == [] {
      assert ints + [gi] == [gi] && [gi][1..] == [];
    } else {
      EntriesSnoc(ints[1..], gi, i, mca);
      assert (ints + [gi])[1..] == ints[1..] + [gi] && (ints + [gi])[0] == ints[0];
    }
  }

  lemma {:induction false} MembersSnoc(db: DB, g: Group, i: nat)
    ensures Members([], i) == []
    ensures Members(db + [g], i) == Members(db, i) + EntriesOf(g.ints, i, g.mca)
  {
    hide EntriesOf;
    if db == [] {
      assert db + [g] == [g] && [g][1..] == [];
    } else {
      MembersSnoc(db[1..], g, i);
      assert (db + [g])[1..] == db[1..] + [g] && (db + [g])[0] == db[0];
    }
  }

  // ----- when a report is sent at all

  /** Some group, the one asked about or any, has a source to report on interface `out`. */
  predicate Reports(db: DB, mca: Option<Addr>, out: nat) {
    exists k | 0 <= k < |db| :: (mca.None? || db[k].mca == mca.value) && ReportedSources(db[k].ints, out) != []
  }

  lemma {:induction false} ReportsSnoc(db: DB, g: Group, mca: Option<Addr>, out: nat)
    ensures Reports(db + [g], mca, out) <==>
            Reports(db, mca, out) || ((mca.None? || g.mca == mca.value) && ReportedSources(g.ints, out) != [])
  {
    hide ReportedSources;
    var db' := db + [g];
    assert db'[|db|] == g && forall k | 0 <= k < |db| :: db'[k] == db[k];
  }

  /** mld_send_report: an MLDv1 report always leaves, an MLDv2 report only if it has a record. */
  predicate Emits(db: DB, mca: Addr, port: Intf, mode: Mode) {
    SendsV1(port, mode) || (SendsV2(port, mode) && Reports(db, Some(mca), port.ifindex))
  }

  lemma {:induction false} ReportsGroup(db: DB, g: Addr, out: nat, now: int)
    requires Inv(db, now)
    ensures var k := FindGroup(db, g);
            Reports(db, Some(g), out) <==> k < |db| && ReportedSources(db[k].ints, out) != []
  {
    hide ReportedSources;
    if j :| 0 <= j < |db| && db[j].mca == g && ReportedSources(db[j].ints, out) != [] {
      assert j == FindGroup(db, g);
    }
  }

  /** Interface `j` includes source `s`. */
  predicate Included(db: DB, g: Addr, j: nat, s: Addr) {
    IsIncluded(Lookup(db, g, j, s))
  }

  /** There is something to report on `out` exactly when another interface includes some source. */
  lemma {:induction false} ReportsExactly(db: DB, g: Addr, out: nat, now: int)
    requires Inv(db, now)
    ensures Reports(db, Some(g), out) <==> exists j: nat, s: Addr :: j != out && Included(db, g, j, s)
  {
    hide ReportedSources, FindGroup, FindInt, LookupSub;
    ReportsGroup(db, g, out, now);
    var k := FindGroup(db, g);
    if k < |db| {
      var ints := db[k].ints;
      assert GroupOk(db[k], now);
      if Reports(db, Some(g), out) {
        var s := ReportedSources(ints, out)[0];
        ReportedExactly(ints, out, s, now);
        var a :| 0 <= a < |ints| && ints[a].ifindex != out && IsIncluded(LookupSub(ints[a].subs, s));
        assert FindInt(ints, ints[a].ifindex) == a;
        assert Included(db, g, ints[a].ifindex, s);
      }
      if j: nat, s: Addr :| j != out && Included(db, g, j, s) {
        var a := FindInt(ints, j);
        assert ints[a].ifindex != out && IsIncluded(LookupSub(ints[a].subs, s));
        ReportedExactly(ints, out, s, now);
      }
    }
  }

  /** A round of reports for `g` leaves nothing on an interface exactly when MLDv1 is not spoken there
      and no other interface includes any source: demand that only excludes sources is not passed on. */
  lemma {:induction false} EmissionExactly(db: DB, g: Addr, port: Intf, mode: Mode, now: int)
    requires Inv(db, now) && MldOk(port.mld, mode)
    ensures !Emits(db, g, port, mode) <==>
            !SendsV1(port, mode) && !exists j: nat, s: Addr :: j != port.ifindex && Included(db, g, j, s)
  {
    hide Inv, Reports, Included;
    ReportsExactly(db, g, port.ifindex, now);
  }
}
