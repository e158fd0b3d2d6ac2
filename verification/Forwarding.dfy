/** Which interfaces one call of the forwarder sends a data packet to. */
module Forwarding {
  import opened Addresses
  import opened Database
  import opened Invariant

  /** The packets the forwarder is willing to route at all. */
  predicate Routable(src: Addr, dst: Addr) {
    && !IsMulticast(src) && src != ANY && dst != ANY
    && !IsLinkLocal(src) && !IsLocalGroup(dst)
  }

  predicate Matches(s: Sub, src: Addr) {
    (s.src == ANY || s.src == src) && s.mode == INCLUDE
  }

  predicate Wants(subs: seq<Sub>, src: Addr) {
    exists k | 0 <= k < |subs| :: Matches(subs[k], src)
  }

  predicate SendsTo(gi: GrpInt, arrival: nat, src: Addr, live: set<nat>) {
    gi.ifindex != arrival && gi.ifindex in live && Wants(gi.subs, src)
  }

  /** The interfaces served, in list order. */
  function Targets(ints: seq<GrpInt>, arrival: nat, src: Addr, live: set<nat>): seq<nat> {
    if ints == [] then []
    else (if SendsTo(ints[0], arrival, src, live) then [ints[0].ifindex] else [])
         + Targets(ints[1..], arrival, src, live)
  }

  function Forward(db: DB, arrival: nat, src: Addr, dst: Addr, live: set<nat>): seq<nat> {
    var k := FindGroup(db, dst);
    if !Routable(src, dst) || k == |db| then [] else Targets(db[k].ints, arrival, src, live)
  }

  lemma {:induction false} TargetsSnoc(ints: seq<GrpInt>, gi: GrpInt, arrival: nat, src: Addr, live: set<nat>)
    ensures Targets(ints + [gi], arrival, src, live) ==
            Targets(ints, arrival, src, live) + (if SendsTo(gi, arrival, src, live) then [gi.ifindex] else [])
  {
    if ints == [] {
      assert [] + [gi] == [gi] && [gi][1..] == [];
    } else {
      TargetsSnoc(ints[1..], gi, arrival, src, live);
      assert (ints + [gi])[1..] == ints[1..] + [gi];
    }
  }

  lemma {:induction false} TargetsExact(ints: seq<GrpInt>, arrival: nat, src: Addr, live: set<nat>, now: int)
    requires IntsOk(ints, now)
    ensures var r := Targets(ints, arrival, src, live);
            && (forall a, b | 0 <= a < b < |r| :: r[a] != r[b])
            && (forall i :: i in r <==> EntryOf(ints, i).Some? && SendsTo(EntryOf(ints, i).value, arrival, src, live))
  {
    if ints != [] {
      var rest := ints[1..];
      IntsTail(ints, now);
      TargetsExact(rest, arrival, src, live, now);
      assert ints == [ints[0]] + rest;
      forall i {
        EntryOfCons(ints[0], rest, i);
      }
      var r := Targets(rest, arrival, src, live);
      assert ints[0].ifindex !in r;
      assert [] + r == r;
    }
  }

  predicate IsIncluded(e: Option<Sub>) {
    e.Some? && e.value.mode == INCLUDE
  }

  lemma {:induction false} WantsIsLookup(subs: seq<Sub>, src: Addr, now: int)
    requires SubsOk(subs, now)
    ensures Wants(subs, src) <==> IsIncluded(LookupSub(subs, ANY)) || IsIncluded(LookupSub(subs, src))
  {
    if Wants(subs, src) {
      var k :| 0 <= k < |subs| && Matches(subs[k], src);
      FirstSub(subs, subs[k].src, k);
    }
    if IsIncluded(LookupSub(subs, ANY)) {
      assert Matches(subs[FindSub(subs, ANY)], src);
    }
    if IsIncluded(LookupSub(subs, src)) {
      assert Matches(subs[FindSub(subs, src)], src);
    }
  }

  /** One call sends exactly one copy to each live interface, other than the arrival one,
      that holds an INCLUDE entry for `::` or for the packet's source; EXCLUDE entries and the
      order of the lists make no difference. */
  lemma {:induction false} ForwardExact(db: DB, arrival: nat, src: Addr, dst: Addr, live: set<nat>, now: int)
    requires Inv(db, now)
    ensures var r := Forward(db, arrival, src, dst, live);
            && (forall a, b | 0 <= a < b < |r| :: r[a] != r[b])
            && (forall i :: i in r <==>
                  && Routable(src, dst) && i != arrival && i in live
                  && (IsIncluded(Lookup(db, dst, i, ANY)) || IsIncluded(Lookup(db, dst, i, src))))
  {
    var k := FindGroup(db, dst);
    if k < |db| {
      var ints := db[k].ints;
      assert GroupOk(db[k], now);
      TargetsExact(ints, arrival, src, live, now);
      forall i | EntryOf(ints, i).Some?
        ensures Wants(EntryOf(ints, i).value.subs, src) <==>
                IsIncluded(Lookup(db, dst, i, ANY)) || IsIncluded(Lookup(db, dst, i, src))
        ensures EntryOf(ints, i).value.ifindex == i
      {
        WantsIsLookup(ints[FindInt(ints, i)].subs, src, now);
      }
    }
  }
}
