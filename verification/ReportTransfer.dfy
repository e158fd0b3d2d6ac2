/** From the demand behind one hub to the forwarding of the next: what a hub does with the packets
    another hub's report was split into. */
module ReportTransfer {
  import opened Addresses
  import opened Database
  import opened Invariant
  import opened Forwarding
  import opened Handlers
  import opened Reporting
  import opened ReportSplit
  import opened Wire
  import Interfaces
  import LinkList

  // ----- over the wire

  /** The counts of the packet fit their 16-bit fields. */
  ghost predicate Sendable(recs: seq<Record>) {
    |recs| < 65536 && forall k | 0 <= k < |recs| :: 1 <= recs[k].kind <= 6 && |recs[k].srcs| < 65536
  }

  function Items(recs: seq<Record>): (r: seq<Item>)
    ensures |r| == |recs| && forall k | 0 <= k < |r| :: r[k] == Item(recs[k], [])
  {
    seq(|recs|, k requires 0 <= k < |recs| => Item(recs[k], []))
  }

  function Encode(header: seq<Byte>, recs: seq<Record>): seq<Byte>
    requires |header| == 6 && Sendable(recs)
  {
    EncodeReport(header, Items(recs))
  }

  lemma {:induction false} EncodeItemsSnoc(items: seq<Item>, it: Item)
    requires ItemOk(it) && forall x | x in items :: ItemOk(x)
    ensures EncodeItems(items + [it]) == EncodeItems(items) + EncodeItem(it)
    decreases |items|
  {
    hide EncodeItem, ItemOk;
    if items == [] {
      assert items + [it] == [it] && [it][1..] == [];
      assert EncodeItem(it) + [] == [] + EncodeItem(it);
    } else {
      assert (items + [it])[1..] == items[1..] + [it] && (items + [it])[0] == items[0];
      EncodeItemsSnoc(items[1..], it);
      assert items[0] in items;
    }
  }

  lemma {:induction false} ItemsSize(recs: seq<Record>)
    requires Sendable(recs)
    ensures PACKET_HEADERS + |EncodeItems(Items(recs))| == PacketSize(recs)
    decreases |recs|
  {
    hide EncodeItem;
    if recs == [] {
      SizeSnoc([], Record(0, 0, []));
    } else {
      var n := |recs| - 1;
      ItemsSize(recs[..n]);
      assert recs == recs[..n] + [recs[n]];
      SizeSnoc(recs[..n], recs[n]);
      assert Items(recs) == Items(recs[..n]) + [Item(recs[n], [])];
      EncodeItemsSnoc(Items(recs[..n]), Item(recs[n], []));
    }
  }

  /** The size the builder compares with the MTU is that of the encoded packet. */
  lemma {:induction false} EncodeSize(header: seq<Byte>, recs: seq<Record>)
    requires |header| == 6 && Sendable(recs)
    ensures PACKET_HEADERS - REPORT_HEADER + |Encode(header, recs)| == PacketSize(recs)
  {
    hide EncodeItems, PacketSize;
    ItemsSize(recs);
  }

  lemma {:induction false} SizeAtLeast(recs: seq<Record>, k: nat)
    requires k < |recs|
    ensures PacketSize(recs) >= PACKET_HEADERS + RECORD_HEADER * |recs|
    ensures PacketSize(recs) >= ADDR_SIZE * |recs[k].srcs|
    decreases |recs|
  {
    var n := |recs| - 1;
    if n > 0 {
      SizeAtLeast(recs[..n], if k < n then k else 0);
    }
  }

  /** For every MTU up to a megabyte the counts fit their fields. */
  lemma {:induction false} PacketSendable(recs: seq<Record>, g: Addr, sources: seq<Addr>, mtu: nat)
    requires PacketOk(recs, g, sources, mtu) && mtu < 0x10_0000
    ensures Sendable(recs)
  {
    forall k | 0 <= k < |recs| ensures |recs[k].srcs| < 65536 && |recs| < 65536 && 1 <= recs[k].kind <= 6 {
      SizeAtLeast(recs, k);
    }
  }

  // ----- the hub at the other end

  function Received(db: DB, i: nat, header: seq<Byte>, packets: seq<seq<Record>>, now: int): DB
    requires |header| == 6 && forall p | p in packets :: Sendable(p)
  {
    if packets == [] then db
    else
      var n := |packets| - 1;
      var before := Received(db, i, header, packets[..n], now);
      Records(State(before, false, []), i, ParseReport(Encode(header, packets[n])).recs, now).db
  }

  lemma {:induction false} ReadBack(header: seq<Byte>, recs: seq<Record>)
    requires |header| == 6 && Sendable(recs)
    ensures ParseReport(Encode(header, recs)).recs == recs
  {
    hide ParseReport, EncodeReport;
    WalkInverts(header, Items(recs));
    assert RecordsOf(Items(recs)) == recs;
  }

  /** The row of one source after one reportable record. */
  lemma {:induction false} RecordTransfer(db: DB, i: nat, g: Addr, r: Record, now: int, g': Addr, i': nat, s: Addr)
    requires Inv(db, now) && !IsLocalGroup(g) && Reportable(r, g)
    ensures var db' := JoinStep(db, g, i, WritesOf(r), now);
            && Inv(db', now)
            && Lookup(db', g', i', s) ==
               if g' == g && i' == i && AsksFor(r, s) then Some(Sub(s, INCLUDE, now)) else Lookup(db, g', i', s)
  {
    hide Inv, JoinStep, Lookup, LastWrite, SourceWrites;
    var op := Join(g, i, WritesOf(r));
    ApplyOk(db, op, now, now);
    LookupAfter(db, op, g', i', s, now, now);
    if r.srcs == [] {
      OneWriteLast(WritesOf(r)[0], s);
    } else {
      SourceWritesLast(r.srcs, INCLUDE, s);
    }
  }

  lemma {:induction false} AskedCons(r: Record, recs: seq<Record>, s: Addr)
    ensures AskedIn([r] + recs, s) <==> AsksFor(r, s) || AskedIn(recs, s)
    ensures !AskedIn([], s)
  {
    var all := [r] + recs;
    assert all[0] == r && forall k | 0 <= k < |recs| :: all[k + 1] == recs[k];
    if k :| 0 <= k < |all| && AsksFor(all[k], s) {
      if k > 0 {
        var j := k - 1;
        assert recs[j] == all[k];
      }
    }
  }

  lemma {:induction false} RecordsTransfer(st: State, i: nat, g: Addr, recs: seq<Record>, now: int, g': Addr, i': nat,
                                           s: Addr)
    requires Inv(st.db, now) && !IsLocalGroup(g) && forall k | 0 <= k < |recs| :: Reportable(recs[k], g)
    ensures var db' := Records(st, i, recs, now).db;
            && Inv(db', now)
            && Lookup(db', g', i', s) ==
               if g' == g && i' == i && AskedIn(recs, s) then Some(Sub(s, INCLUDE, now)) else Lookup(st.db, g', i', s)
    decreases |recs|
  {
    hide Inv, JoinStep, Lookup, AskedIn, AsksFor, IsNew, WritesOf;
    if recs == [] {
      AskedCons(Record(0, 0, []), [], s);
    } else {
      var r, rest := recs[0], recs[1..];
      assert recs == [r] + rest;
      AskedCons(r, rest, s);
      RecordTransfer(st.db, i, g, r, now, g', i', s);
      RecordsTransfer(RecordStep(st, i, r, now), i, g, rest, now, g', i', s);
    }
  }

  /** Transfer: the packets subscribe the receiving interface to exactly what they ask for, in INCLUDE
      mode, and touch no other entry. */
  lemma {:induction false} Transfer(db: DB, i: nat, g: Addr, header: seq<Byte>, packets: seq<seq<Record>>, now: int,
                                    g': Addr, i': nat, s: Addr)
    requires Inv(db, now) && !IsLocalGroup(g) && |header| == 6
    requires forall p | p in packets :: Sendable(p) && forall r | r in p :: Reportable(r, g)
    ensures var db' := Received(db, i, header, packets, now);
            && Inv(db', now)
            && Lookup(db', g', i', s) ==
               if g' == g && i' == i && Asked(packets, s) then Some(Sub(s, INCLUDE, now)) else Lookup(db, g', i', s)
    decreases |packets|
  {
    hide Inv, Lookup, Encode, ParseReport, Records, AskedIn, Sendable, Reportable;
    if packets != [] {
      var n := |packets| - 1;
      var recs := packets[n];
      assert recs in packets && forall p | p in packets[..n] :: p in packets;
      Transfer(db, i, g, header, packets[..n], now, g', i', s);
      var before := Received(db, i, header, packets[..n], now);
      ReadBack(header, recs);
      assert forall k | 0 <= k < |recs| :: recs[k] in recs;
      RecordsTransfer(State(before, false, []), i, g, recs, now, g', i', s);
      assert packets == packets[..n] + [recs];
      AskedPackets(packets[..n], recs, s);
    }
  }

  // ----- demand

  /** What the packets ask for is what the sources come to: everything, if `::` is one of them. */
  ghost predicate Conveys(packets: seq<seq<Record>>, sources: seq<Addr>) {
    && (Asked(packets, ANY) <==> ANY in sources)
    && (ANY !in sources ==> forall s :: Asked(packets, s) <==> s in sources)
  }

  lemma {:induction false} AskedLists(g: Addr, lists: seq<seq<Addr>>, s: Addr)
    requires forall l | l in lists :: l != []
    ensures Asked(OneEach(g, lists), s) <==> s in Concat(lists)
  {
    if lists == [] {
      assert OneEach(g, lists) == [];
    } else {
      var n := |lists| - 1;
      assert lists[n] in lists && forall l | l in lists[..n] :: l in lists;
      AskedLists(g, lists[..n], s);
      var rec := Record(IS_INCLUDE, g, lists[n]);
      assert OneEach(g, lists) == OneEach(g, lists[..n]) + [[rec]];
      AskedPackets(OneEach(g, lists[..n]), [rec], s);
      AskedSnoc([], rec, s);
      assert [] + [rec] == [rec];
    }
  }

  lemma {:induction false} ListsNonEmpty(g: Addr, lists: seq<seq<Addr>>, sources: seq<Addr>, mtu: nat)
    requires PacketsOk(OneEach(g, lists), g, sources, mtu)
    ensures forall l | l in lists :: l != []
  {
    forall l | l in lists ensures l != [] {
      var k :| 0 <= k < |lists| && lists[k] == l;
      assert PacketOk(OneEach(g, lists)[k], g, sources, mtu);
      assert Reportable(OneEach(g, lists)[k][0], g);
    }
  }

  /** A clean report conveys its sources, and each of its packets can be sent and read back. */
  method CleanReport(mtu: nat, g: Addr, sources: seq<Addr>, gone: nat -> bool, stale: nat -> Addr)
    returns (packets: seq<seq<Record>>, ending: Ending)
    requires Interfaces.MIN_MTU <= mtu < 0x10_0000
    ensures ending == Clean ==> Conveys(packets, sources)
    ensures forall p | p in packets :: Sendable(p) && forall r | r in p :: Reportable(r, g)
  {
    hide Asked, OneEach, Concat, PacketOk, Reportable, Sendable, AllAny, AllFull, Collides, Steady, LinkList.Distinct;
    ghost var lists;
    packets, ending, lists := SplitReport(mtu, g, sources, gone, stale);
    if ANY !in sources && ending == Clean {
      ListsNonEmpty(g, lists, sources, mtu);
      forall s {
        AskedLists(g, lists, s);
      }
    }
    forall p | p in packets ensures Sendable(p) && forall r | r in p :: Reportable(r, g) {
      PacketSendable(p, g, sources, mtu);
      AllReportable(p, g, sources, mtu);
    }
  }

  lemma {:induction false} AllReportable(p: seq<Record>, g: Addr, sources: seq<Addr>, mtu: nat)
    requires PacketOk(p, g, sources, mtu)
    ensures forall r | r in p :: Reportable(r, g)
  {
  }

  /** Some interface of the hub other than `out` includes `::` or the source. */
  ghost predicate Demands(db: DB, g: Addr, out: nat, src: Addr) {
    exists j: nat :: j != out && (Included(db, g, j, ANY) || Included(db, g, j, src))
  }

  lemma {:induction false} DemandsReported(db: DB, g: Addr, out: nat, src: Addr, now: int)
    requires Inv(db, now) && FindGroup(db, g) < |db|
    ensures var sources := ReportedSources(db[FindGroup(db, g)].ints, out);
            Demands(db, g, out, src) <==> ANY in sources || src in sources
  {
    hide ReportedSources, FindGroup, FindInt, LookupSub;
    var k := FindGroup(db, g);
    var ints := db[k].ints;
    assert GroupOk(db[k], now);
    forall s ensures s in ReportedSources(ints, out) <==> exists j: nat :: j != out && Included(db, g, j, s) {
      ReportedExactly(ints, out, s, now);
      if s in ReportedSources(ints, out) {
        var a :| 0 <= a < |ints| && ints[a].ifindex != out && IsIncluded(LookupSub(ints[a].subs, s));
        assert FindInt(ints, ints[a].ifindex) == a;
        assert Included(db, g, ints[a].ifindex, s);
      }
      if j: nat :| j != out && Included(db, g, j, s) {
        var a := FindInt(ints, j);
        assert ints[a].ifindex != out && IsIncluded(LookupSub(ints[a].subs, s));
      }
    }
  }

  /** Demand propagates: once hub B has received A's report for `g` over their link, B sends over that
      link exactly the packets that an interface of A other than the link's asks for, besides those B
      sent there before. */
  lemma {:induction false} DemandPropagates(dbA: DB, out: nat, dbB: DB, i: nat, liveB: set<nat>, g: Addr,
                                            header: seq<Byte>,
                                            packets: seq<seq<Record>>, src: Addr, arrival: nat, now: int)
    requires Inv(dbA, now) && Inv(dbB, now) && |header| == 6 && !IsLocalGroup(g)
    requires forall p | p in packets :: Sendable(p) && forall r | r in p :: Reportable(r, g)
    requires FindGroup(dbA, g) < |dbA| && Conveys(packets, ReportedSources(dbA[FindGroup(dbA, g)].ints, out))
    requires Routable(src, g) && arrival != i && i in liveB
    ensures i in Forward(Received(dbB, i, header, packets, now), arrival, src, g, liveB) <==>
            Demands(dbA, g, out, src) || Included(dbB, g, i, ANY) || Included(dbB, g, i, src)
  {
    hide Inv, Lookup, Forward, FindGroup, Received, Asked, ReportedSources, Demands, Routable, Sendable, Reportable;
    DemandsReported(dbA, g, out, src, now);
    Transfer(dbB, i, g, header, packets, now, g, i, src);
    Transfer(dbB, i, g, header, packets, now, g, i, ANY);
    ForwardExact(Received(dbB, i, header, packets, now), arrival, src, g, liveB, now);
  }

  /** In particular B sends A what A would pass on. */
  lemma {:induction false} PassedOnIsDemanded(db: DB, g: Addr, out: nat, src: Addr, live: set<nat>, now: int)
    requires Inv(db, now) && Forward(db, out, src, g, live) != []
    ensures Demands(db, g, out, src) && FindGroup(db, g) < |db| && Routable(src, g)
  {
    hide Lookup;
    var i := Forward(db, out, src, g, live)[0];
    ForwardExact(db, out, src, g, live, now);
    assert i in Forward(db, out, src, g, live);
    assert Included(db, g, i, ANY) || Included(db, g, i, src);
  }
}
