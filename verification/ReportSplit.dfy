/** Splitting the MLDv2 report for one group over packets that fit the MTU, and what the hub at
    the other end makes of them. */
module ReportSplit {
  import opened Addresses
  import opened Database
  import opened Invariant
  import opened Forwarding
  import opened Handlers
  import opened Reporting
  import opened Wire
  import Interfaces
  import LinkList

  /** Fixed header, hop-by-hop header with router alert, and report header. */
  const PACKET_HEADERS := 56
  const IP_HEADER := 40

  /** Everything in a packet with one record but the record's sources. */
  const ONE_RECORD := PACKET_HEADERS + RECORD_HEADER

  /** How many sources fit in a packet. */
  function Capacity(mtu: nat): (c: nat)
    requires mtu >= Interfaces.MIN_MTU
    ensures c > 1 && ONE_RECORD + ADDR_SIZE * c <= mtu < ONE_RECORD + ADDR_SIZE * (c + 1)
  {
    (mtu - ONE_RECORD) / ADDR_SIZE
  }

  // ----- packets of records

  function AnyRecord(g: Addr): Record {
    Record(IS_EXCLUDE, g, [])
  }

  /** The two kinds of record the builder makes: "is EXCLUDE", number 2, with no source, and
      "is INCLUDE", number 1, with sources. */
  predicate Reportable(r: Record, g: Addr) {
    r == Record(2, g, []) || (r == Record(1, g, r.srcs) && r.srcs != [] && ANY !in r.srcs)
  }

  /** What a reportable record asks for. */
  predicate AsksFor(r: Record, s: Addr) {
    if r.srcs == [] then s == ANY else s in r.srcs
  }

  ghost predicate AskedIn(recs: seq<Record>, s: Addr) {
    exists k | 0 <= k < |recs| :: AsksFor(recs[k], s)
  }

  ghost predicate Asked(packets: seq<seq<Record>>, s: Addr) {
    exists k | 0 <= k < |packets| :: AskedIn(packets[k], s)
  }

  function PacketSize(recs: seq<Record>): nat {
    if recs == [] then PACKET_HEADERS
    else
      var n := |recs| - 1;
      PacketSize(recs[..n]) + RECORD_HEADER + ADDR_SIZE * |recs[n].srcs|
  }

  /** A packet for `g` that fits and asks for none but the `sources`. */
  ghost predicate PacketOk(recs: seq<Record>, g: Addr, sources: seq<Addr>, mtu: nat) {
    && recs != [] && PacketSize(recs) <= mtu
    && (forall k | 0 <= k < |recs| :: Reportable(recs[k], g))
    && forall s | AskedIn(recs, s) :: s in sources
  }

  ghost predicate PacketsOk(packets: seq<seq<Record>>, g: Addr, sources: seq<Addr>, mtu: nat) {
    forall k | 0 <= k < |packets| :: PacketOk(packets[k], g, sources, mtu)
  }

  /** The packets with one INCLUDE record each. */
  function OneEach(g: Addr, lists: seq<seq<Addr>>): (r: seq<seq<Record>>)
    ensures |r| == |lists| && forall k | 0 <= k < |r| :: r[k] == [Record(IS_INCLUDE, g, lists[k])]
  {
    seq(|lists|, k requires 0 <= k < |lists| => [Record(IS_INCLUDE, g, lists[k])])
  }

  function Concat(lists: seq<seq<Addr>>): seq<Addr> {
    if lists == [] then [] else Concat(lists[..|lists| - 1]) + lists[|lists| - 1]
  }

  lemma {:induction false} ConcatSnoc(lists: seq<seq<Addr>>, p: seq<Addr>)
    ensures Concat([]) == [] && Concat(lists + [p]) == Concat(lists) + p
  {
    assert (lists + [p])[..|lists|] == lists;
  }

  // ----- the three ways a packet grows

  /** The current record starts over as "exclude nothing". */
  function Reset(recs: seq<Record>, g: Addr): seq<Record>
    requires recs != []
  {
    recs[..|recs| - 1] + [AnyRecord(g)]
  }

  function Append(recs: seq<Record>, g: Addr, s: Addr): seq<Record>
    requires recs != []
  {
    var n := |recs| - 1;
    recs[..n] + [Record(IS_INCLUDE, g, recs[n].srcs + [s])]
  }

  lemma {:induction false} SizeSnoc(recs: seq<Record>, r: Record)
    ensures PacketSize([]) == PACKET_HEADERS
    ensures PacketSize(recs + [r]) == PacketSize(recs) + RECORD_HEADER + ADDR_SIZE * |r.srcs|
  {
    assert (recs + [r])[..|recs|] == recs;
  }

  lemma {:induction false} AskedSnoc(recs: seq<Record>, r: Record, s: Addr)
    ensures AskedIn(recs + [r], s) <==> AskedIn(recs, s) || AsksFor(r, s)
    ensures !AskedIn([], s)
  {
    var all := recs + [r];
    assert all[|recs|] == r && forall k | 0 <= k < |recs| :: all[k] == recs[k];
  }

  lemma {:induction false} AskedPackets(packets: seq<seq<Record>>, recs: seq<Record>, s: Addr)
    ensures Asked(packets + [recs], s) <==> Asked(packets, s) || AskedIn(recs, s)
  {
    hide AskedIn;
    var all := packets + [recs];
    assert all[|packets|] == recs && forall k | 0 <= k < |packets| :: all[k] == packets[k];
  }

  /** Both kinds of growth at the end of a packet, in terms of its records before the last. */
  lemma {:induction false} Grown(before: seq<Record>, r: Record, g: Addr, sources: seq<Addr>, mtu: nat)
    requires forall k | 0 <= k < |before| :: Reportable(before[k], g)
    requires forall s | AskedIn(before, s) :: s in sources
    requires Reportable(r, g) && forall s | AsksFor(r, s) :: s in sources
    requires PacketSize(before) + RECORD_HEADER + ADDR_SIZE * |r.srcs| <= mtu
    ensures PacketOk(before + [r], g, sources, mtu)
  {
    hide Reportable, AsksFor, AskedIn;
    SizeSnoc(before, r);
    forall s | AskedIn(before + [r], s) ensures s in sources {
      AskedSnoc(before, r, s);
    }
  }

  /** The records before the last one of a packet. */
  lemma {:induction false} Initial(recs: seq<Record>, g: Addr, sources: seq<Addr>, mtu: nat)
    requires PacketOk(recs, g, sources, mtu)
    ensures var n := |recs| - 1;
            && recs == recs[..n] + [recs[n]]
            && (forall k | 0 <= k < n :: Reportable(recs[..n][k], g))
            && (forall s | AskedIn(recs[..n], s) || AsksFor(recs[n], s) :: s in sources)
            && PacketSize(recs) == PacketSize(recs[..n]) + RECORD_HEADER + ADDR_SIZE * |recs[n].srcs|
  {
    hide Reportable, AsksFor;
    var n := |recs| - 1;
    assert recs == recs[..n] + [recs[n]];
    SizeSnoc(recs[..n], recs[n]);
    forall s | AskedIn(recs[..n], s) || AsksFor(recs[n], s) ensures s in sources {
      AskedSnoc(recs[..n], recs[n], s);
    }
  }

  lemma {:induction false} MoreSources(packets: seq<seq<Record>>, recs: seq<Record>, g: Addr, sources: seq<Addr>,
                                       more: seq<Addr>, mtu: nat)
    requires forall s | s in sources :: s in more
    ensures PacketsOk(packets, g, sources, mtu) ==> PacketsOk(packets, g, more, mtu)
    ensures PacketOk(recs, g, sources, mtu) ==> PacketOk(recs, g, more, mtu)
  {
    hide AskedIn, Reportable, PacketSize;
  }

  lemma {:induction false} OneMore(packets: seq<seq<Record>>, recs: seq<Record>, g: Addr, sources: seq<Addr>, mtu: nat)
    requires PacketsOk(packets, g, sources, mtu) && PacketOk(recs, g, sources, mtu)
    ensures PacketsOk(packets + [recs], g, sources, mtu)
  {
    hide PacketOk;
  }

  /** The current record has sources. */
  predicate Full(recs: seq<Record>) {
    recs != [] && recs[|recs| - 1].srcs != []
  }

  /** A source goes to the current record if that has sources already, else to a new one. */
  function Added(recs: seq<Record>, g: Addr, s: Addr): seq<Record> {
    if Full(recs) && s != ANY then Append(recs, g, s)
    else recs + [if s == ANY then AnyRecord(g) else Record(IS_INCLUDE, g, [s])]
  }

  lemma {:induction false} AddedOk(recs: seq<Record>, g: Addr, s: Addr, seen: seq<Addr>, mtu: nat)
    requires recs == [] || PacketOk(recs, g, seen, mtu)
    requires Full(recs) ==> s != ANY
    ensures var r := Added(recs, g, s);
            && PacketSize(r) == PacketSize(recs)
                 + (if Full(recs) then 0 else RECORD_HEADER) + (if s == ANY then 0 else ADDR_SIZE)
            && (AskedIn(r, ANY) <==> AskedIn(recs, ANY) || s == ANY)
            && (PacketSize(r) <= mtu ==> PacketOk(r, g, seen + [s], mtu))
  {
    hide PacketOk, PacketSize, AskedIn;
    var r := Added(recs, g, s);
    SizeSnoc(recs, r[|r| - 1]);
    MoreSources([], recs, g, seen, seen + [s], mtu);
    if recs != [] {
      Initial(recs, g, seen + [s], mtu);
    }
    var n := |recs| - 1;
    if Full(recs) {
      PartsOk(recs, g, seen + [s], mtu);
      var last := Record(IS_INCLUDE, g, recs[n].srcs + [s]);
      SizeSnoc(recs[..n], last);
      AskedSnoc(recs[..n], last, ANY);
      AskedSnoc(recs[..n], recs[n], ANY);
      if PacketSize(r) <= mtu {
        Grown(recs[..n], last, g, seen + [s], mtu);
      }
    } else {
      var last := if s == ANY then AnyRecord(g) else Record(IS_INCLUDE, g, [s]);
      AskedSnoc(recs, last, ANY);
      if PacketSize(r) <= mtu {
        forall x ensures !AskedIn([], x) {
          AskedSnoc([], last, x);
        }
        PartsOk(recs, g, seen + [s], mtu);
        Grown(recs, last, g, seen + [s], mtu);
      }
    }
  }

  lemma {:induction false} PartsOk(recs: seq<Record>, g: Addr, seen: seq<Addr>, mtu: nat)
    requires recs == [] || PacketOk(recs, g, seen, mtu)
    ensures forall k | 0 <= k < |recs| :: Reportable(recs[k], g)
    ensures forall s | AskedIn(recs, s) :: s in seen
  {
  }

  lemma {:induction false} ResetOk(recs: seq<Record>, g: Addr, seen: seq<Addr>, mtu: nat)
    requires PacketOk(recs, g, seen, mtu)
    ensures PacketOk(Reset(recs, g), g, seen + [ANY], mtu) && AskedIn(Reset(recs, g), ANY)
    ensures PacketSize(Reset(recs, g)) <= PacketSize(recs)
  {
    hide PacketSize;
    var n := |recs| - 1;
    Initial(recs, g, seen, mtu);
    SizeSnoc(recs[..n], AnyRecord(g));
    AskedSnoc(recs[..n], AnyRecord(g), ANY);
    Grown(recs[..n], AnyRecord(g), g, seen + [ANY], mtu);
  }

  // ----- the packets built so far, as invariants

  /** The packets sent and the current one ask for `::` exactly when it was among the sources seen,
      and for nothing that was not. */
  ghost predicate Built(packets: seq<seq<Record>>, recs: seq<Record>, g: Addr, seen: seq<Addr>, mtu: nat) {
    && PacketsOk(packets, g, seen, mtu)
    && (recs == [] || PacketOk(recs, g, seen, mtu))
    && (ANY in seen <==> Asked(packets, ANY) || AskedIn(recs, ANY))
  }

  lemma {:induction false} BuiltNone(g: Addr, mtu: nat)
    ensures Built([], [], g, [], mtu)
  {
  }

  lemma {:induction false} BuiltReset(packets: seq<seq<Record>>, recs: seq<Record>, g: Addr, seen: seq<Addr>, mtu: nat)
    requires Built(packets, recs, g, seen, mtu) && recs != []
    ensures Built(packets, Reset(recs, g), g, seen + [ANY], mtu)
  {
    hide PacketOk, PacketsOk, Asked, AskedIn;
    MoreSources(packets, recs, g, seen, seen + [ANY], mtu);
    ResetOk(recs, g, seen, mtu);
  }

  lemma {:induction false} BuiltSend(packets: seq<seq<Record>>, recs: seq<Record>, g: Addr, seen: seq<Addr>, mtu: nat)
    requires Built(packets, recs, g, seen, mtu) && recs != []
    ensures Built(packets + [recs], [], g, seen, mtu)
  {
    hide PacketOk, PacketsOk, Asked, AskedIn;
    OneMore(packets, recs, g, seen, mtu);
    AskedPackets(packets, recs, ANY);
    AskedSnoc([], AnyRecord(g), ANY);
  }

  lemma {:induction false} BuiltAdd(packets: seq<seq<Record>>, recs: seq<Record>, g: Addr, s: Addr, seen: seq<Addr>,
                                    mtu: nat)
    requires Built(packets, recs, g, seen, mtu)
    requires Full(recs) ==> s != ANY
    ensures PacketSize(Added(recs, g, s)) == PacketSize(recs)
              + (if Full(recs) then 0 else RECORD_HEADER) + (if s == ANY then 0 else ADDR_SIZE)
    ensures PacketSize(Added(recs, g, s)) <= mtu ==> Built(packets, Added(recs, g, s), g, seen + [s], mtu)
  {
    hide PacketOk, PacketsOk, Asked, AskedIn, PacketSize;
    MoreSources(packets, recs, g, seen, seen + [s], mtu);
    AddedOk(recs, g, s, seen, mtu);
  }

  /** Without `::` every packet is one INCLUDE record. */
  ghost predicate Plain(packets: seq<seq<Record>>, recs: seq<Record>, g: Addr, lists: seq<seq<Addr>>, srcs: seq<Addr>,
                        seen: seq<Addr>) {
    && packets == OneEach(g, lists)
    && recs == (if srcs == [] then [] else [Record(IS_INCLUDE, g, srcs)])
    && Concat(lists) + srcs == seen
  }

  lemma {:induction false} PlainNone(g: Addr)
    ensures Plain([], [], g, [], [], [])
  {
  }

  lemma {:induction false} PlainSend(packets: seq<seq<Record>>, recs: seq<Record>, g: Addr, lists: seq<seq<Addr>>,
                                     srcs: seq<Addr>, seen: seq<Addr>)
    requires Plain(packets, recs, g, lists, srcs, seen) && srcs != []
    ensures Plain(packets + [recs], [], g, lists + [srcs], [], seen)
  {
    hide Concat;
    ConcatSnoc(lists, srcs);
  }

  lemma {:induction false} PlainSize(recs: seq<Record>, g: Addr, srcs: seq<Addr>)
    requires recs == if srcs == [] then [] else [Record(IS_INCLUDE, g, srcs)]
    ensures Full(recs) <==> recs != []
    ensures PacketSize(recs) == if srcs == [] then PACKET_HEADERS else ONE_RECORD + ADDR_SIZE * |srcs|
  {
    hide PacketSize;
    SizeSnoc([], Record(IS_INCLUDE, g, srcs));
    assert [] + [Record(IS_INCLUDE, g, srcs)] == [Record(IS_INCLUDE, g, srcs)];
  }

  lemma {:induction false} PlainAdded(recs: seq<Record>, g: Addr, srcs: seq<Addr>, s: Addr)
    requires recs == (if srcs == [] then [] else [Record(IS_INCLUDE, g, srcs)]) && s != ANY
    ensures Added(recs, g, s) == [Record(IS_INCLUDE, g, srcs + [s])]
  {
    if srcs == [] {
      assert srcs + [s] == [s];
    } else {
      assert recs[|recs| - 1].srcs == srcs && recs[..0] == [];
    }
  }

  lemma {:induction false} PlainAdd(packets: seq<seq<Record>>, recs: seq<Record>, g: Addr, lists: seq<seq<Addr>>,
                                    srcs: seq<Addr>, seen: seq<Addr>, s: Addr)
    requires Plain(packets, recs, g, lists, srcs, seen) && s != ANY
    ensures Plain(packets, Added(recs, g, s), g, lists, srcs + [s], seen + [s])
    ensures Full(recs) <==> recs != []
    ensures PacketSize(recs) == if srcs == [] then PACKET_HEADERS else ONE_RECORD + ADDR_SIZE * |srcs|
  {
    hide Concat, PacketSize, OneEach, Added, Full;
    PlainSize(recs, g, srcs);
    PlainAdded(recs, g, srcs, s);
    assert Concat(lists) + (srcs + [s]) == Concat(lists) + srcs + [s];
  }

  // ----- the slots behind the first record

  /** With `q` full packets sent and `n` sources in the current one, each slot holds the source written
      to it last. */
  ghost predicate Filled(slots: seq<Addr>, sources: seq<Addr>, q: nat, n: nat, c: nat) {
    && |slots| == c && n <= c && q * c + n <= |sources|
    && (forall j | 0 <= j < n :: slots[j] == sources[q * c + j])
    && (forall j | n <= j < c :: slots[j] == if q == 0 then ANY else sources[q * c - c + j])
  }

  /** The duplicate check finds the source it was looking for: one packet earlier, at the same place. */
  predicate CollidesAt(sources: seq<Addr>, k: nat, c: nat)
    requires k < |sources| && c > 0
  {
    c < k && k % c != 0 && sources[k] == sources[k - c]
  }

  ghost predicate Collides(sources: seq<Addr>, c: nat)
    requires c > 0
  {
    exists k | 0 <= k < |sources| :: CollidesAt(sources, k, c)
  }

  lemma {:induction false} Remainder(q: nat, n: nat, c: nat)
    requires 0 < n <= c
    ensures (q * c + n) % c == (if n == c then 0 else n)
    decreases q
  {
    if q > 0 {
      Remainder(q - 1, n, c);
      assert q * c + n == ((q - 1) * c + n) + c;
      AddOnce((q - 1) * c + n, c);
    }
  }

  lemma {:induction false} AddOnce(x: nat, c: nat)
    requires c > 0
    ensures (x + c) % c == x % c
  {
    assert x + c == (x / c + 1) * c + x % c;
    Unique(x + c, x / c + 1, x % c, c);
  }

  lemma {:induction false} Unique(x: nat, q: nat, r: nat, c: nat)
    requires x == q * c + r && r < c
    ensures x % c == r
  {
    var d := x / c - q;
    assert x == (x / c) * c + x % c;
    assert d * c == r - x % c;
    Multiples(d, c);
  }

  lemma {:induction false} CheckFinds(slots: seq<Addr>, sources: seq<Addr>, q: nat, n: nat, c: nat)
    requires Filled(slots, sources, q, n, c) && 0 < n && q * c + n < |sources| && sources[q * c + n] != ANY
    ensures (n < c && slots[n] == sources[q * c + n]) <==> CollidesAt(sources, q * c + n, c)
  {
    Remainder(q, n, c);
    if q > 0 {
      assert q * c >= c;
    }
  }

  lemma {:induction false} FilledAdd(slots: seq<Addr>, sources: seq<Addr>, q: nat, n: nat, c: nat)
    requires Filled(slots, sources, q, n, c) && n < c && q * c + n < |sources|
    ensures Filled(slots[n := sources[q * c + n]], sources, q, n + 1, c)
  {
  }

  lemma {:induction false} FilledNext(slots: seq<Addr>, sources: seq<Addr>, q: nat, c: nat)
    requires Filled(slots, sources, q, c, c)
    ensures Filled(slots, sources, q + 1, 0, c)
  {
    assert (q + 1) * c == q * c + c;
  }

  ghost predicate AllFull(lists: seq<seq<Addr>>, capacity: nat) {
    forall k | 0 <= k < |lists| :: |lists[k]| == capacity
  }

  /** The state of the builder after `k` sources, as long as none of them is `::`; `steady` says that no
      send finds the device gone. */
  ghost predicate Aligned(slots: seq<Addr>, packets: seq<seq<Record>>, recs: seq<Record>, g: Addr,
                          lists: seq<seq<Addr>>, srcs: seq<Addr>, sources: seq<Addr>,
                          k: nat, c: nat, steady: bool)
    requires c > 0
  {
    && k <= |sources| && ANY !in sources[..k] && |slots| == c && |srcs| <= c
    && Plain(packets, recs, g, lists, srcs, sources[..k])
    && (steady ==> && k == |lists| * c + |srcs| && AllFull(lists, c)
                   && Filled(slots, sources, |lists|, |srcs|, c)
                   && forall j | 0 <= j < k :: !CollidesAt(sources, j, c))
    && (forall j | 0 <= j < c :: slots[j] == ANY || slots[j] in sources[..k])
    && (packets == [] ==> forall j | |srcs| <= j < c :: slots[j] == ANY)
    && (packets != [] ==> k >= c && (recs != [] ==> k > c))
  }

  lemma {:induction false} AlignedNone(slots: seq<Addr>, g: Addr, sources: seq<Addr>, c: nat, steady: bool)
    requires c > 0 && |slots| == c && forall j | 0 <= j < c :: slots[j] == ANY
    ensures Aligned(slots, [], [], g, [], [], sources, 0, c, steady)
  {
    PlainNone(g);
  }

  /** The current packet while no `::` has come up. */
  lemma {:induction false} AlignedPacket(slots: seq<Addr>, packets: seq<seq<Record>>, recs: seq<Record>, g: Addr,
                                         lists: seq<seq<Addr>>, srcs: seq<Addr>, sources: seq<Addr>,
                                         k: nat, c: nat, steady: bool)
    requires c > 0 && Aligned(slots, packets, recs, g, lists, srcs, sources, k, c, steady)
    ensures |slots| == c && |srcs| <= c && (recs == [] <==> srcs == [])
    ensures recs != [] ==> |recs| == 1 && recs[0].srcs == srcs && PacketSize(recs) == ONE_RECORD + ADDR_SIZE * |srcs|
    ensures |srcs| <= k
    ensures ANY !in sources[..k]
  {
    hide Filled, CollidesAt, AllFull, PacketSize;
    SizeSnoc([], Record(IS_INCLUDE, g, srcs));
    assert [] + [Record(IS_INCLUDE, g, srcs)] == [Record(IS_INCLUDE, g, srcs)];
    assert |Concat(lists) + srcs| >= |srcs|;
  }

  lemma {:induction false} AlignedSend(slots: seq<Addr>, packets: seq<seq<Record>>, recs: seq<Record>, g: Addr,
                                       lists: seq<seq<Addr>>, srcs: seq<Addr>, sources: seq<Addr>,
                                       k: nat, c: nat, steady: bool)
    requires c > 0 && Aligned(slots, packets, recs, g, lists, srcs, sources, k, c, steady) && recs != []
    requires steady || packets == [] ==> |srcs| == c
    ensures Aligned(slots, packets + [recs], [], g, lists + [srcs], [], sources, k, c, steady)
  {
    hide Filled, CollidesAt, Plain;
    AlignedPacket(slots, packets, recs, g, lists, srcs, sources, k, c, steady);
    PlainSend(packets, recs, g, lists, srcs, sources[..k]);
    if steady {
      FilledNext(slots, sources, |lists|, c);
      assert (|lists| + 1) * c == |lists| * c + c;
    }
  }

  lemma {:induction false} AlignedAdd(slots: seq<Addr>, packets: seq<seq<Record>>, recs: seq<Record>, g: Addr,
                                      lists: seq<seq<Addr>>, srcs: seq<Addr>, sources: seq<Addr>,
                                      k: nat, c: nat, steady: bool)
    requires c > 0 && Aligned(slots, packets, recs, g, lists, srcs, sources, k, c, steady)
    requires k < |sources| && sources[k] != ANY && |srcs| < c
    requires srcs != [] ==> slots[|srcs|] != sources[k]
    ensures Aligned(slots[|srcs| := sources[k]], packets, Added(recs, g, sources[k]), g, lists, srcs + [sources[k]],
                    sources, k + 1, c, steady)
  {
    hide Filled, CollidesAt, Plain, AllFull;
    var s := sources[k];
    assert sources[..k + 1] == sources[..k] + [s];
    PlainAdd(packets, recs, g, lists, srcs, sources[..k], s);
    if steady {
      FilledAdd(slots, sources, |lists|, |srcs|, c);
      if srcs == [] {
        StartsPacket(sources, |lists|, c);
      } else {
        CheckFinds(slots, sources, |lists|, |srcs|, c);
      }
    }
  }

  lemma {:induction false} StartsPacket(sources: seq<Addr>, q: nat, c: nat)
    requires c > 0 && q * c < |sources|
    ensures !CollidesAt(sources, q * c, c)
  {
    if q > 0 {
      Remainder(q - 1, c, c);
      assert (q - 1) * c + c == q * c;
    }
  }

  lemma {:induction false} AlignedMatch(slots: seq<Addr>, packets: seq<seq<Record>>, recs: seq<Record>, g: Addr,
                                        lists: seq<seq<Addr>>, srcs: seq<Addr>, sources: seq<Addr>,
                                        k: nat, c: nat, steady: bool)
    requires c > 0 && Aligned(slots, packets, recs, g, lists, srcs, sources, k, c, steady) && recs != []
    requires k < |sources| && sources[k] != ANY && |srcs| < c && slots[|srcs|] == sources[k]
    ensures steady ==> Collides(sources, c)
    ensures |sources| > c && !LinkList.Distinct(sources)
  {
    hide Filled, CollidesAt, Plain, AllFull;
    AlignedPacket(slots, packets, recs, g, lists, srcs, sources, k, c, steady);
    if steady {
      CheckFinds(slots, sources, |lists|, |srcs|, c);
    }
    NotDistinct(sources, k);
  }

  lemma {:induction false} NotDistinct(s: seq<Addr>, k: nat)
    requires k < |s| && s[k] in s[..k]
    ensures !LinkList.Distinct(s)
  {
    var j :| 0 <= j < k && s[..k][j] == s[k];
    assert s[j] == s[k];
  }

  /** The report has been sent: the last packet may be shorter. */
  lemma {:induction false} AlignedEnd(slots: seq<Addr>, packets: seq<seq<Record>>, recs: seq<Record>, g: Addr,
                                      lists: seq<seq<Addr>>, srcs: seq<Addr>, sources: seq<Addr>, c: nat, steady: bool)
    requires c > 0 && Aligned(slots, packets, recs, g, lists, srcs, sources, |sources|, c, steady)
    ensures steady ==> AllFull(lists, c) && !Collides(sources, c)
    ensures |sources| <= c ==> (recs == [] || packets == []) && |lists| == |packets|
    ensures recs == [] ==> packets == OneEach(g, lists) && Concat(lists) == sources
    ensures recs != [] ==> packets + [recs] == OneEach(g, lists + [srcs]) && Concat(lists + [srcs]) == sources
  {
    hide Filled, CollidesAt, Plain, AllFull;
    assert sources[..|sources|] == sources;
    PlainParts(packets, recs, g, lists, srcs, sources);
  }

  lemma {:induction false} PlainParts(packets: seq<seq<Record>>, recs: seq<Record>, g: Addr, lists: seq<seq<Addr>>,
                                      srcs: seq<Addr>, seen: seq<Addr>)
    requires Plain(packets, recs, g, lists, srcs, seen)
    ensures |lists| == |packets|
    ensures recs == [] ==> packets == OneEach(g, lists) && Concat(lists) == seen
    ensures recs != [] ==> packets + [recs] == OneEach(g, lists + [srcs]) && Concat(lists + [srcs]) == seen
  {
    ConcatSnoc(lists, srcs);
  }

  // ----- the builder

  /** A report ends clean; or a source matched the slot behind the current record, after which the code
      misplaces its next record; or a record was started that the buffer has no room for. */
  datatype Ending = Clean | Duplicate | TooLong

  ghost predicate Steady(gone: nat -> bool) {
    forall j: nat :: !gone(j)
  }

  ghost predicate AllAny(sources: seq<Addr>) {
    forall k | 0 <= k < |sources| :: sources[k] == ANY
  }

  /** mld2_send_report for one group.  `gone(n)` says that send n finds the device gone, which sets the
      interface's MTU to 0 in mid-report.  The duplicate check compares with the slot after the last
      source, which holds what an earlier packet left there; once `::` has come up, records no longer
      start at the same place in each packet, and `stale` stands for what the check reads. */
  method SplitReport(mtu: nat, g: Addr, sources: seq<Addr>, gone: nat -> bool, stale: nat -> Addr)
    returns (packets: seq<seq<Record>>, ending: Ending, ghost lists: seq<seq<Addr>>)
    requires mtu >= Interfaces.MIN_MTU
    ensures PacketsOk(packets, g, sources, mtu)
    ensures ending == Clean ==> (packets == [] <==> sources == []) && (Asked(packets, ANY) <==> ANY in sources)
    ensures ANY !in sources ==> ending != TooLong
    ensures ANY !in sources && ending == Clean ==> packets == OneEach(g, lists) && Concat(lists) == sources
    ensures ANY !in sources && ending == Clean && lists != [] && Steady(gone) ==>
              AllFull(lists[..|lists| - 1], Capacity(mtu))
    ensures ANY !in sources && Steady(gone) ==> (ending == Duplicate <==> Collides(sources, Capacity(mtu)))
    ensures ANY !in sources && LinkList.Distinct(sources) ==> ending == Clean
    ensures ANY !in sources && |sources| <= Capacity(mtu) ==> ending == Clean && |packets| <= 1
    ensures AllAny(sources) ==>
              ending == if PACKET_HEADERS + RECORD_HEADER * |sources| > mtu then TooLong else Clean
  {
    hide Built, Aligned, PacketSize, PacketsOk, Asked, AskedIn, Collides, AllFull;
    hide LinkList.Distinct, Concat, OneEach, Added, Append, Reset, AllAny;
    var capacity := Capacity(mtu);
    var slots := new Addr[capacity](_ => ANY);
    var current, any, aligned := mtu, false, true;
    var recs: seq<Record> := [];
    ghost var srcs: seq<Addr>, steady := [], Steady(gone);
    packets, ending, lists := [], Clean, [];
    BuiltNone(g, mtu);
    AlignedNone(slots[..], g, sources, capacity, steady);
    SizeSnoc([], AnyRecord(g));
    var k := 0;
    while k < |sources|
      invariant k <= |sources| && slots.Length == capacity && (k == 0 <==> recs == []) && (k == 0 ==> packets == [])
      invariant current == mtu || (current == 0 && packets != [] && !steady)
      invariant any <==> recs != [] && !Full(recs)
      invariant Built(packets, recs, g, sources[..k], mtu)
      invariant aligned <==> ANY !in sources[..k]
      invariant aligned ==> Aligned(slots[..], packets, recs, g, lists, srcs, sources, k, capacity, steady)
      invariant AllAny(sources) ==> packets == [] && !Full(recs) && PacketSize(recs) == PACKET_HEADERS + RECORD_HEADER * k
    {
      var src := sources[k];
      assert sources[..k + 1] == sources[..k] + [src];
      if aligned {
        AlignedPacket(slots[..], packets, recs, g, lists, srcs, sources, k, capacity, steady);
      }
      AnyAt(sources, k);
      BuiltParts(packets, recs, g, sources, k, mtu);
      if Full(recs) {
        if src == ANY {
          BuiltReset(packets, recs, g, sources[..k], mtu);
          ResetIs(recs, g);
          recs := Reset(recs, g);
          any, aligned, k := true, false, k + 1;
          continue;
        }
        var n := |recs[|recs| - 1].srcs|;
        if if aligned then n < capacity && slots[n] == src else stale(k) == src {
          if aligned {
            AlignedMatch(slots[..], packets, recs, g, lists, srcs, sources, k, capacity, steady);
          }
          return packets, Duplicate, lists;
        }
      }
      var used := if recs != [] then PacketSize(recs) else PACKET_HEADERS + IP_HEADER + RECORD_HEADER;
      if used + (if any || src == ANY then 0 else ADDR_SIZE) > current {
        if recs == [] {
          assert false;
        }
        if gone(|packets|) {
          current := 0;
        }
        BuiltSend(packets, recs, g, sources[..k], mtu);
        if aligned {
          AlignedSend(slots[..], packets, recs, g, lists, srcs, sources, k, capacity, steady);
          lists, srcs := lists + [srcs], [];
        }
        packets, recs := packets + [recs], [];
      }
      BuiltAdd(packets, recs, g, src, sources[..k], mtu);
      AddedIs(recs, g, src);
      var n := if Full(recs) then |recs[|recs| - 1].srcs| else 0;
      if aligned && src != ANY {
        AlignedAdd(slots[..], packets, recs, g, lists, srcs, sources, k, capacity, steady);
        slots[n] := src;
        srcs := srcs + [src];
      }
      if !Full(recs) {
        recs, any := recs + [AnyRecord(g)], false;
      }
      if src != ANY {
        recs := Append(recs, g, src);
      } else {
        any, aligned := true, false;
      }
      if PacketSize(recs) > mtu {
        return packets, TooLong, lists;
      }
      k := k + 1;
    }
    assert sources[..k] == sources;
    if aligned {
      AlignedEnd(slots[..], packets, recs, g, lists, srcs, sources, capacity, steady);
    }
    BuiltParts(packets, recs, g, sources, k, mtu);
    if recs != [] {
      BuiltSend(packets, recs, g, sources, mtu);
      packets := packets + [recs];
      lists := if aligned then lists + [srcs] else lists;
    }
    BuiltParts(packets, [], g, sources, k, mtu);
  }

  lemma {:induction false} AnyAt(sources: seq<Addr>, k: nat)
    requires k < |sources|
    ensures AllAny(sources) ==> sources[k] == ANY
    ensures ANY !in sources ==> sources[k] != ANY && ANY !in sources[..k]
  {
  }

  lemma {:induction false} BuiltParts(packets: seq<seq<Record>>, recs: seq<Record>, g: Addr, sources: seq<Addr>,
                                      k: nat, mtu: nat)
    requires k <= |sources| && Built(packets, recs, g, sources[..k], mtu)
    ensures PacketsOk(packets, g, sources, mtu) && (recs != [] ==> PacketSize(recs) <= mtu)
    ensures recs == [] ==> (ANY in sources[..k] <==> Asked(packets, ANY))
  {
    hide PacketsOk, Asked, AskedIn;
    MoreSources(packets, recs, g, sources[..k], sources, mtu);
    AskedSnoc([], AnyRecord(g), ANY);
  }

  lemma {:induction false} ResetIs(recs: seq<Record>, g: Addr)
    requires recs != []
    ensures Reset(recs, g) != [] && !Full(Reset(recs, g))
  {
  }

  lemma {:induction false} AddedIs(recs: seq<Record>, g: Addr, s: Addr)
    ensures Full(recs) && s != ANY ==> Append(recs, g, s) == Added(recs, g, s)
    ensures !Full(recs) ==>
              Added(recs, g, s) == if s == ANY then recs + [AnyRecord(g)] else Append(recs + [AnyRecord(g)], g, s)
    ensures Added(recs, g, s) != [] && (Full(Added(recs, g, s)) <==> s != ANY)
  {
    assert (recs + [AnyRecord(g)])[..|recs|] == recs && [] + [s] == [s];
  }

  /** So the duplicate check never works inside one packet: a report that fits one packet lists no
      source twice exactly when no two interfaces asked for the same one. */
  method OnePacket(mtu: nat, g: Addr, sources: seq<Addr>, gone: nat -> bool, stale: nat -> Addr)
    returns (packets: seq<seq<Record>>)
    requires mtu >= Interfaces.MIN_MTU && ANY !in sources && |sources| <= Capacity(mtu)
    ensures packets == if sources == [] then [] else [[Record(IS_INCLUDE, g, sources)]]
    ensures LinkList.Distinct(sources) <==> forall p, r | p in packets && r in p :: LinkList.Distinct(r.srcs)
  {
    hide PacketsOk, Asked, AllAny, AllFull, Collides, Steady, LinkList.Distinct, OneEach, Concat;
    var ending;
    ghost var lists;
    packets, ending, lists := SplitReport(mtu, g, sources, gone, stale);
    OneList(packets, g, lists, sources);
    LinkList.DistinctEmpty<Addr>();
    ghost var rec := Record(IS_INCLUDE, g, sources);
    assert sources != [] ==> rec in [rec] && [rec] in packets;
  }

  lemma {:induction false} OneList(packets: seq<seq<Record>>, g: Addr, lists: seq<seq<Addr>>, sources: seq<Addr>)
    requires packets == OneEach(g, lists) && Concat(lists) == sources
    requires |packets| <= 1 && (packets == [] <==> sources == [])
    ensures packets == if sources == [] then [] else [[Record(IS_INCLUDE, g, sources)]]
  {
    if sources != [] {
      ConcatSnoc([], lists[0]);
      assert lists == [] + [lists[0]] && [] + lists[0] == lists[0];
      assert packets == [packets[0]];
    }
  }

  /** Two interfaces that ask for the same source have it reported twice. */
  method Repeated(mtu: nat, g: Addr, a: Addr, gone: nat -> bool, stale: nat -> Addr) returns (packets: seq<seq<Record>>)
    requires mtu >= Interfaces.MIN_MTU && a != ANY
    ensures packets == [[Record(IS_INCLUDE, g, [a, a])]]
  {
    packets := OnePacket(mtu, g, [a, a], gone, stale);
  }
}
