/** From the bytes of an IPv6 packet to the event the daemon makes of it, and the packets that one hub
    builds read back by the next. */
module Ingress {
  import opened Addresses
  import opened Database
  import opened Handlers
  import opened Messages
  import opened ReportTransfer
  import opened Wire
  import DataFlood
  import ExtHeaders
  import ReportSplit

  const ICMPV6: Byte := 58
  const ECHO_REQUEST: Byte := 128
  const MLD_QUERY: Byte := 130
  const MLD_REPORT: Byte := 131
  const MLD_REDUCTION: Byte := 132
  const MLD2_REPORT: Byte := 143
  const MLD2_REPORT_EXP: Byte := 206

  /** The size of an MLDv1 message, and where its group is. */
  const MLD1_SIZE := 24
  const MLD1_GROUP := 8

  // ----- reading a packet

  function BodyOf(kind: Byte, data: seq<Byte>): DataFlood.Body {
    if kind != ICMPV6 then DataFlood.NotIcmp
    else if data == [] then DataFlood.OtherIcmp
    else if data[0] == ECHO_REQUEST then DataFlood.EchoRequest
    else if data[0] in {MLD_QUERY, MLD_REPORT, MLD_REDUCTION, MLD2_REPORT, MLD2_REPORT_EXP} then DataFlood.MldMessage
    else DataFlood.OtherIcmp
  }

  datatype Decoded = Decoded(packet: DataFlood.Packet, data: seq<Byte>)

  /** The fixed header, and the payload behind the extension headers. */
  function Decode(p: seq<Byte>): Option<Decoded> {
    if |p| < ExtHeaders.FIXED_HEADER then None
    else
      match ExtHeaders.Walk(p, p[6], ExtHeaders.FIXED_HEADER, ReadWord(p, 4))
      case Payload(kind, off, plen) =>
        if off + plen > |p| then None
        else
          var data := p[off..off + plen];
          Some(Decoded(DataFlood.Packet(ReadAddr(p, 8), ReadAddr(p, 24), p[7], BodyOf(kind, data)), data))
      case Corrupt => None
      case PastEnd => None
  }

  function MldOf(i: nat, data: seq<Byte>): Option<Message> {
    if data == [] then None
    else if data[0] == MLD_QUERY then Some(Query(i, |data| == MLD1_SIZE))
    else if data[0] == MLD2_REPORT || data[0] == MLD2_REPORT_EXP then Some(Mld2Report(i, data))
    else if |data| < MLD1_SIZE then None
    else if data[0] == MLD_REPORT then Some(Mld1Report(i, ReadAddr(data, MLD1_GROUP)))
    else if data[0] == MLD_REDUCTION then Some(Mld1Reduction(i, ReadAddr(data, MLD1_GROUP)))
    else None
  }

  /** What a packet on interface `i`, whose own addresses are `own`, comes to. */
  function MessageOf(i: nat, own: set<Addr>, p: seq<Byte>): Option<Message> {
    match Decode(p)
    case None => None
    case Some(d) =>
      var action := DataFlood.Dispatch(d.packet, own);
      if action.Mld? then MldOf(i, d.data)
      else if action.Route? then Some(Data(i, d.packet.src, d.packet.dst))
      else None
  }

  // ----- the encoding of sections 3 and 4 of RFC 8200

  function FixedHeader(src: Addr, dst: Addr, hlim: Byte, kind: Byte, plen: nat): (s: seq<Byte>)
    ensures |s| == ExtHeaders.FIXED_HEADER
  {
    [0x60, 0, 0, 0] + ToBytes(plen, 2) + [kind, hlim] + ToBytes(src, ADDR_SIZE) + ToBytes(dst, ADDR_SIZE)
  }

  ghost predicate ChainOk(exts: seq<ExtHeaders.Ext>, kind: Byte, data: seq<Byte>) {
    && (forall e | e in exts :: ExtHeaders.ExtOk(e)) && ExtHeaders.IsUpper(kind)
    && |ExtHeaders.EncodeChain(exts, kind)| + |data| < 65536
  }

  function EncodePacket(src: Addr, dst: Addr, hlim: Byte, exts: seq<ExtHeaders.Ext>, kind: Byte,
                        data: seq<Byte>): seq<Byte>
    requires ChainOk(exts, kind, data)
  {
    var chain := ExtHeaders.EncodeChain(exts, kind);
    FixedHeader(src, dst, hlim, ExtHeaders.FirstKind(exts, kind), |chain| + |data|) + chain + data
  }

  lemma {:induction false} FixedReadBack(p: seq<Byte>, src: Addr, dst: Addr, hlim: Byte, kind: Byte, plen: nat)
    requires plen < 65536 && Holds(p, 0, FixedHeader(src, dst, hlim, kind, plen))
    ensures |p| >= ExtHeaders.FIXED_HEADER && ReadWord(p, 4) == plen && p[6] == kind && p[7] == hlim
    ensures ReadAddr(p, 8) == src && ReadAddr(p, 24) == dst
  {
    hide ToBytes, Holds, ReadAddr, ReadWord;
    var a, b, c, d, e := [0x60, 0, 0, 0], ToBytes(plen, 2), [kind, hlim], ToBytes(src, ADDR_SIZE), ToBytes(dst, ADDR_SIZE);
    HoldsParts(p, 0, a + b + c + d, e);
    HoldsParts(p, 0, a + b + c, d);
    HoldsParts(p, 0, a + b, c);
    HoldsParts(p, 0, a, b);
    HoldsBound(p, 24, e);
    ReadAddrBack(p, 24, dst);
    ReadAddrBack(p, 8, src);
    ReadWordBack(p, 4, plen);
    HoldsPair(p, 6, kind, hlim);
  }

  lemma {:induction false} HoldsPair(p: seq<Byte>, off: nat, x: Byte, y: Byte)
    requires Holds(p, off, [x, y])
    ensures off + 2 <= |p| && p[off] == x && p[off + 1] == y
  {
    assert p[off..off + 2][0] == x && p[off..off + 2][1] == y;
  }

  /** Reading inverts the encoding, for every chain of extension headers. */
  lemma {:induction false} PacketReadBack(src: Addr, dst: Addr, hlim: Byte, exts: seq<ExtHeaders.Ext>, kind: Byte,
                                          data: seq<Byte>)
    requires ChainOk(exts, kind, data)
    ensures Decode(EncodePacket(src, dst, hlim, exts, kind, data)) ==
            Some(Decoded(DataFlood.Packet(src, dst, hlim, BodyOf(kind, data)), data))
  {
    hide FixedHeader, ReadAddr, ReadWord, ExtHeaders.EncodeChain, ExtHeaders.Walk, BodyOf, ExtHeaders.ExtOk;
    var chain := ExtHeaders.EncodeChain(exts, kind);
    var first, plen := ExtHeaders.FirstKind(exts, kind), |chain| + |data|;
    var fixed := FixedHeader(src, dst, hlim, first, plen);
    var p := fixed + chain + data;
    HoldsAll(p);
    assert fixed + chain + data == fixed + (chain + data);
    HoldsParts(p, 0, fixed, chain + data);
    FixedReadBack(p, src, dst, hlim, first, plen);
    ExtHeaders.WalkInverts(fixed, exts, kind, data);
  }

  // ----- what one hub sends, another understands

  /** The hop-by-hop header with the router alert option. */
  const ROUTER_ALERT := ExtHeaders.Ext(ExtHeaders.HOPOPTS, [5, 2, 0, 0, 1, 0])

  /** ff02::16 */
  const ALL_MLD2_ROUTERS: Addr := 0xff02_0000_0000_0000_0000_0000_0000_0016

  lemma {:induction false} AllRouters()
    ensures var b := ToBytes(ALL_MLD2_ROUTERS, 16); b[0] == 0xff && b[1] == 0x02 && b[15] == 0x16
  {
    hide ToBytes;
    ByteAt(ALL_MLD2_ROUTERS, 16, 0);
    ByteAt(ALL_MLD2_ROUTERS, 16, 1);
    ByteAt(ALL_MLD2_ROUTERS, 16, 15);
    TopPowers();
    assert Pow256(0) == 1;
  }

  lemma {:induction false} AlertChain(kind: Byte)
    ensures ExtHeaders.ExtOk(ROUTER_ALERT) && |ExtHeaders.EncodeChain([ROUTER_ALERT], kind)| == 8
  {
    assert [ROUTER_ALERT][1..] == [];
  }

  /** An MLDv2 report as the builder sends it: it has the size the builder allowed for, arrives as an
      event with the encoded records, and handling that event is receiving the packet. */
  lemma {:induction false} ReportArrives(i: nat, own: set<Addr>, src: Addr, header: seq<Byte>, recs: seq<Record>,
                                         db: DB, now: int)
    requires IsLinkLocal(src) && src !in own && |header| == 6 && header[0] == 143
    requires Sendable(recs) && ReportSplit.PacketSize(recs) < 65536
    ensures var data := Encode(header, recs);
            ChainOk([ROUTER_ALERT], 58, data) &&
            var p := EncodePacket(src, ALL_MLD2_ROUTERS, 1, [ROUTER_ALERT], 58, data);
            && |p| == ReportSplit.PacketSize(recs)
            && MessageOf(i, own, p) == Some(Mld2Report(i, data))
            && Handle(db, Event(now, Mld2Report(i, data))) == Received(db, i, header, [recs], now)
  {
    hide ExtHeaders.EncodeChain, Decode, FixedHeader, Records, Sendable, ReportSplit.PacketSize, EncodeItems;
    var data := Encode(header, recs);
    AlertChain(ICMPV6);
    EncodeSize(header, recs);
    assert data[0] == header[0];
    PacketReadBack(src, ALL_MLD2_ROUTERS, 1, [ROUTER_ALERT], ICMPV6, data);
    HandleReceived(db, i, header, recs, now);
  }

  lemma {:induction false} HandleReceived(db: DB, i: nat, header: seq<Byte>, recs: seq<Record>, now: int)
    requires |header| == 6 && Sendable(recs)
    ensures Handle(db, Event(now, Mld2Report(i, Encode(header, recs)))) == Received(db, i, header, [recs], now)
  {
    hide ParseReport, EncodeReport, Records;
    WalkInverts(header, Items(recs));
    assert [recs][..0] == [];
  }

  /** The same for an MLDv1 report, which is sent to the group itself. */
  lemma {:induction false} Report1Arrives(i: nat, own: set<Addr>, src: Addr, g: Addr, checksum: nat)
    requires IsLinkLocal(src) && src !in own && IsMulticast(g) && checksum < 65536
    ensures var data := [131, 0] + ToBytes(checksum, 2) + [0, 0, 0, 0] + ToBytes(g, ADDR_SIZE);
            ChainOk([ROUTER_ALERT], 58, data) &&
            MessageOf(i, own, EncodePacket(src, g, 1, [ROUTER_ALERT], 58, data)) == Some(Mld1Report(i, g))
  {
    hide ExtHeaders.EncodeChain, Decode, FixedHeader, ToBytes, ReadAddr;
    var data := [MLD_REPORT, 0] + ToBytes(checksum, 2) + [0, 0, 0, 0] + ToBytes(g, ADDR_SIZE);
    AlertChain(ICMPV6);
    GroupReadBack(MLD_REPORT, checksum, g);
    PacketReadBack(src, g, 1, [ROUTER_ALERT], ICMPV6, data);
  }

  /** A data packet, behind any extension headers, becomes an event exactly when its destination is
      multicast, it is not the hub's own and its hop limit allows one more hop. */
  lemma {:induction false} DataArrives(i: nat, own: set<Addr>, src: Addr, dst: Addr, hlim: Byte,
                                       exts: seq<ExtHeaders.Ext>, kind: Byte, data: seq<Byte>)
    requires ChainOk(exts, kind, data) && kind != 58
    ensures MessageOf(i, own, EncodePacket(src, dst, hlim, exts, kind, data)) ==
            if ToBytes(dst, 16)[0] == 0xff && src !in own && hlim >= 2 then Some(Data(i, src, dst)) else None
  {
    hide Decode, EncodePacket, ToBytes, IsMulticast, IsLinkLocal;
    PacketReadBack(src, dst, hlim, exts, kind, data);
    ClassesByBytes(dst);
  }

  /** The group an MLDv1 message is about. */
  lemma {:induction false} GroupReadBack(kind: Byte, checksum: nat, g: Addr)
    ensures var data := [kind, 0] + ToBytes(checksum, 2) + [0, 0, 0, 0] + ToBytes(g, 16);
            |data| == 24 && data[0] == kind && ReadAddr(data, 8) == g
  {
    hide ToBytes, ReadAddr;
    var start := [kind, 0] + ToBytes(checksum, 2) + [0, 0, 0, 0];
    var data := start + ToBytes(g, 16);
    HoldsAll(data);
    HoldsParts(data, 0, start, ToBytes(g, 16));
    ReadAddrBack(data, 8, g);
  }

  /** Every ICMPv6 packet, by the number of its type.  An echo request (128) goes the way of data.  Of the
      rest only MLD messages from a link-local source count: a query (130), of version 1 exactly when it has
      24 bytes; a report (131) or a reduction (132) of version 1, for the group at byte 8; a report of
      version 2 (143, or 206 while that number was experimental). */
  lemma {:induction false} IcmpArrives(i: nat, own: set<Addr>, src: Addr, dst: Addr, hlim: Byte,
                                       exts: seq<ExtHeaders.Ext>, data: seq<Byte>)
    requires ChainOk(exts, 58, data) && data != []
    ensures var msg := MessageOf(i, own, EncodePacket(src, dst, hlim, exts, 58, data));
            var s, kind := ToBytes(src, 16), data[0];
            if ToBytes(dst, 16)[0] != 0xff || src in own then msg == None
            else if kind == 128 then msg == if hlim >= 2 then Some(Data(i, src, dst)) else None
            else if !(s[0] == 0xfe && 0x80 <= s[1] <= 0xbf) then msg == None
            else if kind == 130 then msg == Some(Query(i, |data| == 24))
            else if kind == 143 || kind == 206 then msg == Some(Mld2Report(i, data))
            else if kind == 131 && |data| >= 24 then msg == Some(Mld1Report(i, ReadAddr(data, 8)))
            else if kind == 132 && |data| >= 24 then msg == Some(Mld1Reduction(i, ReadAddr(data, 8)))
            else msg == None
  {
    hide Decode, EncodePacket, ToBytes, ReadAddr, IsMulticast, IsLinkLocal;
    PacketReadBack(src, dst, hlim, exts, 58, data);
    ClassesByBytes(src);
    ClassesByBytes(dst);
  }
}
