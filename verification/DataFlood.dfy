/** Data packets in a network of hubs: the hop limit makes every flood finite, loops or not. */
module DataFlood {
  import opened Addresses
  import opened Database
  import opened Invariant
  import opened Forwarding

  // ----- the hop limit on the way in

  /** What the payload of a packet for a multicast destination is. */
  datatype Body = EchoRequest | MldMessage | OtherIcmp | NotIcmp

  datatype Packet = Packet(src: Addr, dst: Addr, hlim: Byte, body: Body)

  datatype Action =
    | Ignore
    | HopLimitExceeded(reply: bool)
    | Mld
    | Route(hlim: Byte)

  /** The paths through l3_ipv6 and l4_ipv6_icmpv6; `own` holds the arrival interface's addresses. */
  function Dispatch(p: Packet, own: set<Addr>): Action {
    if !IsMulticast(p.dst) || p.src in own then Ignore
    else
      match p.body
      case OtherIcmp => Ignore
      case MldMessage => if IsLinkLocal(p.src) then Mld else Ignore
      case EchoRequest =>
        var hlim: Byte := if p.hlim > 0 then p.hlim - 1 else p.hlim;
        if hlim == 0 then HopLimitExceeded(true) else Route(hlim)
      case NotIcmp =>
        var hlim: Byte := if p.hlim > 0 then p.hlim - 1 else p.hlim;
        if hlim == 0 then HopLimitExceeded(false) else Route(hlim)
  }

  /** On either path a packet goes on with a hop limit one less, never 0. */
  lemma {:induction false} RouteFalls(p: Packet, own: set<Addr>)
    requires Dispatch(p, own).Route?
    ensures 1 <= Dispatch(p, own).hlim == p.hlim - 1
  {
  }

  /** The hop limit has run out exactly for a foreign packet to a multicast destination that arrives with
      0 or 1, an echo request or no ICMPv6 at all; only the echo request is answered. */
  lemma {:induction false} ExceededExactly(p: Packet, own: set<Addr>)
    ensures Dispatch(p, own).HopLimitExceeded? <==>
            IsMulticast(p.dst) && p.src !in own && p.hlim <= 1 && (p.body.EchoRequest? || p.body.NotIcmp?)
    ensures Dispatch(p, own).HopLimitExceeded? ==> (Dispatch(p, own).reply <==> p.body.EchoRequest?)
  {
  }

  // ----- a network of hubs

  /** A copy on its way to interface `at` of hub `hub`. */
  datatype Copy = Copy(hub: nat, at: nat, packet: Packet)

  /** The attachments that hear what a hub sends on one of its interfaces. */
  type Links = (nat, nat) -> seq<(nat, nat)>

  function CopiesTo(to: seq<(nat, nat)>, p: Packet): (r: seq<Copy>)
    ensures |r| == |to| && forall k | 0 <= k < |r| :: r[k].packet == p
  {
    if to == [] then [] else [Copy(to[0].0, to[0].1, p)] + CopiesTo(to[1..], p)
  }

  function SendOn(links: Links, hub: nat, ifs: seq<nat>, p: Packet): seq<Copy> {
    if ifs == [] then [] else CopiesTo(links(hub, ifs[0]), p) + SendOn(links, hub, ifs[1..], p)
  }

  /** The state a hub happens to be in when a copy arrives. */
  datatype HubState = HubState(db: DB, live: set<nat>, own: set<Addr>)

  /** The copies one arrival leads to. */
  function Outputs(links: Links, hub: HubState, c: Copy): seq<Copy> {
    match Dispatch(c.packet, hub.own)
    case Route(hlim) =>
      SendOn(links, c.hub, Forward(hub.db, c.at, c.packet.src, c.packet.dst, hub.live), c.packet.(hlim := hlim))
    case _ => []
  }

  /** Every hub has at most `ports` live interfaces and every link at most `width` other ends. */
  ghost predicate LinksOk(links: Links, width: nat) {
    forall hub, i :: |links(hub, i)| <= width
  }

  ghost predicate HubOk(hub: HubState, ports: nat, now: int) {
    Inv(hub.db, now) && |hub.live| <= ports
  }

  lemma {:induction false} SendOnBound(links: Links, hub: nat, ifs: seq<nat>, p: Packet, width: nat)
    requires LinksOk(links, width)
    ensures var r := SendOn(links, hub, ifs, p);
            |r| <= |ifs| * width && forall k | 0 <= k < |r| :: r[k].packet == p
  {
    if ifs != [] {
      SendOnBound(links, hub, ifs[1..], p, width);
      assert |ifs| * width == (|ifs| - 1) * width + width;
    }
  }

  lemma {:induction false} DistinctBound(s: seq<nat>, live: set<nat>)
    requires (forall a, b | 0 <= a < b < |s| :: s[a] != s[b]) && forall i | i in s :: i in live
    ensures |s| <= |live|
    decreases |s|
  {
    if s != [] {
      var n := |s| - 1;
      assert s[n] in s;
      assert forall i | i in s[..n] :: i in s;
      DistinctBound(s[..n], live - {s[n]});
    }
  }

  lemma {:induction false} MulMono(a: nat, b: nat, c: nat)
    requires a <= b
    ensures a * c <= b * c
  {
  }

  lemma {:induction false} OutputsBound(links: Links, hub: HubState, c: Copy, ports: nat, width: nat, now: int)
    requires LinksOk(links, width) && HubOk(hub, ports, now)
    ensures var r := Outputs(links, hub, c);
            && |r| <= ports * width
            && forall k | 0 <= k < |r| :: 1 <= r[k].packet.hlim == c.packet.hlim - 1
  {
    hide Inv, Forward, Lookup, Dispatch, SendOn, LinksOk;
    var a := Dispatch(c.packet, hub.own);
    if a.Route? {
      RouteFalls(c.packet, hub.own);
      var ifs := Forward(hub.db, c.at, c.packet.src, c.packet.dst, hub.live);
      ForwardExact(hub.db, c.at, c.packet.src, c.packet.dst, hub.live, now);
      DistinctBound(ifs, hub.live);
      SendOnBound(links, c.hub, ifs, c.packet.(hlim := a.hlim), width);
      MulMono(|ifs|, ports, width);
    }
  }

  /** An upper bound on the arrivals one copy with this hop limit can lead to, itself included. */
  function Weight(hlim: nat, d: nat): (w: nat)
    ensures w >= 1
  {
    if hlim <= 1 then 1 else 1 + d * Weight(hlim - 1, d)
  }

  function Total(flight: seq<Copy>, d: nat): nat {
    if flight == [] then 0 else Weight(flight[0].packet.hlim, d) + Total(flight[1..], d)
  }

  lemma {:induction false} TotalAppend(a: seq<Copy>, b: seq<Copy>, d: nat)
    ensures Total(a + b, d) == Total(a, d) + Total(b, d)
  {
    if a == [] {
      assert a + b == b;
    } else {
      assert (a + b)[1..] == a[1..] + b;
      TotalAppend(a[1..], b, d);
    }
  }

  lemma {:induction false} TotalEqual(out: seq<Copy>, hlim: nat, d: nat)
    requires forall k | 0 <= k < |out| :: out[k].packet.hlim == hlim
    ensures Total(out, d) == |out| * Weight(hlim, d)
  {
    if out != [] {
      TotalEqual(out[1..], hlim, d);
      assert |out| * Weight(hlim, d) == (|out| - 1) * Weight(hlim, d) + Weight(hlim, d);
    }
  }

  /** Copy `k` arrives at its hub, which is then in state `hub`. */
  datatype Arrival = Arrival(k: nat, hub: HubState)

  function Next(links: Links, flight: seq<Copy>, a: Arrival): seq<Copy> {
    if a.k < |flight| then flight[..a.k] + flight[a.k + 1..] + Outputs(links, a.hub, flight[a.k]) else flight
  }

  lemma {:induction false} ArrivalFalls(links: Links, flight: seq<Copy>, a: Arrival, ports: nat, width: nat, now: int)
    requires LinksOk(links, width) && HubOk(a.hub, ports, now) && a.k < |flight|
    ensures Total(Next(links, flight, a), ports * width) < Total(flight, ports * width)
  {
    hide Outputs, HubOk, LinksOk, Total, Weight;
    var d, c := ports * width, flight[a.k];
    var out := Outputs(links, a.hub, c);
    var l, r := flight[..a.k], flight[a.k + 1..];
    OutputsBound(links, a.hub, c, ports, width, now);
    assert flight == l + ([c] + r);
    TotalAppend(l, [c] + r, d);
    TotalCons(c, r, d);
    TotalAppend(l, r, d);
    TotalAppend(l + r, out, d);
    OutWeighsLess(c, out, d);
  }

  lemma {:induction false} TotalCons(c: Copy, r: seq<Copy>, d: nat)
    ensures Total([c] + r, d) == Weight(c.packet.hlim, d) + Total(r, d)
  {
    assert ([c] + r)[1..] == r;
  }

  lemma {:induction false} OutWeighsLess(c: Copy, out: seq<Copy>, d: nat)
    requires |out| <= d && forall k | 0 <= k < |out| :: 1 <= out[k].packet.hlim == c.packet.hlim - 1
    ensures Total(out, d) < Weight(c.packet.hlim, d)
  {
    if out != [] {
      var h := c.packet.hlim - 1;
      assert out[0].packet.hlim == h;
      TotalEqual(out, h, d);
      MulMono(|out|, d, Weight(h, d));
    }
  }

  ghost predicate Legal(links: Links, flight: seq<Copy>, arrivals: seq<Arrival>, ports: nat, now: int)
    decreases |arrivals|
  {
    arrivals != [] ==>
      && arrivals[0].k < |flight| && HubOk(arrivals[0].hub, ports, now)
      && Legal(links, Next(links, flight, arrivals[0]), arrivals[1..], ports, now)
  }

  /** Flooding stops: in any network, cyclic or not, with hubs in any states, the arrivals one
      packet leads to are bounded by its hop limit and the size of the links. */
  lemma {:induction false} FloodStops(links: Links, flight: seq<Copy>, arrivals: seq<Arrival>, ports: nat, width: nat,
                                      now: int)
    requires LinksOk(links, width) && Legal(links, flight, arrivals, ports, now)
    ensures |arrivals| <= Total(flight, ports * width)
    decreases |arrivals|
  {
    hide HubOk, LinksOk, Next;
    if arrivals != [] {
      ArrivalFalls(links, flight, arrivals[0], ports, width, now);
      FloodStops(links, Next(links, flight, arrivals[0]), arrivals[1..], ports, width, now);
    }
  }

  /** Each copy of the chain is one of the outputs its predecessor led to. */
  ghost predicate Chain(links: Links, copies: seq<Copy>, hubs: seq<HubState>) {
    |hubs| == |copies| &&
    forall k | 0 <= k < |copies| - 1 :: copies[k + 1] in Outputs(links, hubs[k], copies[k])
  }

  /** A chain of copies that starts with hop limit h is forwarded fewer than h times. */
  lemma {:induction false} ChainFalls(links: Links, copies: seq<Copy>, hubs: seq<HubState>, ports: nat, width: nat,
                                      now: int)
    requires LinksOk(links, width) && Chain(links, copies, hubs) && copies != []
    requires forall k | 0 <= k < |hubs| :: HubOk(hubs[k], ports, now)
    ensures copies[|copies| - 1].packet.hlim == copies[0].packet.hlim - (|copies| - 1)
    ensures |copies| > 1 ==> |copies| - 1 < copies[0].packet.hlim
  {
    hide Outputs, HubOk, LinksOk;
    var n := |copies| - 1;
    if n > 0 {
      assert forall k | 0 <= k < n :: copies[..n][k] == copies[k] && hubs[..n][k] == hubs[k];
      ChainFalls(links, copies[..n], hubs[..n], ports, width, now);
      OutputsBound(links, hubs[n - 1], copies[n - 1], ports, width, now);
      assert copies[n - 1 + 1] in Outputs(links, hubs[n - 1], copies[n - 1]);
    }
  }
}
