/** The forwarder's two nested walks over the linked lists, with sends that may destroy the
    interface they are made on. */
module Forwarder {
  import opened Addresses
  import opened Database
  import opened Forwarding
  import opened LinkList
  import opened GroupInterface
  import opened Groups
  import opened Hub
  import opened Interfaces
  import Invariant

  /** The inner walk: sends at most one copy on the interface of `gi`. */
  method Serve(gi: GrpIntNode, table: IntTable, src: Addr, result: nat -> SendResult) returns (sent: bool)
    requires gi.Valid() && table.Valid() && table.ints !in gi.repr
    modifies table.ints
    ensures table.Valid()
    ensures sent <==> gi.ifindex in old(table.Live()) && Wants(gi.view.subs, src)
    ensures table.Live() ==
            old(table.Live()) - (if sent then Gone([gi.ifindex], result) else {})
  {
    hide Distinct, List.Valid, LiveOf;
    var list := gi.subscriptions;
    list.Position(0);
    var node := list.head;
    ghost var k := 0;
    while node != null
      invariant k <= |gi.view.subs| == |list.nodes| && node == At(list.nodes, k)
      invariant gi.ifindex in table.Live() ==> forall j | 0 <= j < k :: !Matches(gi.view.subs[j], src)
      invariant table.Valid() && table.Live() == old(table.Live()) && gi.Valid()
      decreases |gi.view.subs| - k
      modifies table.ints
    {
      list.Position(k);
      var s := node.data;
      assert s.View() == gi.view.subs[k];
      if (s.ipv6 == ANY || s.ipv6 == src) && s.mode == INCLUDE {
        var found := table.Find(gi.ifindex);
        if found {
          table.Send(gi.ifindex, result(gi.ifindex));
          assert Gone([gi.ifindex], result) == if result(gi.ifindex).NoDevice? then {gi.ifindex} else {};
          return true;
        }
      }
      node := node.next;
      k := k + 1;
    }
    sent := false;
  }

  /** The outer walk over the interfaces of the group. */
  method ServeGroup(g: GroupNode, table: IntTable, arrival: nat, src: Addr, result: nat -> SendResult, now: int)
    returns (sent: seq<nat>)
    requires g.Valid() && table.Valid() && table.ints !in g.repr && table !in g.repr
    requires Invariant.IntsOk(g.view.ints, now)
    modifies table.ints
    ensures table.Valid()
    ensures sent == Targets(g.view.ints, arrival, src, old(table.Live()).Keys)
    ensures table.Live() == old(table.Live()) - Gone(sent, result)
  {
    hide Distinct, List.Valid, LiveOf, GrpIntNode.Valid, Targets, TableOk, Invariant.IntsOk;
    ghost var live := table.Live().Keys;
    var list := g.interfaces;
    ghost var ints := g.view.ints;
    list.Position(0);
    var node := list.head;
    ghost var k := 0;
    sent := [];
    TargetsEmpty(arrival, src, live);
    while node != null
      invariant k <= |ints| == |list.nodes| && node == At(list.nodes, k)
      invariant table.Valid() && g.Valid()
      invariant sent == Targets(ints[..k], arrival, src, live)
      invariant table.Live() == old(table.Live()) - Gone(sent, result)
      decreases |ints| - k
      modifies table.ints
    {
      list.Position(k);
      var gi := node.data;
      assert gi in list.contents;
      gi.IndexShown();
      TargetsSnoc(ints[..k], ints[k], arrival, src, live);
      assert ints[..k + 1] == ints[..k] + [ints[k]];
      NotYet(ints, k, arrival, src, live, now);
      if arrival != gi.ifindex {
        var did := Serve(gi, table, src, result);
        if did {
          GoneSnoc(sent, gi.ifindex, result);
          sent := sent + [gi.ifindex];
        }
      }
      node := node.next;
      k := k + 1;
    }
    assert ints[..k] == ints;
  }

  /** Entries are for different interfaces, so each one comes up once. */
  lemma {:induction false} NotYet(ints: seq<GrpInt>, k: nat, arrival: nat, src: Addr, live: set<nat>, now: int)
    requires Invariant.IntsOk(ints, now) && k < |ints|
    ensures ints[k].ifindex !in Targets(ints[..k], arrival, src, live)
  {
    hide Targets, Invariant.IntOk, SendsTo;
    TargetsExact(ints[..k], arrival, src, live, now);
  }

  lemma {:induction false} TargetsEmpty(arrival: nat, src: Addr, live: set<nat>)
    ensures Targets([], arrival, src, live) == []
  {
  }

  /** l4_ipv6_multicast: whatever the sends report, the copies are those of `Forward` on the
      interfaces live at the start, and only an interface a copy was sent on can disappear. */
  method Multicast(conf: Conf, table: IntTable, arrival: nat, src: Addr, dst: Addr,
                   result: nat -> SendResult, now: int) returns (sent: seq<nat>)
    requires conf.Valid() && table.Valid() && table.ints !in conf.repr && table !in conf.repr
    requires Invariant.Inv(conf.view, now)
    modifies table.ints
    ensures table.Valid()
    ensures sent == Forward(conf.view, arrival, src, dst, old(table.Live()).Keys)
    ensures table.Live() == old(table.Live()) - Gone(sent, result)
  {
    hide LiveOf, Targets, FindGroup, GroupNode.Valid, List.Valid, Distinct;
    if IsMulticast(src) || src == ANY || dst == ANY || IsLinkLocal(src) || IsMcNodeLocal(dst) || IsMcLinkLocal(dst) {
      return [];
    }
    var node, k := conf.Find(dst);
    if node == null {
      return [];
    }
    assert node.data in conf.groups.contents;
    assert Invariant.GroupOk(conf.view[k], now);
    sent := ServeGroup(node.data, table, arrival, src, result, now);
  }
}
