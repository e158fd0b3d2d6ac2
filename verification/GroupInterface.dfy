/** The subscriptions of one interface in one group, as the linked list the daemon keeps. */
module GroupInterface {
  import opened Addresses
  import opened Database
  import opened LinkList
  import opened Reporting

  class Subscr {
    const ipv6: Addr
    var mode: nat
    var refreshtime: int

    constructor (ipv6: Addr, mode: nat, now: int)
      ensures View() == Sub(ipv6, mode, now)
    {
      this.ipv6, this.mode, this.refreshtime := ipv6, mode, now;
    }

    ghost function View(): Sub
      reads this
    {
      Sub(ipv6, mode, refreshtime)
    }
  }

  lemma {:induction false} ExpireSubsEmpty(now: int)
    ensures ExpireSubs([], now) == []
  {
  }

  lemma {:induction false} ExpireSubsSnoc(subs: seq<Sub>, s: Sub, now: int)
    ensures ExpireSubs(subs + [s], now) == ExpireSubs(subs, now) + (if Stale(s, now) then [] else [s])
  {
    hide Stale;
    if subs == [] {
      assert subs + [s] == [s] && [s][1..] == [];
    } else {
      ExpireSubsSnoc(subs[1..], s, now);
      assert (subs + [s])[1..] == subs[1..] + [s] && (subs + [s])[0] == subs[0];
      hide ExpireSubs;
      var first := if Stale(subs[0], now) then [] else [subs[0]];
      var last := if Stale(s, now) then [] else [s];
      assert first + (ExpireSubs(subs[1..], now) + last) == first + ExpireSubs(subs[1..], now) + last;
    }
  }

  class GrpIntNode {
    const ifindex: nat
    const subscriptions: List<Subscr>
    ghost var view: GrpInt
    ghost var repr: set<object>

    /** The objects reachable from here are in `repr`. */
    ghost predicate Owns()
      reads this, subscriptions
    {
      && this in repr && subscriptions in repr && subscriptions.spine <= repr
      && this !in subscriptions.spine
      && forall s | s in subscriptions.contents :: s in repr && s !in subscriptions.spine
    }

    /** `view` is the value of the list, payload by payload. */
    ghost predicate Shows()
      reads this, subscriptions, subscriptions.contents
    {
      && view.ifindex == ifindex
      && view.count == subscriptions.count
      && |view.subs| == |subscriptions.contents|
      && forall k | 0 <= k < |view.subs| :: subscriptions.contents[k].View() == view.subs[k]
    }

    ghost predicate Valid()
      reads this, repr
    {
      this in repr && subscriptions in repr &&
      Owns() && subscriptions.Valid() && Distinct(subscriptions.contents) && Shows()
    }

    /** grpint_create */
    constructor (ifindex: nat)
      ensures Valid() && fresh(repr) && this in repr && view == GrpInt(ifindex, [], 0)
    {
      this.ifindex := ifindex;
      this.subscriptions := new List();
      this.view := GrpInt(ifindex, [], 0);
      new;
      repr := {this} + subscriptions.spine;
    }

    /** subscr_find */
    method Find(src: Addr) returns (node: Node?<Subscr>, ghost k: nat)
      requires Valid()
      ensures k == FindSub(view.subs, src)
      ensures node == At(subscriptions.nodes, k)
      ensures node == null <==> k == |view.subs|
      ensures node != null ==> node.data == subscriptions.contents[k]
    {
      hide FindSub, Distinct, List.Valid;
      k := 0;
      subscriptions.Position(0);
      node := subscriptions.head;
      while node != null
        invariant k <= |view.subs| == |subscriptions.nodes| && node == At(subscriptions.nodes, k)
        invariant forall j | 0 <= j < k :: view.subs[j].src != src
        decreases |view.subs| - k
      {
        subscriptions.Position(k);
        if node.data.ipv6 == src {
          return;
        }
        node := node.next;
        k := k + 1;
      }
    }

    /** The innermost walk of mld2_send_report. */
    method Included() returns (srcs: seq<Addr>)
      requires Valid()
      ensures srcs == IncludedSources(view.subs)
    {
      hide IncludedSources, Distinct, List.Valid;
      srcs := [];
      ghost var k := 0;
      subscriptions.Position(0);
      var node := subscriptions.head;
      IncludedSnoc([], Sub(ANY, INCLUDE, 0));
      while node != null
        invariant k <= |view.subs| == |subscriptions.nodes| && node == At(subscriptions.nodes, k)
        invariant srcs == IncludedSources(view.subs[..k])
        decreases |view.subs| - k
      {
        subscriptions.Position(k);
        IncludedSnoc(view.subs[..k], view.subs[k]);
        assert view.subs[..k + 1] == view.subs[..k] + [view.subs[k]];
        if node.data.mode != EXCLUDE {
          srcs := srcs + [node.data.ipv6];
        }
        node := node.next;
        k := k + 1;
      }
      assert view.subs[..k] == view.subs;
    }

    /** grpint_refresh */
    method Refresh(src: Addr, mode: nat, now: int)
      requires Valid()
      modifies repr
      ensures Valid() && fresh(repr - old(repr)) && old(repr) <= repr
      ensures view == Database.Refresh(old(view), src, mode, now)
    {
      hide FindSub, Distinct, List.Valid;
      var node, k := Find(src);
      if mode == EXCLUDE && src == ANY {
        return;
      }
      if node == null {
        Append(src, mode, now);
      } else {
        Touch(node.data, k, mode, now);
      }
    }

    /** subscr_create and listnode_add */
    method Append(src: Addr, mode: nat, now: int)
      requires Valid()
      modifies this, subscriptions, subscriptions.spine
      ensures Valid() && fresh(repr - old(repr)) && old(repr) <= repr
      ensures view == old(view).(subs := old(view).subs + [Sub(src, mode, now)],
                                 count := (if old(view).count < 0 then 0 else old(view).count) + 1)
    {
      hide List.Valid, Distinct;
      var s := new Subscr(src, mode, now);
      DistinctSnoc(subscriptions.contents, s);
      subscriptions.Add(s);
      repr := repr + {s} + subscriptions.spine;
      view := view.(subs := view.subs + [s.View()], count := subscriptions.count);
    }

    /** The mode and time update of a subscription already in the list. */
    method Touch(s: Subscr, ghost k: nat, mode: nat, now: int)
      requires Valid() && k < |subscriptions.contents| && subscriptions.contents[k] == s
      modifies this, s
      ensures Valid() && repr == old(repr)
      ensures view == old(view).(subs := old(view).subs[k := Sub(s.ipv6, mode, now)])
    {
      hide List.Valid;
      if mode != s.mode {
        s.mode := mode;
      }
      s.refreshtime := now;
      view := view.(subs := view.subs[k := s.View()]);
    }

    /** subscr_unsub on `::`; a list this empties is marked for deletion. */
    method Unsubscribe() returns (emptied: bool)
      requires Valid()
      modifies repr
      ensures Valid() && repr == old(repr)
      ensures view == Database.Unsubscribe(old(view))
      ensures emptied <==> Empties(old(view))
    {
      hide FindSub, List.Valid, Distinct;
      var node, k := Find(ANY);
      if node == null {
        return false;
      }
      WithoutDistinct(subscriptions.contents, k);
      subscriptions.DeleteNode(node, k);
      emptied := subscriptions.count <= 0;
      if emptied {
        subscriptions.SetCount(-ROBUSTNESS_FACTOR);
      }
      view := view.(subs := view.subs[..k] + view.subs[k + 1..], count := subscriptions.count);
    }

    /** The innermost loop of timeout: deletes the stale subscriptions while walking. */
    method Expire(now: int)
      requires Valid()
      modifies repr
      ensures Valid() && repr == old(repr)
      ensures view == ExpireInt(old(view), now)
    {
      hide List.Valid, List.Walking, Distinct, ExpireSubs;
      ghost var subs := view.subs;
      ghost var keptSubs: seq<Sub> := [];
      ghost var w := subscriptions.Begin();
      ExpireSubsEmpty(now);
      var next := subscriptions.head;
      while next != null
        invariant subscriptions.Walking(w) && subscriptions.spine == old(subscriptions.spine)
        invariant w.orig == old(subscriptions.nodes) && w.objs == old(subscriptions.contents)
        invariant w.k <= |w.orig| == |subs| && next == At(w.orig, w.k)
        invariant subscriptions.count == old(subscriptions.count) - (w.k - |keptSubs|)
        invariant keptSubs == ExpireSubs(subs[..w.k], now)
        invariant forall x | x in w.kept :: x in w.objs
        invariant forall j | 0 <= j < |w.objs| :: w.objs[j].View() == subs[j]
        invariant |w.kept| == |keptSubs| && forall j | 0 <= j < |w.kept| :: w.kept[j].View() == keptSubs[j]
        decreases |w.orig| - w.k
        modifies subscriptions, subscriptions.spine
      {
        var node := next;
        subscriptions.Current(w);
        next := node.next;
        var age := now - node.data.refreshtime;
        if age < 0 {
          age := -age;
        }
        ExpireSubsSnoc(subs[..w.k], subs[w.k], now);
        assert subs[..w.k + 1] == subs[..w.k] + [subs[w.k]];
        if age > SUBSCRIPTION_TIMEOUT * ROBUSTNESS_FACTOR {
          subscriptions.DeleteCurrent(node, w);
          w := w.Dropped();
        } else {
          keptSubs := keptSubs + [subs[w.k]];
          w := w.Kept();
        }
      }
      subscriptions.Finish(w);
      assert subs[..w.k] == subs;
      view := view.(subs := keptSubs, count := subscriptions.count);
    }

    /** grpint_destroy */
    method Destroy()
      requires Valid()
      modifies repr
      ensures Valid() && repr == old(repr) && view == GrpInt(old(view).ifindex, [], 0)
    {
      hide Distinct;
      var _ := subscriptions.DeleteAll();
      DistinctEmpty<Subscr>();
      view := view.(subs := [], count := 0);
    }

    lemma {:induction false} IndexShown()
      requires Valid()
      ensures view.ifindex == ifindex
    {
    }

    lemma {:induction false} CountShown()
      requires Valid()
      ensures view.count == subscriptions.count
    {
    }
  }
}
