/** One group: the linked list of the interfaces that joined it. */
module Groups {
  import opened Addresses
  import opened Database
  import opened LinkList
  import opened GroupInterface
  import opened Reporting

  lemma {:induction false} ExpireIntsEmpty(now: int)
    ensures ExpireInts([], now) == []
  {
  }

  function ExpiredInt(gi: GrpInt, now: int): seq<GrpInt> {
    if ExpireInt(gi, now).count <= -ROBUSTNESS_FACTOR then [] else [ExpireInt(gi, now)]
  }

  lemma {:induction false} ExpireIntsSnoc(ints: seq<GrpInt>, gi: GrpInt, now: int)
    ensures ExpireInts(ints + [gi], now) == ExpireInts(ints, now) + ExpiredInt(gi, now)
  {
    hide ExpireInt;
    if ints == [] {
      assert ints + [gi] == [gi] && [gi][1..] == [];
    } else {
      ExpireIntsSnoc(ints[1..], gi, now);
      assert (ints + [gi])[1..] == ints[1..] + [gi] && (ints + [gi])[0] == ints[0];
      hide ExpireInts;
      var first, last := ExpiredInt(ints[0], now), ExpiredInt(gi, now);
      assert first + (ExpireInts(ints[1..], now) + last) == first + ExpireInts(ints[1..], now) + last;
    }
  }

  /** What a report does to its group. */
  function JoinInts(ints: seq<GrpInt>, ifindex: nat, writes: seq<Write>, now: int): seq<GrpInt> {
    var ints1 := WithInt(ints, ifindex);
    var k := FindInt(ints, ifindex);
    ints1[k := RefreshAll(ints1[k], writes, now)]
  }

  /** What a reduction does to its group. */
  function LeaveInts(ints: seq<GrpInt>, ifindex: nat): seq<GrpInt> {
    var k := FindInt(ints, ifindex);
    if k == |ints| then ints else ints[k := Unsubscribe(ints[k])]
  }

  lemma {:induction false} RefreshAllSnoc(gi: GrpInt, writes: seq<Write>, w: Write, now: int)
    ensures RefreshAll(gi, writes + [w], now) == Refresh(RefreshAll(gi, writes, now), w.src, w.mode, now)
    decreases |writes|
  {
    hide Refresh;
    if writes == [] {
      assert writes + [w] == [w] && [w][1..] == [];
    } else {
      assert (writes + [w])[1..] == writes[1..] + [w];
      RefreshAllSnoc(Refresh(gi, writes[0].src, writes[0].mode, now), writes[1..], w, now);
    }
  }

  class GroupNode {
    const mca: Addr
    const interfaces: List<GrpIntNode>
    var lastforward: int
    ghost var view: Group
    ghost var repr: set<object>

    /** Each entry is well formed and lies in a part of `repr` of its own, apart from the list. */
    ghost predicate Separate(objs: seq<GrpIntNode>)
      reads this, interfaces, repr
    {
      && (forall x | x in objs :: x in repr)
      && (forall x | x in objs ::
            x in x.repr && x.repr <= repr && x.repr !! interfaces.spine && this !in x.repr && x.Valid())
      && (forall x, y | x in objs && y in objs && x != y :: x.repr !! y.repr)
    }

    ghost predicate Owns()
      reads this, interfaces
    {
      this in repr && interfaces in interfaces.spine && interfaces.spine <= repr && this !in interfaces.spine
    }

    ghost predicate Shows()
      reads this, interfaces, interfaces.contents
    {
      && view.mca == mca && view.lastForward == lastforward
      && |view.ints| == |interfaces.contents|
      && forall k | 0 <= k < |view.ints| :: interfaces.contents[k].view == view.ints[k]
    }

    ghost predicate Valid()
      reads this, repr
    {
      && this in repr && interfaces in repr
      && Owns() && interfaces.Valid() && Distinct(interfaces.contents)
      && Separate(interfaces.contents)
      && interfaces.count == |interfaces.contents|
      && Shows()
    }

    /** Entry `k` shares nothing with the others. */
    lemma {:induction false} Apart(k: nat)
      requires Separate(interfaces.contents) && Distinct(interfaces.contents) && k < |interfaces.contents|
      ensures var x := interfaces.contents[k];
              && x in interfaces.contents && x !in interfaces.contents[..k]
              && forall j | 0 <= j < |interfaces.contents| && j != k ::
                   interfaces.contents[j] != x && interfaces.contents[j] !in x.repr
    {
      DistinctAt(interfaces.contents, k);
      forall j | 0 <= j < |interfaces.contents| && j != k
        ensures interfaces.contents[j] !in interfaces.contents[k].repr
      {
        var x, y := interfaces.contents[j], interfaces.contents[k];
        assert x in interfaces.contents && y in interfaces.contents && x.repr !! y.repr;
      }
    }

    /** group_create, with the time groupint_get then sets */
    constructor (mca: Addr, now: int)
      ensures Valid() && fresh(repr) && this in repr && view == Group(mca, [], now)
    {
      this.mca := mca;
      this.interfaces := new List();
      this.lastforward := now;
      this.view := Group(mca, [], now);
      new;
      repr := {this} + interfaces.spine;
    }

    /** grpint_find */
    method Find(ifindex: nat) returns (node: Node?<GrpIntNode>, ghost k: nat)
      requires Valid()
      ensures k == FindInt(view.ints, ifindex)
      ensures node == null <==> k == |view.ints|
      ensures node != null ==> node.data == interfaces.contents[k]
    {
      hide FindInt, Distinct, List.Valid;
      k := 0;
      interfaces.Position(0);
      node := interfaces.head;
      while node != null
        invariant k <= |view.ints| == |interfaces.nodes| && node == At(interfaces.nodes, k)
        invariant forall j | 0 <= j < k :: view.ints[j].ifindex != ifindex
        decreases |view.ints| - k
      {
        interfaces.Position(k);
        assert interfaces.contents[k].Valid();
        if node.data.ifindex == ifindex {
          return;
        }
        node := node.next;
        k := k + 1;
      }
    }

    /** grpint_create and listnode_add */
    method Append(ifindex: nat) returns (gi: GrpIntNode)
      requires Valid()
      modifies this, interfaces, interfaces.spine
      ensures Valid() && fresh(repr - old(repr)) && old(repr) <= repr
      ensures interfaces.contents == old(interfaces.contents) + [gi]
      ensures view == old(view).(ints := old(view).ints + [GrpInt(ifindex, [], 0)])
    {
      hide List.Valid, GrpIntNode.Valid, Distinct;
      gi := new GrpIntNode(ifindex);
      ghost var before := interfaces.contents;
      interfaces.Add(gi);
      DistinctSnoc(before, gi);
      repr := repr + gi.repr + interfaces.spine;
      SeparateSnoc(before, gi);
      assert forall k | 0 <= k < |before| :: interfaces.contents[k] == before[k] && before[k] in before;
      ShowInts(view.ints + [gi.view]);
    }

    lemma {:induction false} SeparateSnoc(objs: seq<GrpIntNode>, gi: GrpIntNode)
      requires Separate(objs)
      requires gi in gi.repr && gi.repr <= repr && gi.repr !! interfaces.spine && this !in gi.repr && gi.Valid()
      requires forall x | x in objs :: x.repr !! gi.repr
      ensures Separate(objs + [gi])
    {
      hide GrpIntNode.Valid;
    }

    /** The interface half of groupint_get. */
    method GetInt(ifindex: nat) returns (gi: GrpIntNode, ghost k: nat)
      requires Valid()
      modifies repr
      ensures Valid() && fresh(repr - old(repr)) && old(repr) <= repr
      ensures view == old(view).(ints := WithInt(old(view).ints, ifindex))
      ensures k == FindInt(old(view).ints, ifindex) && k < |interfaces.contents| && gi == interfaces.contents[k]
    {
      hide FindInt, Distinct, List.Valid;
      var node;
      node, k := Find(ifindex);
      if node == null {
        gi := Append(ifindex);
      } else {
        gi := node.data;
      }
    }

    /** An update of one entry leaves the other entries and the list as they were. */
    method RefreshInt(gi: GrpIntNode, ghost k: nat, src: Addr, mode: nat, now: int)
      requires Valid() && k < |interfaces.contents| && gi == interfaces.contents[k]
      modifies repr
      ensures Valid() && fresh(repr - old(repr)) && old(repr) <= repr
      ensures interfaces.contents == old(interfaces.contents)
      ensures view == old(view).(ints := old(view).ints[k := Database.Refresh(old(view).ints[k], src, mode, now)])
    {
      hide Database.Refresh, List.Valid, GrpIntNode.Valid, Distinct;
      Apart(k);
      gi.Refresh(src, mode, now);
      repr := repr + gi.repr;
      view := view.(ints := view.ints[k := gi.view]);
    }

    method UnsubscribeInt(gi: GrpIntNode, ghost k: nat) returns (emptied: bool)
      requires Valid() && k < |interfaces.contents| && gi == interfaces.contents[k]
      modifies repr
      ensures Valid() && repr == old(repr)
      ensures emptied <==> Empties(old(view).ints[k])
      ensures view == old(view).(ints := old(view).ints[k := Database.Unsubscribe(old(view).ints[k])])
    {
      hide Database.Unsubscribe, Empties, List.Valid, GrpIntNode.Valid, Distinct;
      Apart(k);
      emptied := gi.Unsubscribe();
      view := view.(ints := view.ints[k := gi.view]);
    }

    /** The rest of groupint_get, and a grpint_refresh for each source named. */
    method Join(ifindex: nat, writes: seq<Write>, now: int)
      requires Valid()
      modifies repr
      ensures Valid() && fresh(repr - old(repr)) && old(repr) <= repr
      ensures view == Group(mca, JoinInts(old(view).ints, ifindex, writes, now), now)
    {
      hide Refresh, RefreshAll, Valid, FindInt, WithInt;
      SetForwarded(now);
      ghost var before := view.ints;
      var gi, k := GetInt(ifindex);
      ghost var ints := view.ints;
      InRange(k);
      RefreshAllEmpty(ints[k], now);
      for n := 0 to |writes|
        invariant Valid() && fresh(repr - old(repr)) && old(repr) <= repr
        invariant k < |interfaces.contents| && gi == interfaces.contents[k]
        invariant view == Group(mca, ints[k := RefreshAll(ints[k], writes[..n], now)], now)
      {
        RefreshAllSnoc(ints[k], writes[..n], writes[n], now);
        assert writes[..n + 1] == writes[..n] + [writes[n]];
        RefreshInt(gi, k, writes[n].src, writes[n].mode, now);
      }
      assert writes[..|writes|] == writes;
    }

    lemma {:induction false} InRange(k: nat)
      requires Valid() && k < |interfaces.contents|
      ensures k < |view.ints| && view.mca == mca
    {
    }

    lemma {:induction false} RefreshAllEmpty(gi: GrpInt, now: int)
      ensures RefreshAll(gi, [], now) == gi
    {
    }

    lemma {:induction false} MatchesMca()
      requires Valid()
      ensures view.mca == mca
    {
    }

    lemma {:induction false} CountShown()
      requires Valid()
      ensures interfaces.count == |view.ints|
    {
    }

    /** group_destroy: the list is emptied, and every entry that was on it is destroyed in turn. */
    method Destroy()
      requires Valid()
      modifies repr
      ensures Valid() && repr == old(repr) && view == old(view).(ints := [])
      ensures forall x | x in old(interfaces.contents) :: x.Valid() && x.view.subs == []
    {
      hide Distinct, GrpIntNode.Valid, List.Valid;
      var dead := interfaces.DeleteAll();
      DistinctEmpty<GrpIntNode>();
      for k := 0 to |dead|
        invariant Owns() && interfaces.Valid() && interfaces.contents == [] && interfaces.count == 0
        invariant Separate(dead) && forall j | 0 <= j < k :: dead[j].view.subs == []
        invariant repr == old(repr) && view == old(view) && lastforward == old(lastforward)
        modifies repr - {this} - interfaces.spine
      {
        var gi := dead[k];
        assert gi in dead;
        assert forall x | x in dead && x != gi :: x.repr !! gi.repr;
        assert forall j | 0 <= j < k :: dead[j] in dead;
        gi.Destroy();
      }
      view := view.(ints := []);
    }

    method SetForwarded(now: int)
      requires Valid()
      modifies repr
      ensures Valid() && repr == old(repr) && view == old(view).(lastForward := now)
    {
      hide List.Valid, GrpIntNode.Valid, Distinct;
      lastforward := now;
      view := view.(lastForward := now);
    }

    /** The grpint_find and subscr_unsub of a reduction. */
    method Leave(ifindex: nat) returns (emptied: bool)
      requires Valid()
      modifies repr
      ensures Valid() && repr == old(repr)
      ensures view == old(view).(ints := LeaveInts(old(view).ints, ifindex))
      ensures var k := FindInt(old(view).ints, ifindex);
              emptied <==> k < |old(view).ints| && Empties(old(view).ints[k])
    {
      hide Unsubscribe, FindInt, Empties;
      emptied := false;
      var node, k := Find(ifindex);
      if node != null {
        emptied := UnsubscribeInt(node.data, k);
      }
    }

    /** The two inner walks of mld2_send_report: the sources to report on interface `out`. */
    method Reported(out: nat) returns (srcs: seq<Addr>)
      requires Valid()
      ensures srcs == ReportedSources(view.ints, out)
    {
      hide ReportedSources, IncludedSources, Distinct, List.Valid, GrpIntNode.Valid;
      srcs := [];
      ghost var k := 0;
      interfaces.Position(0);
      var node := interfaces.head;
      ReportedSnoc([], GrpInt(0, [], 0), out);
      while node != null
        invariant k <= |view.ints| == |interfaces.nodes| && node == At(interfaces.nodes, k)
        invariant srcs == ReportedSources(view.ints[..k], out)
        decreases |view.ints| - k
      {
        interfaces.Position(k);
        var gi := node.data;
        assert gi in interfaces.contents;
        gi.IndexShown();
        ReportedSnoc(view.ints[..k], view.ints[k], out);
        assert view.ints[..k + 1] == view.ints[..k] + [view.ints[k]];
        if gi.ifindex != out {
          var more := gi.Included();
          srcs := srcs + more;
        }
        node := node.next;
        k := k + 1;
      }
      assert view.ints[..k] == view.ints;
    }

    /** The inner walk of the answer to an MLDv1 query. */
    method Entries(i: nat) returns (mcas: seq<Addr>)
      requires Valid()
      ensures mcas == EntriesOf(view.ints, i, view.mca)
    {
      hide EntriesOf, Distinct, List.Valid, GrpIntNode.Valid;
      mcas := [];
      ghost var k := 0;
      interfaces.Position(0);
      var node := interfaces.head;
      EntriesSnoc([], GrpInt(0, [], 0), i, mca);
      while node != null
        invariant k <= |view.ints| == |interfaces.nodes| && node == At(interfaces.nodes, k)
        invariant mcas == EntriesOf(view.ints[..k], i, view.mca)
        decreases |view.ints| - k
      {
        interfaces.Position(k);
        var gi := node.data;
        assert gi in interfaces.contents;
        gi.IndexShown();
        EntriesSnoc(view.ints[..k], view.ints[k], i, view.mca);
        assert view.ints[..k + 1] == view.ints[..k] + [view.ints[k]];
        if gi.ifindex == i {
          mcas := mcas + [mca];
        }
        node := node.next;
        k := k + 1;
      }
      assert view.ints[..k] == view.ints;
    }

    /** The body of the middle loop of timeout, for the entry at the current node. */
    method ExpireOne(node: Node<GrpIntNode>, ghost w: Walk<GrpIntNode>, now: int) returns (gone: bool)
      requires Owns() && interfaces.Walking(w) && w.More() && node == w.orig[w.k]
      requires node.data == w.objs[w.k] && Separate(w.objs)
      modifies interfaces, interfaces.spine, node.data.repr
      ensures interfaces.spine == old(interfaces.spine) && Separate(w.objs)
      ensures forall x | x in w.objs :: x.repr == old(x.repr)
      ensures forall x | x in w.objs && x != node.data :: x.view == old(x.view)
      ensures gone <==> ExpireInt(old(node.data.view), now).count <= -ROBUSTNESS_FACTOR
      ensures gone ==> interfaces.Walking(w.Dropped()) && interfaces.count == old(interfaces.count) - 1
      ensures !gone ==> && interfaces.Walking(w) && interfaces.count == old(interfaces.count)
                        && node.data.view == ExpireInt(old(node.data.view), now)
    {
      hide List.Valid, List.Walking, GrpIntNode.Valid, Distinct, ExpireInt;
      var gi := node.data;
      assert gi in w.objs;
      assert forall x | x in w.objs && x != gi :: x.repr !! gi.repr;
      gi.Expire(now);
      gi.CountShown();
      gone := gi.subscriptions.count <= -ROBUSTNESS_FACTOR;
      if gone {
        interfaces.DeleteCurrent(node, w);
        gi.Destroy();
      }
    }

    /** The two inner loops of timeout: the entries passed and kept show their expired value, the
        entries still ahead show what they did at the start. */
    method Expire(now: int)
      requires Valid()
      modifies repr
      ensures Valid() && repr == old(repr)
      ensures view == old(view).(ints := ExpireInts(old(view).ints, now))
    {
      hide List.Valid, List.Walking, Separate, Distinct, ExpireInts, ExpireInt, GrpIntNode.Valid;
      ghost var ints := view.ints;
      ghost var keptInts: seq<GrpInt> := [];
      ghost var w := interfaces.Begin();
      ExpireIntsEmpty(now);
      var next := interfaces.head;
      while next != null
        invariant interfaces.Walking(w) && interfaces.spine == old(interfaces.spine)
        invariant w.orig == old(interfaces.nodes) && w.objs == old(interfaces.contents)
        invariant w.k <= |w.orig| == |w.objs| == |ints| && next == At(w.orig, w.k)
        invariant Separate(w.objs)
        invariant forall j | 0 <= j < |w.kept| :: w.kept[j] in w.objs[..w.k]
        invariant forall j | w.k <= j < |ints| :: w.objs[j].view == ints[j]
        invariant |w.kept| == |keptInts| && forall j | 0 <= j < |keptInts| :: w.kept[j].view == keptInts[j]
        invariant keptInts == ExpireInts(ints[..w.k], now)
        invariant interfaces.count == |ints| - (w.k - |w.kept|)
        decreases |w.orig| - w.k
        modifies repr - {this}
      {
        var node := next;
        interfaces.Current(w);
        next := node.next;
        ExpireIntsSnoc(ints[..w.k], ints[w.k], now);
        assert ints[..w.k + 1] == ints[..w.k] + [ints[w.k]];
        DistinctAt(w.objs, w.k);
        SeparateParts(w.objs, w.k);
        TakeMore(w.objs, w.k);
        var gone := ExpireOne(node, w, now);
        if gone {
          w := w.Dropped();
        } else {
          interfaces.Current(w);
          keptInts := keptInts + [node.data.view];
          w := w.Kept();
        }
      }
      interfaces.Finish(w);
      SeparateFewer(w.objs, interfaces.contents);
      assert ints[..w.k] == ints;
      ShowInts(keptInts);
    }

    ghost method ShowInts(ints: seq<GrpInt>)
      requires Owns() && interfaces in repr && interfaces.Valid() && Distinct(interfaces.contents)
      requires Separate(interfaces.contents) && interfaces.count == |interfaces.contents| == |ints|
      requires view.mca == mca && view.lastForward == lastforward
      requires forall k | 0 <= k < |ints| :: interfaces.contents[k].view == ints[k]
      modifies this`view
      ensures Valid() && view == old(view).(ints := ints)
    {
      hide List.Valid, GrpIntNode.Valid, Distinct;
      view := view.(ints := ints);
    }

    lemma {:induction false} SeparateParts(objs: seq<GrpIntNode>, k: nat)
      requires Separate(objs) && k < |objs|
      ensures objs[k].repr <= repr && this !in objs[k].repr
    {
      assert objs[k] in objs;
    }

    lemma {:induction false} SeparateFewer(objs: seq<GrpIntNode>, fewer: seq<GrpIntNode>)
      requires Separate(objs) && forall x | x in fewer :: x in objs
      ensures Separate(fewer)
    {
    }
  }
}
