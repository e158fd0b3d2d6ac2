/** The database on the heap: the list of groups, and the operations of the message handlers and
    of the timeout on it, each proved to make the step of `Database`. */
module Hub {
  import opened Addresses
  import opened Database
  import Invariant
  import opened LinkList
  import opened GroupInterface
  import opened Groups
  import opened Reporting

  lemma {:induction false} ExpireGroupsEmpty(now: int)
    ensures ExpireGroups([], now) == []
  {
  }

  function ExpiredGroup(g: Group, now: int): seq<Group> {
    var ints := ExpireInts(g.ints, now);
    if ints == [] then [] else [g.(ints := ints)]
  }

  lemma {:induction false} ExpireGroupsSnoc(db: DB, g: Group, now: int)
    ensures ExpireGroups(db + [g], now) == ExpireGroups(db, now) + ExpiredGroup(g, now)
  {
    hide ExpireInts;
    if db == [] {
      assert db + [g] == [g] && [g][1..] == [];
    } else {
      ExpireGroupsSnoc(db[1..], g, now);
      assert (db + [g])[1..] == db[1..] + [g] && (db + [g])[0] == db[0];
      hide ExpireGroups;
      var first, last := ExpiredGroup(db[0], now), ExpiredGroup(g, now);
      assert first + (ExpireGroups(db[1..], now) + last) == first + ExpireGroups(db[1..], now) + last;
    }
  }

  /** A report changes its own group only, or appends it. */
  lemma {:induction false} JoinStepAt(db: DB, mca: Addr, ifindex: nat, writes: seq<Write>, now: int)
    ensures var k := FindGroup(db, mca);
            JoinStep(db, mca, ifindex, writes, now) ==
              if k < |db| then db[k := Group(mca, JoinInts(db[k].ints, ifindex, writes, now), now)]
              else db + [Group(mca, JoinInts([], ifindex, writes, now), now)]
  {
    hide RefreshAll;
    var k := FindGroup(db, mca);
    var db1 := GroupintGet(db, mca, ifindex, now);
    Invariant.GetEntry(db, mca, ifindex, now, mca, ifindex);
    if k < |db| {
      Invariant.FindGroupReplace(db, k, db1[k], mca);
      hide FindGroup;
      FindWithInt(db[k].ints, ifindex);
    } else {
      Invariant.FindGroupAppend(db, db1[k], mca);
      hide FindGroup;
      FindWithInt([], ifindex);
      var none: seq<GrpInt> := [];
      assert WithInt(none, ifindex) == [GrpInt(ifindex, [], 0)];
    }
  }

  lemma {:induction false} FindWithInt(ints: seq<GrpInt>, ifindex: nat)
    ensures FindInt(WithInt(ints, ifindex), ifindex) == FindInt(ints, ifindex) < |WithInt(ints, ifindex)|
  {
    hide FindInt;
    var r := WithInt(ints, ifindex);
    var a, b := FindInt(ints, ifindex), FindInt(r, ifindex);
    assert forall j | 0 <= j < |ints| :: r[j] == ints[j];
    assert |r| > |ints| ==> r[|ints|] == GrpInt(ifindex, [], 0);
  }

  lemma {:induction false} LeaveStepAt(db: DB, mca: Addr, ifindex: nat)
    ensures var k := FindGroup(db, mca);
            LeaveStep(db, mca, ifindex) ==
              if k < |db| then db[k := db[k].(ints := LeaveInts(db[k].ints, ifindex))] else db
  {
    hide Unsubscribe;
  }

  class Conf {
    const groups: List<GroupNode>
    ghost var view: DB
    ghost var repr: set<object>

    /** Each group is well formed and lies in a part of `repr` of its own, apart from the list. */
    ghost predicate Separate(objs: seq<GroupNode>)
      reads this, groups, repr
    {
      && (forall x | x in objs :: x in repr)
      && (forall x | x in objs ::
            x in x.repr && x.repr <= repr && x.repr !! groups.spine && this !in x.repr && x.Valid())
      && (forall x, y | x in objs && y in objs && x != y :: x.repr !! y.repr)
    }

    ghost predicate Owns()
      reads this, groups
    {
      this in repr && groups in groups.spine && groups.spine <= repr && this !in groups.spine
    }

    ghost predicate Shows()
      reads this, groups, groups.contents
    {
      |view| == |groups.contents| && forall k | 0 <= k < |view| :: groups.contents[k].view == view[k]
    }

    ghost predicate Valid()
      reads this, repr
    {
      && this in repr && groups in repr
      && Owns() && groups.Valid() && Distinct(groups.contents)
      && Separate(groups.contents)
      && groups.count == |groups.contents|
      && Shows()
    }

    constructor ()
      ensures Valid() && fresh(repr) && view == []
    {
      this.groups := new List();
      this.view := [];
      new;
      repr := {this} + groups.spine;
    }

    /** Group `k` shares nothing with the others. */
    lemma {:induction false} Apart(k: nat)
      requires Separate(groups.contents) && Distinct(groups.contents) && k < |groups.contents|
      ensures var x := groups.contents[k];
              && x in groups.contents
              && forall j | 0 <= j < |groups.contents| && j != k ::
                   groups.contents[j] != x && groups.contents[j] !in x.repr
    {
      DistinctAt(groups.contents, k);
      forall j | 0 <= j < |groups.contents| && j != k
        ensures groups.contents[j] !in groups.contents[k].repr
      {
        var x, y := groups.contents[j], groups.contents[k];
        assert x in groups.contents && y in groups.contents && x.repr !! y.repr;
      }
    }

    /** group_find */
    method Find(mca: Addr) returns (node: Node?<GroupNode>, ghost k: nat)
      requires Valid()
      ensures k == FindGroup(view, mca)
      ensures node == null <==> k == |view|
      ensures node != null ==> node.data == groups.contents[k] && k < |groups.contents|
    {
      hide FindGroup, Distinct, List.Valid;
      k := 0;
      groups.Position(0);
      node := groups.head;
      while node != null
        invariant k <= |view| == |groups.nodes| && node == At(groups.nodes, k)
        invariant forall j | 0 <= j < k :: view[j].mca != mca
        decreases |view| - k
      {
        groups.Position(k);
        assert groups.contents[k] in groups.contents;
        if node.data.mca == mca {
          return;
        }
        node := node.next;
        k := k + 1;
      }
    }

    /** group_create and listnode_add */
    method Append(mca: Addr, now: int) returns (g: GroupNode)
      requires Valid()
      modifies this, groups, groups.spine
      ensures Valid() && fresh(repr - old(repr)) && old(repr) <= repr
      ensures groups.contents == old(groups.contents) + [g]
      ensures view == old(view) + [Group(mca, [], now)]
    {
      hide List.Valid, GroupNode.Valid, Distinct;
      g := new GroupNode(mca, now);
      ghost var before := groups.contents;
      groups.Add(g);
      DistinctSnoc(before, g);
      repr := repr + g.repr + groups.spine;
      SeparateSnoc(before, g);
      assert forall k | 0 <= k < |before| :: groups.contents[k] == before[k] && before[k] in before;
      ShowGroups(view + [g.view]);
    }

    lemma {:induction false} SeparateSnoc(objs: seq<GroupNode>, g: GroupNode)
      requires Separate(objs)
      requires g in g.repr && g.repr <= repr && g.repr !! groups.spine && this !in g.repr && g.Valid()
      requires forall x | x in objs :: x.repr !! g.repr
      ensures Separate(objs + [g])
    {
      hide GroupNode.Valid;
    }

    method JoinGroup(g: GroupNode, ghost k: nat, ifindex: nat, writes: seq<Write>, now: int)
      requires Valid() && k < |groups.contents| && g == groups.contents[k]
      modifies repr
      ensures Valid() && fresh(repr - old(repr)) && old(repr) <= repr
      ensures k < |old(view)|
      ensures view == old(view)[k := Group(old(view)[k].mca, JoinInts(old(view)[k].ints, ifindex, writes, now), now)]
    {
      hide JoinInts, List.Valid, GroupNode.Valid, Distinct;
      Apart(k);
      g.MatchesMca();
      g.Join(ifindex, writes, now);
      repr := repr + g.repr;
      view := view[k := g.view];
    }

    method LeaveGroup(g: GroupNode, ghost k: nat, ifindex: nat) returns (emptied: bool)
      requires Valid() && k < |groups.contents| && g == groups.contents[k]
      modifies repr
      ensures Valid() && repr == old(repr)
      ensures k < |old(view)|
      ensures var j := FindInt(old(view)[k].ints, ifindex);
              emptied <==> j < |old(view)[k].ints| && Empties(old(view)[k].ints[j])
      ensures view == old(view)[k := old(view)[k].(ints := LeaveInts(old(view)[k].ints, ifindex))]
    {
      hide LeaveInts, FindInt, Empties, List.Valid, GroupNode.Valid, Distinct;
      Apart(k);
      emptied := g.Leave(ifindex);
      view := view[k := g.view];
    }

    /** groupint_get followed by a grpint_refresh for each source named. */
    method Join(mca: Addr, ifindex: nat, writes: seq<Write>, now: int) returns (isnew: bool)
      requires Valid()
      modifies repr
      ensures Valid() && fresh(repr - old(repr)) && old(repr) <= repr
      ensures view == JoinStep(old(view), mca, ifindex, writes, now)
      ensures isnew <==> IsNew(old(view), mca, now)
    {
      hide FindGroup, List.Valid, Distinct, JoinInts, JoinStep, GroupNode.Valid;
      JoinStepAt(view, mca, ifindex, writes, now);
      var node, k := Find(mca);
      var g;
      if node == null {
        g := Append(mca, now);
        isnew := true;
      } else {
        g := node.data;
        isnew := Elapsed(g, k, now);
      }
      JoinGroup(g, k, ifindex, writes, now);
    }

    method Elapsed(g: GroupNode, ghost k: nat, now: int) returns (b: bool)
      requires Valid() && k < |groups.contents| && g == groups.contents[k]
      ensures k < |view| && (b <==> now - view[k].lastForward >= SUBSCRIPTION_TIMEOUT)
    {
      hide List.Valid, Distinct;
      assert g in groups.contents;
      b := now - g.lastforward >= SUBSCRIPTION_TIMEOUT;
    }

    /** The group, interface and source searches of a reduction, and what it removes. */
    method Leave(mca: Addr, ifindex: nat) returns (emptied: bool)
      requires Valid()
      modifies repr
      ensures Valid() && repr == old(repr)
      ensures view == LeaveStep(old(view), mca, ifindex)
      ensures emptied <==> LeaveEmpties(old(view), mca, ifindex)
    {
      hide FindGroup, FindInt, Empties, List.Valid, Distinct, LeaveInts, LeaveStep, GroupNode.Valid;
      LeaveStepAt(view, mca, ifindex);
      emptied := false;
      var node, k := Find(mca);
      if node != null {
        emptied := LeaveGroup(node.data, k, ifindex);
      }
    }

    /** Whether mld2_send_report, for one group or for all, has anything to report on `out`. */
    method Reports(mca: Option<Addr>, out: nat) returns (b: bool)
      requires Valid()
      ensures b <==> Reporting.Reports(view, mca, out)
    {
      hide ReportedSources, Distinct, List.Valid, GroupNode.Valid;
      b := false;
      ghost var k := 0;
      groups.Position(0);
      var node := groups.head;
      while node != null
        invariant k <= |view| == |groups.nodes| && node == At(groups.nodes, k)
        invariant b <==> Reporting.Reports(view[..k], mca, out)
        decreases |view| - k
      {
        groups.Position(k);
        var g := node.data;
        assert g in groups.contents;
        g.MatchesMca();
        assert view[..k + 1] == view[..k] + [view[k]];
        ReportsSnoc(view[..k], view[k], mca, out);
        if mca.None? || g.mca == mca.value {
          var srcs := g.Reported(out);
          b := b || srcs != [];
        }
        node := node.next;
        k := k + 1;
      }
      assert view[..k] == view;
    }

    /** The outer walk of the answer to an MLDv1 query. */
    method Members(i: nat) returns (mcas: seq<Addr>)
      requires Valid()
      ensures mcas == Reporting.Members(view, i)
    {
      hide Reporting.Members, EntriesOf, Distinct, List.Valid, GroupNode.Valid;
      mcas := [];
      ghost var k := 0;
      groups.Position(0);
      var node := groups.head;
      MembersSnoc([], Group(0, [], 0), i);
      while node != null
        invariant k <= |view| == |groups.nodes| && node == At(groups.nodes, k)
        invariant mcas == Reporting.Members(view[..k], i)
        decreases |view| - k
      {
        groups.Position(k);
        var g := node.data;
        assert g in groups.contents;
        assert view[..k + 1] == view[..k] + [view[k]];
        MembersSnoc(view[..k], view[k], i);
        var more := g.Entries(i);
        mcas := mcas + more;
        node := node.next;
        k := k + 1;
      }
      assert view[..k] == view;
    }

    /** The body of the outer loop of timeout, for the group at the current node. */
    method ExpireOne(node: Node<GroupNode>, ghost w: Walk<GroupNode>, now: int) returns (gone: bool)
      requires Owns() && groups.Walking(w) && w.More() && node == w.orig[w.k]
      requires node.data == w.objs[w.k] && Separate(w.objs)
      modifies groups, groups.spine, node.data.repr
      ensures groups.spine == old(groups.spine) && Separate(w.objs)
      ensures forall x | x in w.objs && x != node.data :: x.view == old(x.view)
      ensures gone <==> ExpireInts(old(node.data.view).ints, now) == []
      ensures gone ==> groups.Walking(w.Dropped()) && groups.count == old(groups.count) - 1
      ensures !gone ==> && groups.Walking(w) && groups.count == old(groups.count)
                        && node.data.view == old(node.data.view).(ints := ExpireInts(old(node.data.view).ints, now))
    {
      hide List.Valid, List.Walking, GroupNode.Valid, Distinct, ExpireInts;
      var g := node.data;
      assert g in w.objs;
      assert forall x | x in w.objs && x != g :: x.repr !! g.repr;
      g.Expire(now);
      g.CountShown();
      gone := g.interfaces.count == 0;
      if gone {
        groups.DeleteCurrent(node, w);
        g.Destroy();
      }
    }

    /** timeout: the triple nested walk that deletes as it goes. */
    method Timeout(now: int)
      requires Valid()
      modifies repr
      ensures Valid() && repr == old(repr)
      ensures view == ExpireGroups(old(view), now)
    {
      hide List.Valid, List.Walking, Separate, Distinct, ExpireGroups, ExpireInts, GroupNode.Valid;
      ghost var db := view;
      ghost var kept: DB := [];
      ghost var w := groups.Begin();
      ExpireGroupsEmpty(now);
      var next := groups.head;
      while next != null
        invariant groups.Walking(w) && groups.spine == old(groups.spine)
        invariant w.orig == old(groups.nodes) && w.objs == old(groups.contents)
        invariant w.k <= |w.orig| == |w.objs| == |db| && next == At(w.orig, w.k)
        invariant Separate(w.objs)
        invariant forall j | 0 <= j < |w.kept| :: w.kept[j] in w.objs[..w.k]
        invariant forall j | w.k <= j < |db| :: w.objs[j].view == db[j]
        invariant |w.kept| == |kept| && forall j | 0 <= j < |kept| :: w.kept[j].view == kept[j]
        invariant kept == ExpireGroups(db[..w.k], now)
        invariant groups.count == |db| - (w.k - |w.kept|)
        decreases |w.orig| - w.k
        modifies repr - {this}
      {
        var node := next;
        groups.Current(w);
        next := node.next;
        ExpireGroupsSnoc(db[..w.k], db[w.k], now);
        assert db[..w.k + 1] == db[..w.k] + [db[w.k]];
        DistinctAt(w.objs, w.k);
        SeparateParts(w.objs, w.k);
        TakeMore(w.objs, w.k);
        var gone := ExpireOne(node, w, now);
        if gone {
          w := w.Dropped();
        } else {
          groups.Current(w);
          kept := kept + [node.data.view];
          w := w.Kept();
        }
      }
      groups.Finish(w);
      SeparateFewer(w.objs, groups.contents);
      assert db[..w.k] == db;
      ShowGroups(kept);
    }

    ghost method ShowGroups(db: DB)
      requires Owns() && groups in repr && groups.Valid() && Distinct(groups.contents)
      requires Separate(groups.contents) && groups.count == |groups.contents| == |db|
      requires forall k | 0 <= k < |db| :: groups.contents[k].view == db[k]
      modifies this`view
      ensures Valid() && view == db
    {
      hide List.Valid, GroupNode.Valid, Distinct;
      view := db;
    }

    lemma {:induction false} SeparateParts(objs: seq<GroupNode>, k: nat)
      requires Separate(objs) && k < |objs|
      ensures objs[k].repr <= repr && this !in objs[k].repr
    {
      assert objs[k] in objs;
    }

    lemma {:induction false} SeparateFewer(objs: seq<GroupNode>, fewer: seq<GroupNode>)
      requires Separate(objs) && forall x | x in fewer :: x in objs
      ensures Separate(fewer)
    {
    }
  }
}
