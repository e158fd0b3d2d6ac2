/** The doubly linked list under the database, with its overloaded counter. */
module LinkList {
  /** The payload of a node is set once, when the node is made. */
  class Node<T> {
    var next: Node?<T>
    var prev: Node?<T>
    const data: T

    constructor (data: T, prev: Node?<T>)
      ensures this.data == data && this.prev == prev && next == null
    {
      this.data, this.prev, next := data, prev, null;
    }
  }

  ghost predicate Distinct<T>(s: seq<T>) {
    forall i, j | 0 <= i < j < |s| :: s[i] != s[j]
  }

  lemma {:induction false} DistinctEmpty<T>()
    ensures Distinct<T>([])
  {
  }

  lemma {:induction false} DistinctAt<T>(s: seq<T>, k: nat)
    requires Distinct(s) && k < |s|
    ensures forall j | 0 <= j < |s| && j != k :: s[j] != s[k]
    ensures s[k] !in s[..k]
  {
  }

  lemma {:induction false} TakeMore<T>(s: seq<T>, k: nat)
    requires k < |s|
    ensures s[k] in s[..k + 1] && s[k] in s
    ensures forall x | x in s[..k] :: x in s[..k + 1] && x in s
  {
    assert s[..k + 1] == s[..k] + [s[k]];
  }

  lemma {:induction false} DistinctSnoc<T>(s: seq<T>, x: T)
    requires Distinct(s) && x !in s
    ensures Distinct(s + [x])
  {
  }

  /** The node at a position, null outside the list. */
  ghost function At<T>(nodes: seq<Node<T>>, i: int): Node?<T> {
    if 0 <= i < |nodes| then nodes[i] else null
  }

  ghost function Without<T>(s: seq<T>, k: nat): seq<T>
    requires k < |s|
  {
    s[..k] + s[k + 1..]
  }

  lemma {:induction false} WithoutDistinct<T>(s: seq<T>, k: nat)
    requires k < |s| && Distinct(s)
    ensures Distinct(Without(s, k))
  {
    var r := Without(s, k);
    assert forall i | 0 <= i < |r| :: r[i] == s[if i < k then i else i + 1];
  }

  lemma {:induction false} WithoutLength<T>(s: seq<T>, k: nat)
    requires k < |s|
    ensures |Without(s, k)| == |s| - 1
  {
  }

  lemma {:induction false} WithoutIndex<T>(s: seq<T>, k: nat, i: nat)
    requires k < |s| && i < |s| - 1
    ensures Without(s, k)[i] == s[if i < k then i else i + 1]
  {
  }

  lemma {:induction false} WithoutAt<T>(nodes: seq<Node<T>>, k: nat, i: int)
    requires k < |nodes|
    ensures At(Without(nodes, k), i) == if i < k then At(nodes, i) else At(nodes, i + 1)
  {
  }

  /** A walk that deletes as it goes: of the nodes `orig` and payloads `objs` the list had at the
      start, the first `k` have been passed, and `nodes` and `kept` are those of them still in. */
  datatype Walk<T> = Walk(orig: seq<Node<T>>, objs: seq<T>, nodes: seq<Node<T>>, kept: seq<T>, k: nat) {
    ghost predicate More() {
      k < |orig| == |objs|
    }

    ghost function Kept(): Walk<T>
      requires More()
    {
      Walk(orig, objs, nodes + [orig[k]], kept + [objs[k]], k + 1)
    }

    ghost function Dropped(): Walk<T> {
      this.(k := k + 1)
    }
  }

  lemma {:induction false} WalkStep<T>(s: seq<T>, kept: seq<T>, orig: seq<T>, k: nat)
    requires k < |orig| && s == kept + orig[k..]
    ensures |kept| < |s| && s[|kept|] == orig[k]
    ensures s == kept + [orig[k]] + orig[k + 1..]
    ensures Without(s, |kept|) == kept + orig[k + 1..]
    ensures forall x | x in Without(s, |kept|) :: x in s
  {
  }

  class List<T> {
    var head: Node?<T>
    var tail: Node?<T>
    var count: int
    ghost var nodes: seq<Node<T>>
    ghost var contents: seq<T>
    ghost var spine: set<object>

    /** head, tail, next and prev all describe the same sequence of distinct nodes. */
    ghost predicate Linked()
      reads this, nodes
    {
      && Distinct(nodes)
      && head == At(nodes, 0) && tail == At(nodes, |nodes| - 1)
      && (forall i {:trigger nodes[i].prev} | 0 <= i < |nodes| :: nodes[i].prev == At(nodes, i - 1))
      && (forall i {:trigger nodes[i].next} | 0 <= i < |nodes| :: nodes[i].next == At(nodes, i + 1))
    }

    /** The nodes carry `contents` and lie in `spine`. */
    ghost predicate Carries()
      reads this
    {
      && this in spine && |contents| == |nodes|
      && forall i | 0 <= i < |nodes| :: nodes[i] in spine && nodes[i].data == contents[i]
    }

    ghost predicate Valid()
      reads this, spine
    {
      Carries() && Linked()
    }

    constructor ()
      ensures Valid() && contents == [] && count == 0 && fresh(spine)
    {
      head, tail, count, nodes, contents := null, null, 0, [], [];
      spine := {this};
    }

    /** What a traversal may rely on at position `k`. */
    lemma {:induction false} Position(k: nat)
      requires Valid() && k <= |contents|
      ensures |nodes| == |contents| && head == At(nodes, 0)
      ensures k < |nodes| ==> nodes[k].data == contents[k] && nodes[k].next == At(nodes, k + 1)
    {
    }

    /** listnode_add: appends, and forgets a negative counter. */
    method Add(val: T)
      requires Valid()
      modifies this, spine
      ensures Valid() && fresh(spine - old(spine)) && old(spine) <= spine
      ensures contents == old(contents) + [val]
      ensures count == (if old(count) < 0 then 0 else old(count)) + 1
    {
      var node := new Node(val, tail);
      if head == null {
        head := node;
      } else {
        assert tail == nodes[|nodes| - 1];
        tail.next := node;
      }
      tail := node;
      if count < 0 {
        count := 0;
      }
      count := count + 1;
      ghost var before := nodes;
      nodes, contents, spine := nodes + [node], contents + [val], spine + {node};
      Extended(before, node);
    }

    /** A node hung behind the last one extends the list. */
    lemma {:induction false} Extended(ns: seq<Node<T>>, node: Node<T>)
      requires Distinct(ns) && node !in ns && nodes == ns + [node]
      requires head == (if ns == [] then node else ns[0]) && tail == node
      requires node.prev == At(ns, |ns| - 1) && node.next == null
      requires forall i {:trigger ns[i].prev} | 0 <= i < |ns| :: ns[i].prev == At(ns, i - 1)
      requires forall i {:trigger ns[i].next} | 0 <= i < |ns| ::
                 ns[i].next == if i == |ns| - 1 then node else At(ns, i + 1)
      ensures Linked()
    {
      assert forall i | 0 <= i < |ns| :: nodes[i] == ns[i];
    }

    /** list_delete_node: unlinks the node at position `k`. */
    method DeleteNode(node: Node<T>, ghost k: nat)
      requires Valid() && k < |nodes| && nodes[k] == node
      modifies this, spine
      ensures Valid() && spine == old(spine)
      ensures nodes == Without(old(nodes), k) && contents == Without(old(contents), k)
      ensures count == old(count) - 1
    {
      hide Without;
      ghost var ns := nodes;
      assert node.prev == At(ns, k - 1) && node.next == At(ns, k + 1);
      if node.prev != null {
        node.prev.next := node.next;
      } else {
        head := node.next;
      }
      if node.next != null {
        node.next.prev := node.prev;
      } else {
        tail := node.prev;
      }
      count := count - 1;
      nodes, contents := Without(ns, k), Without(contents, k);
      WithoutLength(ns, k);
      WithoutLength(old(contents), k);
      Relinked(ns, k);
      forall i | 0 <= i < |nodes| ensures nodes[i] in spine && nodes[i].data == contents[i] {
        WithoutAt(ns, k, i);
        WithoutIndex(old(contents), k, i);
      }
    }

    /** Once the neighbours of position `k` skip it, the remaining nodes form a list. */
    lemma {:induction false} Relinked(ns: seq<Node<T>>, k: nat)
      requires k < |ns| && Distinct(ns) && nodes == Without(ns, k)
      requires head == At(ns, if k == 0 then 1 else 0)
      requires tail == At(ns, if k == |ns| - 1 then k - 1 else |ns| - 1)
      requires forall i {:trigger ns[i].next} | 0 <= i < |ns| && i != k ::
                 ns[i].next == At(ns, if i == k - 1 then i + 2 else i + 1)
      requires forall i {:trigger ns[i].prev} | 0 <= i < |ns| && i != k ::
                 ns[i].prev == At(ns, if i == k + 1 then i - 2 else i - 1)
      ensures Linked()
    {
      hide Distinct, Without;
      WithoutDistinct(ns, k);
      WithoutLength(ns, k);
      WithoutAt(ns, k, 0);
      WithoutAt(ns, k, |nodes| - 1);
      forall i | 0 <= i < |nodes|
        ensures nodes[i].prev == At(nodes, i - 1)
        ensures nodes[i].next == At(nodes, i + 1)
      {
        WithoutAt(ns, k, i);
        WithoutAt(ns, k, i - 1);
        WithoutAt(ns, k, i + 1);
        assert nodes[i] == ns[if i < k then i else i + 1];
      }
    }

    /** The state of a walk that deletes as it goes. */
    ghost predicate Walking(w: Walk<T>)
      reads this, spine
    {
      && Valid() && Distinct(contents)
      && w.k <= |w.orig| == |w.objs| && |w.nodes| == |w.kept|
      && nodes == w.nodes + w.orig[w.k..] && contents == w.kept + w.objs[w.k..]
      && forall x | x in contents :: x in w.objs
    }

    lemma {:induction false} Begin() returns (w: Walk<T>)
      requires Valid() && Distinct(contents)
      ensures w == Walk(nodes, contents, [], [], 0) && Walking(w) && head == At(nodes, 0)
      ensures |nodes| == |contents|
    {
      hide Distinct;
      w := Walk(nodes, contents, [], [], 0);
    }

    /** The next node is still linked in, and so is its successor. */
    lemma {:induction false} Current(w: Walk<T>)
      requires Walking(w) && w.More()
      ensures |w.kept| < |nodes| && nodes[|w.kept|] == w.orig[w.k]
      ensures w.orig[w.k].data == w.objs[w.k] && w.orig[w.k].next == At(w.orig, w.k + 1)
      ensures Walking(w.Kept())
    {
      hide Distinct, Without;
      WalkStep(nodes, w.nodes, w.orig, w.k);
      WalkStep(contents, w.kept, w.objs, w.k);
      Position(|w.kept|);
    }

    /** list_delete_node on the current node of a walk. */
    method DeleteCurrent(node: Node<T>, ghost w: Walk<T>)
      requires Walking(w) && w.More() && node == w.orig[w.k]
      modifies this, spine
      ensures Walking(w.Dropped()) && spine == old(spine)
      ensures count == old(count) - 1
    {
      hide Distinct, Without, Valid;
      WalkStep(nodes, w.nodes, w.orig, w.k);
      WalkStep(contents, w.kept, w.objs, w.k);
      WithoutDistinct(contents, |w.kept|);
      DeleteNode(node, |w.kept|);
    }

    lemma {:induction false} Finish(w: Walk<T>)
      requires Walking(w) && w.k == |w.orig|
      ensures Valid() && Distinct(contents)
      ensures contents == w.kept && forall x | x in contents :: x in w.objs
    {
      hide Distinct, Valid;
    }

    /** The counter may be overwritten without disturbing the links. */
    method SetCount(c: int)
      requires Valid()
      modifies this`count
      ensures Valid() && count == c
    {
      count := c;
    }

    /** list_delete_all_node: `dead` are the payloads handed to the destructor, one call per node. */
    method DeleteAll() returns (dead: seq<T>)
      requires Valid()
      modifies this
      ensures Valid() && spine == old(spine) && contents == [] && count == 0
      ensures dead == old(contents)
    {
      var node := head;
      dead := [];
      while node != null
        invariant |dead| <= |nodes| == |contents|
        invariant node == At(nodes, |dead|) && dead == contents[..|dead|]
        decreases |nodes| - |dead|
      {
        var next := node.next;
        dead := dead + [node.data];
        node := next;
      }
      head, tail, count, nodes, contents := null, null, 0, [], [];
    }
  }
}
