/** One layer of a skip list (LayerList) and its nodes (SkipNode): a sorted singly
    linked list fronted by a data-less sentinel, the prehead. */
module Layer {
  import opened SortedSeq

  /** A node. Its value is fixed when it is created; `next` is the following node of
      the same layer and `down` the node holding the same value one layer lower.
      A layer's sentinel is a node of its own kind, marked by `isPrehead`; its
      `data` is never looked at. */
  class SkipNode {
    const data: int
    const isPrehead: bool
    var next: SkipNode?
    var down: SkipNode?

    constructor (data: int)
      ensures this.data == data && !isPrehead
      ensures next == null && down == null
    {
      this.data := data;
      isPrehead := false;
      next := null;
      down := null;
    }

    constructor Prehead()
      ensures isPrehead
      ensures next == null && down == null
    {
      data := 0;
      isPrehead := true;
      next := null;
      down := null;
    }
  }

  /** The values held by a run of nodes, in order. */
  ghost function Values(ns: seq<SkipNode>): (s: seq<int>)
    ensures |s| == |ns|
    ensures forall i :: 0 <= i < |ns| ==> s[i] == ns[i].data
  {
    seq(|ns|, i requires 0 <= i < |ns| => ns[i].data)
  }

  /** Splicing a node into a run splices its value into the run's values. */
  lemma ValuesSplice(ns: seq<SkipNode>, p: nat, n: SkipNode)
    requires p <= |ns|
    ensures Values(ns[..p] + [n] + ns[p..]) == Values(ns)[..p] + [n.data] + Values(ns)[p..]
  {
    var u := ns[..p] + [n] + ns[p..];
    var a := Values(ns)[..p] + [n.data] + Values(ns)[p..];
    forall k | 0 <= k < |a| ensures Values(u)[k] == a[k] {
      if k < p {
        assert u[k] == ns[k] && a[k] == Values(ns)[k];
      } else if k > p {
        assert u[k] == ns[k - 1] && a[k] == Values(ns)[k - 1];
      }
    }
  }

  /** The nodes of a layer after its remove: without the first node holding x, if any. */
  ghost function Unlinked(ns: seq<SkipNode>, x: int): seq<SkipNode> {
    if x in Values(ns) then
      ns[..FirstIndex(Values(ns), x)] + ns[FirstIndex(Values(ns), x) + 1..]
    else ns
  }

  /** Unlinking a layer's first node holding x takes its first x out of the values. */
  lemma ValuesUnlinked(ns: seq<SkipNode>, x: int)
    ensures Values(Unlinked(ns, x)) == RemoveFirst(Values(ns), x)
  {
    if x in Values(ns) {
      var vs := Values(ns);
      var p := FirstIndex(vs, x);
      var u := ns[..p] + ns[p + 1..];
      var a := vs[..p] + vs[p + 1..];
      assert Unlinked(ns, x) == u && RemoveFirst(vs, x) == a;
      forall k | 0 <= k < |a| ensures Values(u)[k] == a[k] {
        if k < p {
          assert u[k] == ns[k] && a[k] == vs[k];
        } else {
          assert u[k] == ns[k + 1] && a[k] == vs[k + 1];
        }
      }
    }
  }

  /** Every node whose value is not x survives an unlink. */
  lemma UnlinkedKeeps(ns: seq<SkipNode>, x: int, m: SkipNode)
    requires m in ns && m.data != x
    ensures m in Unlinked(ns, x)
  {
    if x in Values(ns) {
      var p := FirstIndex(Values(ns), x);
      var i :| 0 <= i < |ns| && ns[i] == m;
      assert i != p;
      if i < p {
        assert ns[..p][i] == m;
      } else {
        assert ns[p + 1..][i - p - 1] == m;
      }
    }
  }

  /** An unlink adds no node. */
  lemma UnlinkedWithin(ns: seq<SkipNode>, x: int, m: SkipNode)
    requires m in Unlinked(ns, x)
    ensures m in ns
  {
  }

  /** When the values are strictly ascending, the node holding x is the only one unlinked. */
  lemma UnlinkedDistinct(ns: seq<SkipNode>, x: int, m: SkipNode)
    requires StrictlySorted(Values(ns)) && m in Unlinked(ns, x)
    ensures m.data != x
  {
    var vs := Values(ns);
    if x in vs {
      var p := FirstIndex(vs, x);
      assert Unlinked(ns, x) == ns[..p] + ns[p + 1..];
      if m in ns[..p] {
        var j :| 0 <= j < p && ns[..p][j] == m;
        assert vs[j] == m.data;
      } else {
        assert m in ns[p + 1..];
        var j :| 0 <= j < |ns| - p - 1 && ns[p + 1..][j] == m;
        assert vs[p + 1 + j] == m.data && vs[p] == x;
        assert vs[p] < vs[p + 1 + j];
      }
    }
  }

  /** Node i of a run. Injective is stated through it, so that its quantifier is
      only used where a proof names positions explicitly. */
  ghost function NodeAt(ns: seq<SkipNode>, i: nat): SkipNode
    requires i < |ns|
  {
    ns[i]
  }

  /** No node occurs twice in a run. */
  ghost predicate Injective(ns: seq<SkipNode>) {
    forall i: nat, j: nat :: i < |ns| && j < |ns| && i != j ==> NodeAt(ns, i) != NodeAt(ns, j)
  }

  /** Different positions of an injective run hold different nodes. */
  lemma InjectiveAt(ns: seq<SkipNode>, i: nat, j: nat)
    requires Injective(ns) && i < |ns| && j < |ns| && i != j
    ensures ns[i] != ns[j]
  {
    assert NodeAt(ns, i) != NodeAt(ns, j);
  }

  /** In an injective run, `prev` (node i-1, or a node outside the run when i is 0)
      is no other position of the run. */
  lemma OnlyPrev(ns: seq<SkipNode>, i: nat, prev: SkipNode, outside: SkipNode)
    requires Injective(ns) && i <= |ns| && outside !in ns
    requires prev == if i == 0 then outside else ns[i - 1]
    ensures forall k :: 0 <= k < |ns| && k + 1 != i ==> ns[k] != prev
  {
    forall k | 0 <= k < |ns| && k + 1 != i ensures ns[k] != prev {
      if i > 0 {
        InjectiveAt(ns, k, i - 1);
      }
    }
  }

  /** Linking a node that is not yet there into a run keeps every node of it distinct. */
  lemma SpliceInjective(ns: seq<SkipNode>, p: nat, n: SkipNode)
    requires p <= |ns| && Injective(ns) && n !in ns
    ensures Injective(ns[..p] + [n] + ns[p..])
  {
    var u := ns[..p] + [n] + ns[p..];
    forall i: nat, j: nat | i < |u| && j < |u| && i != j ensures NodeAt(u, i) != NodeAt(u, j) {
      var i', j' := if i < p then i else i - 1, if j < p then j else j - 1;
      if i == p {
        assert u[j] == ns[j'];
      } else if j == p {
        assert u[i] == ns[i'];
      } else {
        assert u[i] == ns[i'] && u[j] == ns[j'];
        InjectiveAt(ns, i', j');
      }
    }
  }

  /** Unlinking one node keeps the rest distinct. */
  lemma CutInjective(ns: seq<SkipNode>, p: nat)
    requires p < |ns| && Injective(ns)
    ensures Injective(ns[..p] + ns[p + 1..])
  {
    var u := ns[..p] + ns[p + 1..];
    forall i: nat, j: nat | i < |u| && j < |u| && i != j ensures NodeAt(u, i) != NodeAt(u, j) {
      var i', j' := if i < p then i else i + 1, if j < p then j else j + 1;
      assert u[i] == ns[i'] && u[j] == ns[j'];
      InjectiveAt(ns, i', j');
    }
  }

  /** After x's node n has been linked in at position p (behind node p-1, or behind
      the sentinel when p is 0) and no other node of the run has been relinked,
      the next fields of the new run follow it node by node. */
  lemma SpliceLinks(ns: seq<SkipNode>, p: nat, n: SkipNode, r: seq<SkipNode>)
    requires p <= |ns| && r == ns[..p] + [n] + ns[p..]
    requires forall k {:trigger ns[k].next} :: 0 <= k < |ns| && k + 1 != p ==>
      ns[k].next == if k + 1 < |ns| then ns[k + 1] else null
    requires 0 < p ==> ns[p - 1].next == n
    requires n.next == if p < |ns| then ns[p] else null
    ensures forall k {:trigger r[k].next} :: 0 <= k < |r| ==>
      r[k].next == if k + 1 < |r| then r[k + 1] else null
  {
    forall k | 0 <= k < |r| ensures r[k].next == if k + 1 < |r| then r[k + 1] else null {
      if k + 1 < p {
        assert r[k] == ns[k] && r[k + 1] == ns[k + 1];
        assert ns[k].next == ns[k + 1];
      } else if k + 1 == p {
        assert r[k] == ns[k] && r[k + 1] == n;
      } else if k == p {
        assert r[k] == n;
        assert k + 1 < |r| ==> r[k + 1] == ns[p];
      } else {
        assert r[k] == ns[k - 1];
        assert ns[k - 1].next == if k < |ns| then ns[k] else null;
        assert k + 1 < |r| ==> r[k + 1] == ns[k];
      }
    }
  }

  /** After node p has been unlinked (node p-1, or the sentinel when p is 0, now
      pointing past it) and no other node relinked, the next fields of the shorter
      run follow it node by node. */
  lemma CutLinks(ns: seq<SkipNode>, p: nat, r: seq<SkipNode>)
    requires p < |ns| && r == ns[..p] + ns[p + 1..]
    requires forall k {:trigger ns[k].next} :: 0 <= k < |ns| && k + 1 != p ==>
      ns[k].next == if k + 1 < |ns| then ns[k + 1] else null
    requires 0 < p ==> ns[p - 1].next == if p + 1 < |ns| then ns[p + 1] else null
    ensures forall k {:trigger r[k].next} :: 0 <= k < |r| ==>
      r[k].next == if k + 1 < |r| then r[k + 1] else null
  {
    forall k | 0 <= k < |r| ensures r[k].next == if k + 1 < |r| then r[k + 1] else null {
      if k + 1 < p {
        assert r[k] == ns[k] && r[k + 1] == ns[k + 1];
        assert ns[k].next == ns[k + 1];
      } else if k + 1 == p {
        assert r[k] == ns[k];
        assert k + 1 < |r| ==> r[k + 1] == ns[p + 1];
      } else {
        assert r[k] == ns[k + 1];
        assert ns[k + 1].next == if k + 2 < |ns| then ns[k + 2] else null;
        assert k + 1 < |r| ==> r[k + 1] == ns[k + 2];
      }
    }
  }

  /** The values and nodes of a layer after x's node n has been linked in at InsertPos. */
  lemma InsertedValues(ns: seq<SkipNode>, vs: seq<int>, x: int, n: SkipNode, p: nat, r: seq<SkipNode>)
    requires vs == Values(ns) && Sorted(vs) && n.data == x
    requires p == InsertPos(vs, x) && r == ns[..p] + [n] + ns[p..]
    ensures Values(r) == InsertSorted(vs, x) && Sorted(Values(r)) && |r| == |ns| + 1
    ensures forall m :: m in r <==> m == n || m in ns
  {
    ValuesSplice(ns, p, n);
    InsertKeepsOrder(vs, x);
    SpliceMembers(ns, p, n);
  }

  /** The values and nodes of a layer after its first node holding x, at position i,
      has been unlinked. */
  lemma RemovedValues(ns: seq<SkipNode>, vs: seq<int>, x: int, i: nat, r: seq<SkipNode>)
    requires vs == Values(ns) && Sorted(vs) && x in vs
    requires i == FirstIndex(vs, x) && r == ns[..i] + ns[i + 1..]
    ensures r == Unlinked(ns, x) && |r| == |ns| - 1
    ensures Values(r) == RemoveFirst(vs, x) && Sorted(Values(r))
  {
    ValuesUnlinked(ns, x);
    RemoveKeepsOrder(vs, x);
  }

  /** Linking a node in adds that node and keeps every other. */
  lemma SpliceMembers(ns: seq<SkipNode>, p: nat, n: SkipNode)
    requires p <= |ns|
    ensures forall m :: m in ns[..p] + [n] + ns[p..] <==> m == n || m in ns
  {
    assert ns == ns[..p] + ns[p..];
  }

  /** LayerList: a sorted linked list of SkipNodes behind the sentinel `prehead`.
      `nodes` is the ghost sequence of its real nodes in list order and `Repr` the
      sentinel together with every node the layer has linked. */
  class LayerList {
    var size: int
    var head: SkipNode?
    const prehead: SkipNode
    ghost var nodes: seq<SkipNode>
    ghost var Repr: set<SkipNode>

    /** The values of the layer, in list order (what iterating it yields). */
    ghost function Contents(): seq<int>
      reads this`nodes
    {
      Values(nodes)
    }

    /** The linked structure: the sentinel, then `nodes` one after the other
        through their `next` fields, with `head` the first of them. */
    ghost predicate Linked()
      reads this`head, this`nodes, this`Repr, Repr`next
    {
      prehead in Repr && prehead.isPrehead &&
      (forall i :: 0 <= i < |nodes| ==> nodes[i] in Repr && !nodes[i].isPrehead) &&
      Injective(nodes) &&
      prehead.next == head &&
      (if |nodes| == 0 then head == null else head == nodes[0]) &&
      (forall i {:trigger nodes[i].next} :: 0 <= i < |nodes| ==>
        nodes[i].next == if i + 1 < |nodes| then nodes[i + 1] else null)
    }

    /** The layer invariant: linked as above, `size` counting the real nodes,
        and the values in non-decreasing order. */
    ghost predicate Valid()
      reads this, Repr`next
    {
      Linked() && size == |nodes| && Sorted(Contents())
    }

    /** An empty layer whose sentinel points down at `lowerPrehead`. */
    constructor (lowerPrehead: SkipNode?)
      ensures Valid() && fresh(Repr)
      ensures nodes == [] && size == 0
      ensures prehead.down == lowerPrehead
    {
      size := 0;
      head := null;
      var sentinel := new SkipNode.Prehead();
      sentinel.next := null;
      sentinel.down := lowerPrehead;
      prehead := sentinel;
      nodes := [];
      Repr := {sentinel};
    }

    /** The element count, which is the number of real nodes; the sentinel is not counted. */
    function Len(): (n: int)
      reads this, Repr`next
      requires Valid()
      ensures n == |Contents()|
    {
      size
    }

    /** Iteration: the real nodes from `head` on, in list order, the sentinel excluded. */
    method Iterate() returns (ns: seq<SkipNode>)
      requires Valid()
      ensures ns == nodes && prehead !in ns
      ensures Sorted(Values(ns))
    {
      ns := [];
      var node := head;
      while node != null
        invariant |ns| <= |nodes| && ns == nodes[..|ns|]
        invariant node == if |ns| < |nodes| then nodes[|ns|] else null
        decreases |nodes| - |ns|
      {
        assert node.next == if |ns| + 1 < |nodes| then nodes[|ns| + 1] else null;
        ns := ns + [node];
        node := node.next;
      }
    }

    /** Membership by a linear scan of the real nodes. */
    method Contains(x: int) returns (found: bool)
      requires Valid()
      ensures found <==> x in Contents()
    {
      var node := head;
      ghost var i := 0;
      while node != null
        invariant 0 <= i <= |nodes|
        invariant node == if i < |nodes| then nodes[i] else null
        invariant forall j :: 0 <= j < i ==> nodes[j].data != x
        decreases |nodes| - i
      {
        if node.data == x {
          assert Contents()[i] == x;
          return true;
        }
        node := node.next;
        i := i + 1;
      }
      return false;
    }

    /** The front case of insert: nothing precedes x, so the fresh node n goes in
        right behind the sentinel and becomes the head. */
    method LinkFront(n: SkipNode)
      requires Linked() && n !in Repr && !n.isPrehead
      modifies this, prehead`next, n`next
      ensures Linked() && Repr == old(Repr) + {n} && size == old(size)
      ensures nodes == [n] + old(nodes)
    {
      ghost var before := nodes;
      prehead.next := n;
      n.next := head;
      head := n;
      nodes := [n] + before;
      Repr := Repr + {n};
      SpliceLinks(before, 0, n, nodes);
      SpliceInjective(before, 0, n);
    }

    /** The walk of insert's other case: from the head, move on while the next
        node holds a value below x. It stops at the node the new one goes behind. */
    method FindPrev(x: int) returns (node: SkipNode, ghost i: nat)
      requires Valid() && size > 0 && head.data <= x
      ensures i < |nodes| && node == nodes[i]
      ensures InsertPos(Contents(), x) == i + 1
    {
      node := head;
      i := 0;
      while node.next != null && node.next.data < x
        invariant 0 <= i < |nodes| && node == nodes[i]
        invariant forall j :: 1 <= j <= i ==> nodes[j].data < x
        decreases |nodes| - i
      {
        assert node.next == if i + 1 < |nodes| then nodes[i + 1] else null;
        node := node.next;
        i := i + 1;
      }
      assert node.next == if i + 1 < |nodes| then nodes[i + 1] else null;
      assert Contents()[0] == head.data;
      InsertPosIs(Contents(), x, i + 1);
    }

    /** The splice of insert's other case: the fresh node n goes in right behind
        `node`, the real node at position i, which FindPrev stopped at. */
    method LinkAfter(node: SkipNode, n: SkipNode, ghost i: nat)
      requires Linked() && i < |nodes| && node == nodes[i] && n !in Repr && !n.isPrehead
      modifies this, node`next, n`next
      ensures Linked() && Repr == old(Repr) + {n} && size == old(size)
      ensures nodes == old(nodes)[..i + 1] + [n] + old(nodes)[i + 1..]
    {
      ghost var before := nodes;
      OnlyPrev(before, i + 1, node, prehead);
      assert n !in before;
      var oldNext := node.next;
      assert oldNext == if i + 1 < |before| then before[i + 1] else null;
      node.next := n;
      n.next := oldNext;
      nodes := before[..i + 1] + [n] + before[i + 1..];
      Repr := Repr + {n};
      SpliceLinks(before, i + 1, n, nodes);
      SpliceInjective(before, i + 1, n);
    }

    /** The count update that ends insert: one more real node is linked. */
    method IncrementSize()
      requires Linked() && size + 1 == |nodes| && Sorted(Contents())
      modifies this`size
      ensures Valid() && size == old(size) + 1
    {
      size := size + 1;
    }

    /** Links a new node holding x in at InsertPos and returns it, so that the
        caller can set its `down` link. */
    method Insert(x: int) returns (n: SkipNode)
      requires Valid()
      modifies this, Repr`next
      ensures Valid() && Repr == old(Repr) + {n}
      ensures fresh(n) && n.data == x && !n.isPrehead && n.down == null
      ensures forall m :: m in nodes <==> m == n || m in old(nodes)
      ensures Contents() == InsertSorted(old(Contents()), x)
      ensures size == old(size) + 1
      ensures var p := InsertPos(old(Contents()), x);
        nodes == old(nodes)[..p] + [n] + old(nodes)[p..]
    {
      ghost var before, vs := nodes, Contents();
      ghost var p: nat;
      if size == 0 || head.data > x {
        // Nothing precedes the new node: it becomes the head.
        assert |before| == 0 || vs[0] == head.data;
        InsertPosIs(vs, x, 0);
        p := 0;
        n := new SkipNode(x);
        LinkFront(n);
        assert nodes == before[..p] + [n] + before[p..];
      } else {
        // Walk to the node that will precede the new one.
        var node;
        ghost var i;
        node, i := FindPrev(x);
        p := i + 1;
        n := new SkipNode(x);
        LinkAfter(node, n, i);
      }
      InsertedValues(before, vs, x, n, p, nodes);
      IncrementSize();
    }

    /** The unlink step of remove: `node`, the real node at position i, is cut out
        by pointing `prev` (the node before it, or the sentinel) past it; `head`
        moves on when `node` was the head, and the count drops by one. */
    method UnlinkAt(prev: SkipNode, node: SkipNode, ghost i: nat)
      requires Linked() && i < |nodes| && node == nodes[i]
      requires prev == if i == 0 then prehead else nodes[i - 1]
      modifies this, prev`next
      ensures Linked() && Repr == old(Repr) && size == old(size) - 1
      ensures nodes == old(nodes)[..i] + old(nodes)[i + 1..]
    {
      ghost var before := nodes;
      assert node.next == if i + 1 < |before| then before[i + 1] else null;
      assert node == head <==> i == 0 by {
        if i > 0 {
          InjectiveAt(before, 0, i);
        }
      }
      OnlyPrev(before, i, prev, prehead);
      if node == head {
        head := node.next;
      }
      prev.next := node.next;
      size := size - 1;
      nodes := before[..i] + before[i + 1..];
      CutLinks(before, i, nodes);
      CutInjective(before, i);
    }

    /** Unlinks the first node holding x; does nothing when no node holds x. */
    method Remove(x: int)
      requires Valid()
      modifies this, Repr`next
      ensures Valid() && Repr == old(Repr)
      ensures nodes == Unlinked(old(nodes), x)
      ensures Contents() == RemoveFirst(old(Contents()), x)
      ensures size == if x in old(Contents()) then old(size) - 1 else old(size)
    {
      ghost var before := nodes;
      ghost var vs := Contents();
      var prev := prehead;
      var node := head;
      ghost var i := 0;
      while node != null
        invariant 0 <= i <= |nodes| && nodes == before && size == old(size)
        invariant node == if i < |nodes| then nodes[i] else null
        invariant prev == if i == 0 then prehead else nodes[i - 1]
        invariant forall j :: 0 <= j < i ==> nodes[j].data != x
        invariant unchanged(this) && unchanged(Repr`next)
        decreases |nodes| - i
      {
        if node.data == x {
          assert FirstIndex(vs, x) == i;
          UnlinkAt(prev, node, i);
          RemovedValues(before, vs, x, i, nodes);
          break;
        }
        assert node.next == if i + 1 < |nodes| then nodes[i + 1] else null;
        prev := node;
        node := node.next;
        i := i + 1;
      }
      if node == null {
        assert x !in vs;
      }
    }
  }
}
