/** SkipList: a stack of LayerLists. Layer 0 holds every value; each higher layer
    holds some of the values of the layer below, and each of its nodes points
    down at a node of that layer holding the same value. */
module SkipLists {
  import opened SortedSeq
  import opened Tower
  import opened Layer

  datatype Option<T> = None | Some(value: T)

  /** One layer's share of the skip list invariant: the layer is valid, its real
      nodes are ns and its sentinel points down at `below`. Kept apart from the
      class, so that a change to one layer visibly leaves the others' share intact. */
  ghost predicate Holds(l: LayerList, ns: seq<SkipNode>, below: SkipNode?)
    reads l, l.Repr`next, l.prehead`down
  {
    l.Valid() && l.nodes == ns && l.prehead.down == below
  }

  /** Every node of ns, a base layer, points down at nothing. */
  ghost predicate DownNull(ns: seq<SkipNode>)
    reads ns`down
  {
    forall m :: m in ns ==> m.down == null
  }

  /** Every node of ns points down at a node of `lower` holding the same value. */
  ghost predicate DownInto(ns: seq<SkipNode>, lower: seq<SkipNode>)
    reads ns`down
  {
    forall m :: m in ns ==> m.down != null && m.down in lower && m.down.data == m.data
  }

  /** The layer below may gain nodes without breaking the down links into it. */
  lemma DownIntoGrown(ns: seq<SkipNode>, lower: seq<SkipNode>, lower': seq<SkipNode>)
    requires DownInto(ns, lower)
    requires forall m :: m in lower ==> m in lower'
    ensures DownInto(ns, lower')
  {
  }

  /** A layer gaining node n keeps its down links when n's own link is right. */
  lemma DownIntoAdded(ns: seq<SkipNode>, ns': seq<SkipNode>, n: SkipNode, lower: seq<SkipNode>)
    requires DownInto(ns, lower)
    requires forall m :: m in ns' <==> m == n || m in ns
    requires n.down != null && n.down in lower && n.down.data == n.data
    ensures DownInto(ns', lower)
  {
  }

  /** The base gaining node n, which points at nothing, keeps pointing at nothing. */
  lemma DownNullAdded(ns: seq<SkipNode>, ns': seq<SkipNode>, n: SkipNode)
    requires DownNull(ns)
    requires forall m :: m in ns' <==> m == n || m in ns
    requires n.down == null
    ensures DownNull(ns')
  {
  }

  /** No value below x before position p and none above it from p on: x is absent. */
  lemma Absent(s: seq<int>, p: nat, x: int)
    requires Sorted(s) && p <= |s|
    requires 0 < p ==> s[p - 1] < x
    requires p < |s| ==> s[p] > x
    ensures x !in s
  {
    forall j | 0 <= j < |s| ensures s[j] != x {
      if j < p {
        assert s[j] <= s[p - 1];
      } else {
        assert s[p] <= s[j];
      }
    }
  }

  /** The nodes made for one value x, one per layer of ns from the base up, each
      in its layer and pointing down at the one below (the base's at nothing). */
  ghost predicate Column(ns: seq<seq<SkipNode>>, column: seq<SkipNode>, x: int)
    reads column`down
  {
    |column| <= |ns| &&
    (forall k :: 0 <= k < |column| ==> column[k] in ns[k] && column[k].data == x) &&
    forall k {:trigger column[k].down} :: 0 <= k < |column| ==>
      column[k].down == if k == 0 then null else column[k - 1]
  }

  /** A column stays one while the layers only gain nodes, and grows by a node of
      the next layer up that points down at its top. */
  lemma ColumnGrown(ns: seq<seq<SkipNode>>, ns': seq<seq<SkipNode>>, column: seq<SkipNode>, x: int, n: SkipNode)
    requires Column(ns, column, x) && |ns| <= |ns'|
    requires forall j, m :: 0 <= j < |ns| && m in ns[j] ==> m in ns'[j]
    requires |column| < |ns'| && n in ns'[|column|] && n.data == x
    requires n.down == if |column| == 0 then null else column[|column| - 1]
    ensures Column(ns', column + [n], x)
  {
    var c := column + [n];
    forall k | 0 <= k < |c|
      ensures c[k] in ns'[k] && c[k].data == x && c[k].down == if k == 0 then null else c[k - 1]
    {
      if k < |column| {
        assert column[k] in ns[k];
      }
    }
  }

  /** Insert's climb as seen on values: x has gone into layers 0 to k - 1 of the
      tower s0, which had the layers l0, giving the tower `shape` and the layers ls. */
  ghost predicate Progress<L>(x: int, k: nat, s0: seq<seq<int>>, l0: seq<L>, shape: seq<seq<int>>, ls: seq<L>) {
    |s0| == |l0| && shape == Raise(s0, x, k) && |ls| == Max(|l0|, k) && ls[..|l0|] == l0
  }

  /** Climbing into layer k, adding it when needed, takes the climb one layer up. */
  lemma ProgressStep<L>(x: int, k: nat, s0: seq<seq<int>>, l0: seq<L>, shape: seq<seq<int>>, ls: seq<L>,
                        shape': seq<seq<int>>, ls': seq<L>)
    requires Progress(x, k, s0, l0, shape, ls) && k <= |shape|
    requires shape' == Climbed(shape, x, k)
    requires |ls'| == Max(|ls|, k + 1) && ls'[..|ls|] == ls
    ensures Progress(x, k + 1, s0, l0, shape', ls')
  {
    RaiseStep(s0, x, k);
    assert ls'[..|l0|] == ls[..|l0|];
  }

  class SkipList {
    var layers: seq<LayerList>
    /** The real nodes of every layer, layer 0 first. */
    ghost var Nodes: seq<seq<SkipNode>>
    /** Every node of every layer, sentinels included. */
    ghost var Repr: set<SkipNode>
    /** Every layer the list has had. */
    ghost var Layers: set<LayerList>

    ghost function Preheads(): set<SkipNode>
      reads this`layers
    {
      set k | 0 <= k < |layers| :: layers[k].prehead
    }

    /** The values of every layer: the tower the list stands for. */
    ghost function Shape(): (s: seq<seq<int>>)
      reads this`Nodes
      ensures |s| == |Nodes|
      ensures forall k :: 0 <= k < |Nodes| ==> s[k] == Values(Nodes[k])
    {
      var ns := Nodes;
      seq(|ns|, k requires 0 <= k < |ns| => Values(ns[k]))
    }

    /** The values of the base layer: what the skip list holds. */
    ghost function Base(): seq<int>
      reads this`Nodes
    {
      Level(Shape(), 0)
    }

    /** What layer k's sentinel points down at: the sentinel of the layer below,
        or nothing for the base. */
    ghost function Below(k: nat): SkipNode?
      reads this`layers
      requires k < |layers|
    {
      if k == 0 then null else layers[k - 1].prehead
    }

    /** Each layer valid, owning its own nodes, its sentinel chained to the one below. */
    ghost predicate Structured()
      reads this, Layers, Repr`next, Preheads()`down
    {
      |layers| > 0 && |Nodes| == |layers| &&
      (forall k :: 0 <= k < |layers| ==> layers[k] in Layers) &&
      (forall k :: 0 <= k < |layers| ==> layers[k].Repr <= Repr) &&
      (forall k {:trigger Holds(layers[k], Nodes[k], Below(k))} :: 0 <= k < |layers| ==>
        Holds(layers[k], Nodes[k], Below(k))) &&
      (forall j, k :: 0 <= j < k < |layers| ==> layers[j].Repr !! layers[k].Repr)
    }

    /** The skip list invariant: every layer valid, sentinels chained, and each
        layer a sub-multiset of the one below. */
    ghost predicate Valid()
      reads this, Layers, Repr`next, Preheads()`down
    {
      Structured() && Nested(Shape())
    }

    /** The down links: a base node points at nothing, any other node at a node
        of the layer below holding the same value. */
    ghost predicate Coherent()
      reads this, Layers, Repr`next, Preheads()`down, Repr`down
      requires Structured()
    {
      assert forall k, m :: 0 <= k < |Nodes| && m in Nodes[k] ==> m in Repr by {
        forall k, m | 0 <= k < |Nodes| && m in Nodes[k] ensures m in Repr {
          assert layers[k].prehead in Preheads();
          assert Holds(layers[k], Nodes[k], Below(k));
        }
      }
      DownNull(Nodes[0]) &&
      forall k {:trigger DownInto(Nodes[k], Nodes[k - 1])} :: 0 < k < |Nodes| ==>
        DownInto(Nodes[k], Nodes[k - 1])
    }

    /** Each layer's values are in order. */
    lemma StructuredSorted()
      requires Structured()
      ensures AllSorted(Shape())
    {
      forall k | 0 <= k < |layers| ensures Sorted(Shape()[k]) {
        assert Holds(layers[k], Nodes[k], Below(k));
      }
    }

    /** Layer k shares no object with any other layer. */
    lemma Apart(k: nat)
      requires Structured() && k < |layers|
      ensures forall j :: 0 <= j < |layers| && j != k ==>
        layers[j] != layers[k] && layers[j].Repr !! layers[k].Repr
    {
      forall j | 0 <= j < |layers| && j != k
        ensures layers[j] != layers[k] && layers[j].Repr !! layers[k].Repr
      {
        assert Holds(layers[j], Nodes[j], Below(j));
      }
    }

    /** A skip list holding nothing: one empty layer. */
    constructor ()
      ensures Valid() && Coherent()
      ensures Shape() == [[]] && fresh(Repr) && fresh(layers[0])
      ensures Layers == {layers[0]}
    {
      var base := new LayerList(null);
      layers := [base];
      Nodes := [[]];
      Repr := base.Repr;
      Layers := {base};
      new;
      assert Holds(layers[0], Nodes[0], Below(0));
    }

    /** The number of values: the size of the base layer. */
    function Len(): (n: int)
      reads this, Layers, Repr`next, Preheads()`down
      requires Valid()
      ensures n == |Base()|
    {
      assert Holds(layers[0], Nodes[0], Below(0));
      layers[0].Len()
    }

    /** The base layer's nodes, in order. */
    method Iterate() returns (ns: seq<SkipNode>)
      requires Valid()
      ensures ns == Nodes[0] && Values(ns) == Base() && Sorted(Base())
    {
      assert Holds(layers[0], Nodes[0], Below(0));
      ns := layers[0].Iterate();
    }

    /** Node pos of layer k, counting its sentinel as node 0. */
    ghost function At(k: nat, pos: nat): SkipNode
      reads this`layers, this`Nodes
      requires k < |layers| && k < |Nodes| && pos <= |Nodes[k]|
    {
      if pos == 0 then layers[k].prehead else Nodes[k][pos - 1]
    }

    /** Walking along layer k: what follows node pos. */
    lemma NextOf(k: nat, pos: nat)
      requires Structured() && k < |layers| && pos <= |Nodes[k]|
      ensures At(k, pos).isPrehead <==> pos == 0
      ensures At(k, pos).next == if pos < |Nodes[k]| then At(k, pos + 1) else null
    {
      assert Holds(layers[k], Nodes[k], Below(k));
      if pos > 0 {
        assert Nodes[k][pos - 1].next == if pos < |Nodes[k]| then Nodes[k][pos] else null;
      }
    }

    /** Stepping down from node pos of layer k lands on node j of layer k - 1, which
        holds the same value; from the base it lands on nothing. */
    lemma DownOf(k: nat, pos: nat) returns (j: nat)
      requires Structured() && Coherent() && k < |layers| && pos <= |Nodes[k]|
      ensures k == 0 ==> At(k, pos).down == null
      ensures k > 0 ==> j <= |Nodes[k - 1]| && At(k, pos).down == At(k - 1, j)
      ensures k > 0 && pos > 0 ==> j > 0 && At(k - 1, j).data == At(k, pos).data
      ensures pos == 0 ==> j == 0
    {
      j := 0;
      assert Holds(layers[k], Nodes[k], Below(k));
      if pos > 0 {
        var m := Nodes[k][pos - 1];
        assert m in Nodes[k];
        if k > 0 {
          assert DownInto(Nodes[k], Nodes[k - 1]);
          assert m.down in Nodes[k - 1];
          var i :| 0 <= i < |Nodes[k - 1]| && Nodes[k - 1][i] == m.down;
          j := i + 1;
        }
      }
    }

    /** Where contains' walk can stand: at node pos of layer k, whose value is not
        beyond x, or past the base (k == -1, node null) once x is known absent. */
    ghost predicate Searching(x: int, k: int, pos: nat, node: SkipNode?)
      reads this`layers, this`Nodes
    {
      -1 <= k < |layers| && |Nodes| == |layers| &&
      (node != null ==> 0 <= k && pos <= |Nodes[k]| && node == At(k, pos) && (pos > 0 ==> node.data <= x)) &&
      (node == null ==> x !in Base())
    }

    /** The walk stops on a real node holding x: x is in the base. */
    lemma SearchFound(x: int, k: int, pos: nat, node: SkipNode)
      requires Valid() && Searching(x, k, pos, node)
      requires !node.isPrehead && node.data == x
      ensures x in Base()
    {
      NextOf(k, pos);
      assert Shape()[k][pos - 1] == x;
      NestedLower(Shape(), k, x);
    }

    /** The next value is not beyond x: the walk moves right. */
    lemma SearchRight(x: int, k: int, pos: nat, node: SkipNode)
      requires Structured() && Searching(x, k, pos, node)
      requires node.next != null && x >= node.next.data
      ensures Searching(x, k, pos + 1, node.next)
    {
      NextOf(k, pos);
    }

    /** The next value is beyond x, or there is none, and the node does not hold x:
        the walk steps down, and stepping down from the base proves x absent. */
    lemma SearchDown(x: int, k: int, pos: nat, node: SkipNode) returns (j: nat)
      requires Valid() && Coherent() && Searching(x, k, pos, node)
      requires node.isPrehead || node.data != x
      requires node.next == null || x < node.next.data
      ensures Searching(x, k - 1, j, node.down)
    {
      NextOf(k, pos);
      j := DownOf(k, pos);
      if k == 0 {
        StructuredSorted();
        Absent(Base(), pos, x);
      }
    }

    /** Membership by the top-down walk: along a layer while the next value is
        not beyond the one sought, then down. Nothing is ever equal to None. */
    method Contains(data: Option<int>) returns (found: bool)
      requires Valid() && Coherent()
      ensures found <==> data.Some? && data.value in Base()
    {
      if data.None? {
        return false;
      }
      var x := data.value;
      var node: SkipNode? := layers[|layers| - 1].prehead;
      ghost var k: int := |layers| - 1;
      ghost var pos: nat := 0;
      while node != null
        invariant Searching(x, k, pos, node)
        decreases k + 1, if 0 <= k then |Nodes[k]| - pos else 0
      {
        if !node.isPrehead && node.data == x {
          SearchFound(x, k, pos, node);
          return true;
        }
        if node.next != null && x >= node.next.data {
          SearchRight(x, k, pos, node);
          node := node.next;
          pos := pos + 1;
          continue;
        }
        pos := SearchDown(x, k, pos, node);
        node := node.down;
        k := k - 1;
      }
      return false;
    }

    /** After layer k alone has changed, keeping its representation apart from the
        others' and growing the list's by fresh nodes only, every layer still holds. */
    twostate lemma OthersHold(k: nat)
      requires old(Structured()) && k < |old(layers)|
      requires layers == old(layers) && Layers == old(Layers) && |Nodes| == |old(Nodes)|
      requires forall j :: 0 <= j < |Nodes| && j != k ==> Nodes[j] == old(Nodes)[j]
      requires forall j :: 0 <= j < |layers| && j != k ==>
        unchanged(layers[j]) && unchanged(layers[j].Repr) && layers[j].Repr !! layers[k].Repr
      requires Holds(layers[k], Nodes[k], Below(k)) && layers[k].Repr <= Repr && old(Repr) <= Repr
      ensures Structured()
    {
      forall j {:trigger Holds(layers[j], Nodes[j], Below(j))} | 0 <= j < |layers| && j != k
        ensures layers[j].Repr <= Repr && Holds(layers[j], Nodes[j], Below(j))
      {
        assert old(Holds(layers[j], Nodes[j], Below(j)));
      }
    }

    /** After node n has joined layer k, pointing down at a node of the layer below
        with its value (at nothing in the base), and no other down link has moved,
        the down links are still coherent. */
    twostate lemma CoherentAdded(k: nat, new n: SkipNode)
      requires old(Structured()) && old(Coherent()) && Structured()
      requires layers == old(layers) && |Nodes| == |old(Nodes)| && k < |Nodes|
      requires forall j :: 0 <= j < |Nodes| && j != k ==> Nodes[j] == old(Nodes)[j]
      requires forall m :: m in Nodes[k] <==> m == n || m in old(Nodes)[k]
      requires k == 0 ==> n.down == null
      requires k > 0 ==> n.down != null && n.down in Nodes[k - 1] && n.down.data == n.data
      requires forall j :: 0 <= j < |Nodes| ==> unchanged(old(Nodes)[j]`down)
      ensures Coherent()
    {
      assert old(DownNull(Nodes[0]));
      if k == 0 {
        DownNullAdded(old(Nodes)[0], Nodes[0], n);
      }
      forall j | 0 < j < |Nodes| ensures DownInto(Nodes[j], Nodes[j - 1]) {
        assert old(DownInto(Nodes[j], Nodes[j - 1]));
        if j == k {
          DownIntoAdded(old(Nodes)[k], Nodes[k], n, Nodes[k - 1]);
        } else if j == k + 1 {
          DownIntoGrown(Nodes[j], old(Nodes)[k], Nodes[k]);
        }
      }
    }

    /** After an empty layer has been put on top, with nothing below it changed,
        every layer still holds. */
    twostate lemma TopAdded()
      requires old(Structured())
      requires |layers| == |old(layers)| + 1 && layers[..|old(layers)|] == old(layers)
      requires Nodes == old(Nodes) + [[]] && Layers == old(Layers) + {layers[|old(layers)|]}
      requires forall j :: 0 <= j < |old(layers)| ==> unchanged(layers[j]) && unchanged(layers[j].Repr)
      requires Holds(layers[|old(layers)|], [], Below(|old(layers)|))
      requires layers[|old(layers)|].Repr !! old(Repr)
      requires Repr == old(Repr) + layers[|old(layers)|].Repr
      ensures Structured()
    {
      var top := |old(layers)|;
      forall j | 0 <= j < top ensures layers[j].Repr == old(layers[j].Repr) <= old(Repr) {
      }
      forall j, k | 0 <= j < k < |layers| ensures layers[j].Repr !! layers[k].Repr {
        if k < top {
          assert old(layers[j].Repr !! layers[k].Repr);
        }
      }
      forall j {:trigger Holds(layers[j], Nodes[j], Below(j))} | 0 <= j < |layers|
        ensures Holds(layers[j], Nodes[j], Below(j))
      {
        if j < top {
          assert Below(j) == old(Below(j));
          assert old(Holds(layers[j], Nodes[j], Below(j)));
        }
      }
    }

    /** After an empty layer has been put on top, with no down link below it
        moved, the down links are as coherent as before. */
    twostate lemma TopCoherent()
      requires old(Structured()) && old(Coherent()) && Structured()
      requires Nodes == old(Nodes) + [[]]
      requires forall j :: 0 <= j < |old(Nodes)| ==> unchanged(old(Nodes)[j]`down)
      ensures Coherent()
    {
      assert old(DownNull(Nodes[0]));
      forall j | 0 < j < |Nodes| ensures DownInto(Nodes[j], Nodes[j - 1]) {
        if j < |old(Nodes)| {
          assert old(DownInto(Nodes[j], Nodes[j - 1]));
        }
      }
    }

    /** Puts an empty layer on top, its sentinel pointing down at the sentinel of
        the layer that was on top. */
    method AddLayer()
      requires Structured()
      modifies this`layers, this`Nodes, this`Repr, this`Layers
      ensures Structured() && |layers| == |old(layers)| + 1 && layers[..|old(layers)|] == old(layers)
      ensures fresh(layers[|layers| - 1]) && Layers == old(Layers) + {layers[|layers| - 1]}
      ensures Nodes == old(Nodes) + [[]] && Shape() == old(Shape()) + [[]]
      ensures old(Repr) <= Repr && fresh(Repr - old(Repr))
      ensures old(Coherent()) ==> Coherent()
    {
      var lowerPrehead := layers[|layers| - 1].prehead;
      var layer := new LayerList(lowerPrehead);
      layers, Nodes, Repr, Layers := layers + [layer], Nodes + [[]], Repr + layer.Repr, Layers + {layer};
      TopAdded();
      if old(Coherent()) {
        forall j | 0 <= j < |old(Nodes)| ensures unchanged(old(Nodes)[j]`down) {
          assert old(Holds(layers[j], Nodes[j], Below(j)));
        }
        TopCoherent();
      }
      assert Shape() == old(Shape()) + [[]];
    }

    /** The pointer work of one round of insert's climb: layer k links in a new
        node for x, which is set to point down at prev; no other layer, and no
        other down link, changes. */
    method LinkInto(k: nat, x: int, prev: SkipNode?) returns (inserted: SkipNode)
      requires Structured() && k < |layers|
      modifies this`Nodes, this`Repr, layers[k], layers[k].Repr`next
      ensures layers == old(layers) && Layers == old(Layers) && |Nodes| == |old(Nodes)|
      ensures forall j :: 0 <= j < |Nodes| && j != k ==> Nodes[j] == old(Nodes)[j]
      ensures forall j :: 0 <= j < |layers| && j != k ==>
        unchanged(layers[j]) && unchanged(layers[j].Repr) && layers[j].Repr !! layers[k].Repr
      ensures Holds(layers[k], Nodes[k], Below(k)) && layers[k].Repr <= Repr
      ensures Values(Nodes[k]) == InsertSorted(Values(old(Nodes)[k]), x)
      ensures forall m :: m in Nodes[k] <==> m == inserted || m in old(Nodes)[k]
      ensures fresh(inserted) && inserted.data == x && inserted.down == prev
      ensures Repr == old(Repr) + {inserted}
      ensures forall j :: 0 <= j < |old(Nodes)| ==> unchanged(old(Nodes)[j]`down)
    {
      var layer := layers[k];
      assert Holds(layer, Nodes[k], Below(k));
      Apart(k);
      inserted := layer.Insert(x);
      inserted.down := prev;
      Nodes, Repr := Nodes[k := layer.nodes], Repr + {inserted};
      forall j | 0 <= j < |old(Nodes)| ensures unchanged(old(Nodes)[j]`down) {
        assert old(Holds(layers[j], Nodes[j], Below(j)));
      }
    }

    /** One round of insert's climb: x goes into layer k, and its new node points
        down at prev, the node x got one layer lower (nothing at the base). */
    method InsertInto(k: nat, x: int, prev: SkipNode?) returns (inserted: SkipNode)
      requires Structured() && k < |layers|
      requires k == 0 ==> prev == null
      requires k > 0 ==> prev != null && prev in Nodes[k - 1] && prev.data == x
      modifies this`Nodes, this`Repr, layers[k], layers[k].Repr`next
      ensures Structured() && layers == old(layers)
      ensures Shape() == old(Shape())[k := InsertSorted(old(Shape())[k], x)]
      ensures |Nodes| == |old(Nodes)|
      ensures forall j :: 0 <= j < |Nodes| && j != k ==> Nodes[j] == old(Nodes)[j]
      ensures forall m :: m in Nodes[k] <==> m == inserted || m in old(Nodes)[k]
      ensures fresh(inserted) && inserted.data == x && inserted.down == prev
      ensures Repr == old(Repr) + {inserted}
      ensures old(Coherent()) ==> Coherent()
    {
      inserted := LinkInto(k, x, prev);
      OthersHold(k);
      assert Shape() == old(Shape())[k := InsertSorted(old(Shape())[k], x)];
      if old(Coherent()) {
        CoherentAdded(k, inserted);
      }
    }

    /** One round of insert's climb, adding the layer first when x has climbed
        above the top: x goes into layer k, pointing down at prev. */
    method Promote(k: nat, x: int, prev: SkipNode?) returns (inserted: SkipNode)
      requires Structured() && k <= |layers|
      requires k == 0 ==> prev == null
      requires k > 0 ==> prev != null && prev in Nodes[k - 1] && prev.data == x
      modifies this, Layers, Repr`next
      ensures Structured() && k < |layers|
      ensures |layers| == Max(|old(layers)|, k + 1) && layers[..|old(layers)|] == old(layers)
      ensures fresh(Layers - old(Layers))
      ensures Shape() == Climbed(old(Shape()), x, k)
      ensures forall j, m :: 0 <= j < |old(Nodes)| && m in old(Nodes)[j] ==> m in Nodes[j]
      ensures inserted in Nodes[k]
      ensures fresh(inserted) && inserted.data == x && inserted.down == prev
      ensures old(Repr) <= Repr && fresh(Repr - old(Repr))
      ensures old(Coherent()) ==> Coherent()
    {
      ghost var before := Shape();
      if k == |layers| {
        AddLayer();
      }
      inserted := InsertInto(k, x, prev);
      assert Shape() == Climbed(before, x, k);
    }

    /** Where insert's climb stands after x has gone into layers 0 to k - 1 of a
        list that had layers l0, the tower s0 and the nodes r0: prev is the top of
        x's column, whose nodes are new. */
    ghost predicate Raised(x: int, k: nat, s0: seq<seq<int>>, l0: seq<LayerList>, r0: set<SkipNode>,
                           column: seq<SkipNode>, prev: SkipNode?)
      reads this`layers, this`Nodes, this`Repr, column`down
    {
      Progress(x, k, s0, l0, Shape(), layers) && r0 <= Repr &&
      |column| == k && prev == (if k == 0 then null else column[k - 1]) && Column(Nodes, column, x) &&
      forall i :: 0 <= i < |column| ==> column[i] !in r0
    }

    /** Insert's loop state: the climb so far, every layer valid, and the down
        links coherent if they were at the start. Contracts state it as
        `Climbing(...) == true` so that the verifier keeps it whole instead of
        splitting it into its conjuncts, which keeps the climb's proofs cheap. */
    ghost predicate Climbing(x: int, k: nat, s0: seq<seq<int>>, l0: seq<LayerList>, r0: set<SkipNode>,
                             column: seq<SkipNode>, prev: SkipNode?, coherent: bool)
      reads this, Layers, Repr`next, Preheads()`down, Repr`down, column`down
    {
      Structured() && Raised(x, k, s0, l0, r0, column, prev) && (coherent ==> Coherent())
    }

    /** Insert's loop starts with x in no layer yet. */
    lemma ClimbStart(x: int)
      requires Structured()
      ensures Climbing(x, 0, Shape(), layers, Repr, [], null, Coherent())
    {
      RaiseNone(Shape(), x);
    }

    /** Insert's loop ends with x in layers 0 to n - 1 and every layer valid. */
    lemma ClimbDone(x: int, n: nat, s0: seq<seq<int>>, l0: seq<LayerList>, r0: set<SkipNode>,
                    column: seq<SkipNode>, prev: SkipNode?, coherent: bool)
      requires Climbing(x, n, s0, l0, r0, column, prev, coherent) == true && Nested(s0)
      requires 0 < n && 0 < |s0|
      ensures Valid() && Shape() == Raise(s0, x, n)
      ensures x in Base() && multiset(Base()) == multiset(s0[0]) + multiset{x}
      ensures Distinct(s0) && x !in s0[0] ==> Distinct(Shape())
      ensures |layers| == Max(|l0|, n) && layers[..|l0|] == l0
      ensures |column| == n && Column(Nodes, column, x) && forall k :: 0 <= k < |column| ==> column[k] !in r0
      ensures coherent ==> Coherent()
    {
      RaiseKeepsNested(s0, x, n);
      RaiseBase(s0, x, n);
      assert x in multiset(Base());
      if Distinct(s0) && x !in s0[0] {
        RaiseKeepsDistinct(s0, x, n);
      }
    }

    /** After one round of the climb has put x into layer k, pointing down at the
        top of its column, the loop state holds one layer higher. The parameters
        are all declared `new` (with `old(allocated(...))` required of the
        object-valued ones) because this verifier version fails to encode a
        twostate lemma with several parameters that are not `new`; for the
        value parameters `new` changes nothing. */
    twostate lemma ClimbingStep(x: int, new k: nat, new prev: SkipNode?, new s0: seq<seq<int>>,
                                new l0: seq<LayerList>, new r0: set<SkipNode>, new column: seq<SkipNode>,
                                new inserted: SkipNode)
      requires old(allocated(prev) && allocated(l0) && allocated(r0) && allocated(column))
      requires old(Raised(x, k, s0, l0, r0, column, prev)) && k < |layers|
      requires old(Repr) <= Repr && inserted !in old(Repr)
      requires |layers| == Max(|old(layers)|, k + 1) && layers[..|old(layers)|] == old(layers)
      requires Shape() == Climbed(old(Shape()), x, k)
      requires forall j, m :: 0 <= j < |old(Nodes)| && m in old(Nodes)[j] ==> m in Nodes[j]
      requires forall i :: 0 <= i < |column| ==> column[i].down == old(column[i].down)
      requires inserted in Nodes[k] && inserted.data == x && inserted.down == prev
      ensures Raised(x, k + 1, s0, l0, r0, column + [inserted], inserted)
    {
      ProgressStep(x, k, s0, l0, old(Shape()), old(layers), Shape(), layers);
      assert old(Column(Nodes, column, x));
      assert Column(old(Nodes), column, x);
      ColumnGrown(old(Nodes), Nodes, column, x, inserted);
    }

    /** One round of insert's climb: x goes into layer k, which is added first
        when x has climbed above the top, and its column grows by one. */
    method Climb(x: int, k: nat, prev: SkipNode?, ghost s0: seq<seq<int>>, ghost l0: seq<LayerList>,
                 ghost r0: set<SkipNode>, ghost column: seq<SkipNode>, ghost coherent: bool)
      returns (inserted: SkipNode)
      requires Climbing(x, k, s0, l0, r0, column, prev, coherent) == true
      modifies this, Layers, Repr`next
      ensures Climbing(x, k + 1, s0, l0, r0, column + [inserted], inserted, coherent) == true
      ensures old(Repr) <= Repr && fresh(Repr - old(Repr)) && fresh(Layers - old(Layers))
    {
      inserted := Promote(k, x, prev);
      ClimbingStep(x, k, prev, s0, l0, r0, column, inserted);
    }

    /** Inserts x into the base layer and then into one layer more for each of the
        `promotions` coin flips that came up heads before the first tails, adding
        layers on top as they are needed. The nodes made for x form a column, each
        pointing down at the one below. */
    method Insert(x: int, promotions: nat) returns (ghost column: seq<SkipNode>)
      requires Valid()
      modifies this, Layers, Repr`next
      ensures Valid() && Shape() == Raise(old(Shape()), x, promotions + 1)
      ensures x in Base() && multiset(Base()) == multiset(old(Base())) + multiset{x}
      ensures Distinct(old(Shape())) && x !in old(Base()) ==> Distinct(Shape())
      ensures |layers| == Max(|old(layers)|, promotions + 1) && layers[..|old(layers)|] == old(layers)
      ensures |column| == promotions + 1
      ensures Column(Nodes, column, x) && forall k :: 0 <= k < |column| ==> column[k] !in old(Repr)
      ensures fresh(Repr - old(Repr)) && fresh(Layers - old(Layers))
      ensures old(Coherent()) ==> Coherent()
    {
      ghost var top;
      ClimbStart(x);
      column, top := ClimbAll(x, promotions, Shape(), layers, Repr, Coherent());
      ClimbDone(x, promotions + 1, old(Shape()), old(layers), old(Repr), column, top, old(Coherent()));
    }

    /** Insert's loop: one round per layer from the base up, promotions + 1 rounds
        in all, each putting x into the next layer on top of its column. */
    method ClimbAll(x: int, promotions: nat, ghost s0: seq<seq<int>>, ghost l0: seq<LayerList>,
                    ghost r0: set<SkipNode>, ghost coherent: bool)
      returns (ghost column: seq<SkipNode>, ghost top: SkipNode?)
      requires Climbing(x, 0, s0, l0, r0, [], null, coherent) == true
      modifies this, Layers, Repr`next
      ensures Climbing(x, promotions + 1, s0, l0, r0, column, top, coherent) == true
      ensures fresh(Repr - old(Repr)) && fresh(Layers - old(Layers))
    {
      var prev: SkipNode? := null;
      column := [];
      for layerInd := 0 to promotions + 1
        invariant Climbing(x, layerInd, s0, l0, r0, column, prev, coherent) == true
        invariant fresh(Layers - old(Layers)) && fresh(Repr - old(Repr))
      {
        var inserted := Climb(x, layerInd, prev, s0, l0, r0, column, coherent);
        column := column + [inserted];
        prev := inserted;
      }
      top := prev;
    }

    /** One round of remove: layer k unlinks its first node holding x, if any. */
    method RemoveFrom(k: nat, x: int)
      requires Structured() && k < |layers|
      modifies this`Nodes, layers[k], layers[k].Repr`next
      ensures Structured() && layers == old(layers) && Repr == old(Repr)
      ensures Nodes == old(Nodes)[k := Unlinked(old(Nodes)[k], x)]
    {
      var layer := layers[k];
      assert Holds(layer, Nodes[k], Below(k));
      Apart(k);
      layer.Remove(x);
      Nodes := Nodes[k := layer.nodes];
      OthersHold(k);
    }

    /** Once every layer has unlinked its first x, the tower is the old one with
        one x taken out of each layer that had one. */
    twostate lemma ShapeRemoved(x: int)
      requires |Nodes| == |old(Nodes)|
      requires forall k :: 0 <= k < |Nodes| ==> Nodes[k] == Unlinked(old(Nodes)[k], x)
      ensures Shape() == RemoveEverywhere(old(Shape()), x)
    {
      forall k | 0 <= k < |Nodes| ensures Shape()[k] == RemoveEverywhere(old(Shape()), x)[k] {
        ValuesUnlinked(old(Nodes)[k], x);
      }
    }

    /** Once every layer of a list without duplicates has unlinked its x, with no
        down link moved, the down links are as coherent as before: only nodes
        holding x went, and nothing that is left points at one of them. */
    twostate lemma CoherentRemoved(x: int)
      requires old(Structured()) && old(Coherent()) && Distinct(old(Shape())) && Structured()
      requires |Nodes| == |old(Nodes)|
      requires forall k :: 0 <= k < |Nodes| ==> Nodes[k] == Unlinked(old(Nodes)[k], x)
      requires forall k :: 0 <= k < |old(Nodes)| ==> unchanged(old(Nodes)[k]`down)
      ensures Coherent()
    {
      assert old(DownNull(Nodes[0]));
      forall m | m in Nodes[0] ensures m.down == null {
        UnlinkedWithin(old(Nodes)[0], x, m);
      }
      forall j | 0 < j < |Nodes| ensures DownInto(Nodes[j], Nodes[j - 1]) {
        assert old(DownInto(Nodes[j], Nodes[j - 1]));
        assert StrictlySorted(old(Shape())[j]);
        forall m | m in Nodes[j] ensures m.down != null && m.down in Nodes[j - 1] && m.down.data == m.data {
          UnlinkedWithin(old(Nodes)[j], x, m);
          UnlinkedDistinct(old(Nodes)[j], x, m);
          UnlinkedKeeps(old(Nodes)[j - 1], x, m.down);
        }
      }
    }

    /** Unlinks the first node holding x from every layer, base first. Each layer
        loses at most one x, so the base loses one x if it had any; a value the list
        does not hold changes nothing; and in a list without duplicates no x is left. */
    method Remove(x: int)
      requires Valid()
      modifies this`Nodes, Layers, Repr`next
      ensures Valid() && layers == old(layers) && Repr == old(Repr)
      ensures |Nodes| == |old(Nodes)|
      ensures forall k :: 0 <= k < |Nodes| ==> Nodes[k] == Unlinked(old(Nodes)[k], x)
      ensures Shape() == RemoveEverywhere(old(Shape()), x)
      ensures multiset(Base()) == multiset(old(Base())) - multiset{x}
      ensures x !in old(Base()) ==> Shape() == old(Shape())
      ensures Distinct(old(Shape())) ==> Distinct(Shape()) && x !in Base()
      ensures old(Coherent()) && Distinct(old(Shape())) ==> Coherent()
    {
      for k := 0 to |layers|
        invariant Structured() && layers == old(layers) && Repr == old(Repr)
        invariant |Nodes| == |old(Nodes)|
        invariant forall j :: 0 <= j < |Nodes| ==>
          Nodes[j] == if j < k then Unlinked(old(Nodes)[j], x) else old(Nodes)[j]
      {
        RemoveFrom(k, x);
      }
      ShapeRemoved(x);
      RemoveKeepsShape(old(Shape()), x);
      if x !in old(Base()) {
        RemoveAbsent(old(Shape()), x);
      }
      if Distinct(old(Shape())) {
        RemoveKeepsSorted(old(Shape()), x);
        RemoveDistinctBase(old(Shape()), x);
        if old(Coherent()) {
          CoherentRemoved(x);
        }
      }
    }
  }
}
