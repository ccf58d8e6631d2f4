/** The value-level view of one layer: its data values in list order.
    Everything here is about sequences of ints; the linked nodes come later. */
module SortedSeq {

  /** Non-decreasing order, the order every layer keeps. */
  ghost predicate Sorted(s: seq<int>) {
    forall i, j :: 0 <= i < j < |s| ==> s[i] <= s[j]
  }

  /** Strictly ascending order: a sorted layer that holds no value twice. */
  ghost predicate StrictlySorted(s: seq<int>) {
    forall i, j :: 0 <= i < j < |s| ==> s[i] < s[j]
  }

  /** Length of the longest prefix of s whose values are all below x. */
  function LeadingLess(s: seq<int>, x: int): (n: nat)
    ensures n <= |s|
    ensures forall j :: 0 <= j < n ==> s[j] < x
    ensures n < |s| ==> s[n] >= x
  {
    if |s| == 0 || s[0] >= x then 0 else 1 + LeadingLess(s[1..], x)
  }

  /** The position at which a layer holding s links a new node with value x:
      in front when the layer is empty or its first value exceeds x, and otherwise
      after the first node and after every following node whose value is below x.
      So a new value goes in front of the equal values already there, except when
      the first node itself holds x: then it goes right behind that first node. */
  function InsertPos(s: seq<int>, x: int): (p: nat)
    ensures p <= |s|
    ensures p == 0 <==> |s| == 0 || s[0] > x
    ensures forall j :: 1 <= j < p ==> s[j] < x
    ensures 0 < p < |s| ==> s[p] >= x
  {
    if |s| == 0 || s[0] > x then 0 else 1 + LeadingLess(s[1..], x)
  }

  /** The contract of InsertPos pins the position down: any p meeting it is InsertPos. */
  lemma InsertPosIs(s: seq<int>, x: int, p: nat)
    requires p <= |s|
    requires p == 0 <==> |s| == 0 || s[0] > x
    requires forall j :: 1 <= j < p ==> s[j] < x
    requires 0 < p < |s| ==> s[p] >= x
    ensures InsertPos(s, x) == p
  {
  }

  /** The values of a layer after x has been linked in at InsertPos. */
  function InsertSorted(s: seq<int>, x: int): (r: seq<int>)
    ensures |r| == |s| + 1
  {
    s[..InsertPos(s, x)] + [x] + s[InsertPos(s, x)..]
  }

  /** Index of the first occurrence of x: the node a layer's remove unlinks. */
  function FirstIndex(s: seq<int>, x: int): (i: nat)
    requires x in s
    ensures i < |s| && s[i] == x
    ensures forall j :: 0 <= j < i ==> s[j] != x
  {
    if s[0] == x then 0 else 1 + FirstIndex(s[1..], x)
  }

  /** The values of a layer after its first x (if any) has been unlinked. */
  function RemoveFirst(s: seq<int>, x: int): (r: seq<int>)
  {
    if x in s then s[..FirstIndex(s, x)] + s[FirstIndex(s, x) + 1..] else s
  }

  /** In a sorted layer, InsertPos separates the values not above x from those not below it. */
  lemma InsertPosSplits(s: seq<int>, x: int)
    requires Sorted(s)
    ensures forall j :: 0 <= j < InsertPos(s, x) ==> s[j] <= x
    ensures forall j :: InsertPos(s, x) <= j < |s| ==> x <= s[j]
  {
    var p := InsertPos(s, x);
    if p > 0 {
      assert s[0] <= x;
      forall j | InsertPos(s, x) <= j < |s| ensures x <= s[j] {
        assert s[p] <= s[j];
      }
    } else if |s| > 0 {
      forall j | 0 <= j < |s| ensures x <= s[j] {
        assert s[0] <= s[j];
      }
    }
  }

  /** Linking x in at InsertPos keeps a layer sorted, and adds exactly one x. */
  lemma {:induction false} InsertKeepsOrder(s: seq<int>, x: int)
    requires Sorted(s)
    ensures Sorted(InsertSorted(s, x))
    ensures multiset(InsertSorted(s, x)) == multiset(s) + multiset{x}
    ensures x in InsertSorted(s, x)
  {
    var p := InsertPos(s, x);
    InsertPosSplits(s, x);
    var r := InsertSorted(s, x);
    InsertSortedAt(s, x);
    forall i, j | 0 <= i < j < |r| ensures r[i] <= r[j] {
      if j < p {
        assert s[i] <= s[j];
      } else if i > p {
        assert s[i - 1] <= s[j - 1];
      } else if i < p && j > p {
        assert s[i] <= s[j - 1];
      }
    }
    InsertSortedCount(s, x);
  }

  /** The values of InsertSorted, position by position. */
  lemma InsertSortedAt(s: seq<int>, x: int)
    ensures forall k :: 0 <= k < |s| + 1 ==>
      InsertSorted(s, x)[k] == if k < InsertPos(s, x) then s[k] else if k == InsertPos(s, x) then x else s[k - 1]
  {
    var p := InsertPos(s, x);
    var a, b := s[..p], s[p..];
    assert InsertSorted(s, x) == a + [x] + b;
    forall k | 0 <= k < |s| + 1
      ensures InsertSorted(s, x)[k] == if k < p then s[k] else if k == p then x else s[k - 1]
    {
      if k < p {
        assert (a + [x] + b)[k] == a[k];
      } else if k > p {
        assert (a + [x] + b)[k] == b[k - p - 1];
      }
    }
  }

  /** Linking x in adds exactly one x, in any layer. */
  lemma InsertSortedCount(s: seq<int>, x: int)
    ensures multiset(InsertSorted(s, x)) == multiset(s) + multiset{x}
  {
    var p := InsertPos(s, x);
    assert s == s[..p] + s[p..];
  }

  /** A value not yet in a strictly sorted layer keeps it strictly sorted once linked in. */
  lemma InsertKeepsDistinct(s: seq<int>, x: int)
    requires StrictlySorted(s) && x !in s
    ensures StrictlySorted(InsertSorted(s, x))
  {
    var p := InsertPos(s, x);
    InsertPosSplits(s, x);
    var r := InsertSorted(s, x);
    InsertSortedAt(s, x);
    forall i, j | 0 <= i < j < |r| ensures r[i] < r[j] {
      if j < p {
        assert s[i] < s[j];
      } else if i > p {
        assert s[i - 1] < s[j - 1];
      } else if i < p && j > p {
        assert s[i] < s[j - 1];
      } else if i == p {
        assert s[j - 1] != x;
      } else {
        assert s[i] != x;
      }
    }
  }

  /** Unlinking the first x removes exactly one x, if there is one, and nothing else. */
  lemma RemoveFirstCount(s: seq<int>, x: int)
    ensures multiset(RemoveFirst(s, x)) == multiset(s) - multiset{x}
    ensures |RemoveFirst(s, x)| == if x in s then |s| - 1 else |s|
  {
    if x in s {
      var i := FirstIndex(s, x);
      assert s == s[..i] + [x] + s[i + 1..];
    } else {
      assert multiset(s)[x] == 0;
    }
  }

  /** Unlinking keeps the other values in their relative order, so a sorted layer stays sorted. */
  lemma RemoveKeepsOrder(s: seq<int>, x: int)
    requires Sorted(s)
    ensures Sorted(RemoveFirst(s, x))
    ensures StrictlySorted(s) ==> StrictlySorted(RemoveFirst(s, x))
  {
    if x in s {
      var p := FirstIndex(s, x);
      var r := RemoveFirst(s, x);
      RemoveFirstAt(s, x);
      forall i, j | 0 <= i < j < |r|
        ensures r[i] <= r[j] && (StrictlySorted(s) ==> r[i] < r[j])
      {
        var i', j' := if i < p then i else i + 1, if j < p then j else j + 1;
        assert r[i] == s[i'] && r[j] == s[j'] && i' < j';
      }
    }
  }

  /** The values of RemoveFirst, position by position. */
  lemma RemoveFirstAt(s: seq<int>, x: int)
    requires x in s
    ensures forall i :: 0 <= i < |s| - 1 ==>
      RemoveFirst(s, x)[i] == s[if i < FirstIndex(s, x) then i else i + 1]
  {
    var p := FirstIndex(s, x);
    var a, b := s[..p], s[p + 1..];
    forall i | 0 <= i < |s| - 1 ensures (a + b)[i] == s[if i < p then i else i + 1] {
      if i >= p {
        assert (a + b)[i] == b[i - p];
      }
    }
  }

  /** In a strictly sorted layer the first x is the only x, so after the unlink none is left. */
  lemma RemoveDistinct(s: seq<int>, x: int)
    requires StrictlySorted(s)
    ensures x !in RemoveFirst(s, x)
  {
    if x in s {
      var p := FirstIndex(s, x);
      var r := RemoveFirst(s, x);
      RemoveFirstAt(s, x);
      forall i | 0 <= i < |r| ensures r[i] != x {
        var i' := if i < p then i else i + 1;
        assert r[i] == s[i'] && i' != p;
        assert s[i'] != s[p];
      }
    }
  }

  /** Remove undoes insert: in a sorted layer the first x after linking x in is
      the new node itself, or an equal first node right in front of it. */
  lemma RemoveUndoesInsert(s: seq<int>, x: int)
    requires Sorted(s)
    ensures RemoveFirst(InsertSorted(s, x), x) == s
  {
    var p := InsertPos(s, x);
    var r := InsertSorted(s, x);
    InsertSortedAt(s, x);
    if p > 0 && s[0] == x {
      assert p == 1 by {
        assert 1 < |s| ==> s[0] <= s[1];
      }
      assert r[0] == x;
      assert forall k :: 0 <= k < |s| ==> r[1..][k] == s[k];
    } else {
      forall j | 0 <= j < p ensures r[j] != x {
        assert r[j] == s[j];
      }
      assert r[p] == x;
      assert forall k :: 0 <= k < |s| ==> (r[..p] + r[p + 1..])[k] == s[k];
    }
  }


}
