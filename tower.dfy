/** The value-level view of a whole skip list: the data values of each layer,
    layer 0 (the base) first. SkipList's methods are specified by the functions
    here, and the lemmas are what those methods keep true. */
module Tower {
  import opened SortedSeq

  /** Layer k of a tower, or the empty layer when the tower is not that high yet. */
  function Level(ls: seq<seq<int>>, k: nat): seq<int> {
    if k < |ls| then ls[k] else []
  }

  function Max(a: nat, b: nat): nat {
    if a < b then b else a
  }

  /** The tower after x has been inserted into layers 0 .. n-1, layers being
      appended (empty) until there are n of them. */
  function Raise(ls: seq<seq<int>>, x: int, n: nat): seq<seq<int>> {
    seq(Max(|ls|, n), k requires 0 <= k < Max(|ls|, n) =>
      if k < n then InsertSorted(Level(ls, k), x) else ls[k])
  }

  /** Raising into no layer leaves the tower as it is. */
  lemma RaiseNone(ls: seq<seq<int>>, x: int)
    ensures Raise(ls, x, 0) == ls
  {
    assert forall k :: 0 <= k < |ls| ==> Raise(ls, x, 0)[k] == ls[k];
  }

  /** The tower after x has gone into layer i alone, an empty layer having been
      appended first when the tower is only i high. */
  function Climbed(ls: seq<seq<int>>, x: int, i: nat): (r: seq<seq<int>>)
    requires i <= |ls|
    ensures |r| == Max(|ls|, i + 1)
    ensures r[i] == InsertSorted(Level(ls, i), x)
    ensures forall j :: 0 <= j < |ls| && j != i ==> r[j] == ls[j]
  {
    var padded := if i < |ls| then ls else ls + [[]];
    padded[i := InsertSorted(padded[i], x)]
  }

  /** One step of the climb: raising into one more layer is climbing into layer i. */
  lemma RaiseStep(ls: seq<seq<int>>, x: int, i: nat)
    requires i <= |Raise(ls, x, i)|
    ensures Raise(ls, x, i + 1) == Climbed(Raise(ls, x, i), x, i)
  {
    var r := Raise(ls, x, i);
    var u := Climbed(r, x, i);
    var r' := Raise(ls, x, i + 1);
    assert |r'| == |u|;
    forall k | 0 <= k < |u| ensures r'[k] == u[k] {
      if k < i {
        assert u[k] == r[k];
      } else if k > i {
        assert u[k] == r[k] == ls[k];
      }
    }
  }

  /** The tower after every layer has unlinked its first x. */
  function RemoveEverywhere(ls: seq<seq<int>>, x: int): seq<seq<int>> {
    seq(|ls|, k requires 0 <= k < |ls| => RemoveFirst(ls[k], x))
  }

  /** The sparse-subset invariant, counting copies: each layer holds every value
      of the layer above at least as often as that layer does. */
  ghost predicate Nested(ls: seq<seq<int>>) {
    forall k :: 0 < k < |ls| ==> multiset(ls[k]) <= multiset(ls[k - 1])
  }

  /** Every layer sorted. */
  ghost predicate AllSorted(ls: seq<seq<int>>) {
    forall k :: 0 <= k < |ls| ==> Sorted(ls[k])
  }

  /** No layer holds a value twice. */
  ghost predicate Distinct(ls: seq<seq<int>>) {
    forall k :: 0 <= k < |ls| ==> StrictlySorted(ls[k])
  }

  /** A value anywhere in a nested tower is in every layer below, down to the base. */
  lemma {:induction false} NestedLower(ls: seq<seq<int>>, k: nat, x: int)
    requires Nested(ls) && k < |ls| && x in ls[k]
    ensures forall j :: 0 <= j <= k ==> x in ls[j]
  {
    if k > 0 {
      assert multiset(ls[k])[x] > 0;
      assert multiset(ls[k - 1])[x] > 0;
      NestedLower(ls, k - 1, x);
    }
  }

  /** Inserting into a prefix of the layers keeps the tower nested. */
  lemma RaiseKeepsNested(ls: seq<seq<int>>, x: int, n: nat)
    requires Nested(ls)
    ensures Nested(Raise(ls, x, n))
  {
    var r := Raise(ls, x, n);
    forall k | 0 < k < |r| ensures multiset(r[k]) <= multiset(r[k - 1]) {
      LevelNested(ls, k);
      MaybeInsertNested(Level(ls, k), Level(ls, k - 1), x, k < n, k - 1 < n);
    }
  }

  /** Two layers, the upper within the lower, stay so when x goes into the lower
      one, or into both. */
  lemma MaybeInsertNested(upper: seq<int>, lower: seq<int>, x: int, intoUpper: bool, intoLower: bool)
    requires multiset(upper) <= multiset(lower) && (intoUpper ==> intoLower)
    ensures multiset(if intoUpper then InsertSorted(upper, x) else upper) <=
            multiset(if intoLower then InsertSorted(lower, x) else lower)
  {
    InsertSortedCount(upper, x);
    InsertSortedCount(lower, x);
  }

  /** In a nested tower each level, the empty ones above the top included, is
      within the level below. */
  lemma LevelNested(ls: seq<seq<int>>, k: nat)
    requires Nested(ls) && 0 < k
    ensures multiset(Level(ls, k)) <= multiset(Level(ls, k - 1))
  {
    if k < |ls| {
      assert multiset(ls[k]) <= multiset(ls[k - 1]);
    }
  }

  /** Inserting keeps every layer sorted. */
  lemma RaiseKeepsOrder(ls: seq<seq<int>>, x: int, n: nat)
    requires AllSorted(ls)
    ensures AllSorted(Raise(ls, x, n))
  {
    var r := Raise(ls, x, n);
    forall k | 0 <= k < |r| ensures Sorted(r[k]) {
      if k < n {
        InsertKeepsOrder(Level(ls, k), x);
      }
    }
  }

  /** Inserting into at least one layer adds exactly one x to the base. */
  lemma RaiseBase(ls: seq<seq<int>>, x: int, n: nat)
    requires 0 < n && 0 < |ls|
    ensures multiset(Raise(ls, x, n)[0]) == multiset(ls[0]) + multiset{x}
  {
    InsertSortedCount(ls[0], x);
  }

  /** Inserting a value the base does not hold keeps a nested tower free of duplicates. */
  lemma RaiseKeepsDistinct(ls: seq<seq<int>>, x: int, n: nat)
    requires Nested(ls) && Distinct(ls)
    requires |ls| > 0 && x !in ls[0]
    ensures Distinct(Raise(ls, x, n))
  {
    var r := Raise(ls, x, n);
    forall k | 0 <= k < |r| ensures StrictlySorted(r[k]) {
      if k < n {
        if k < |ls| && x in ls[k] {
          NestedLower(ls, k, x);
        }
        InsertKeepsDistinct(Level(ls, k), x);
      }
    }
  }

  /** Removing keeps the tower nested and takes one x, if there is one, out of the base. */
  lemma RemoveKeepsShape(ls: seq<seq<int>>, x: int)
    requires Nested(ls)
    ensures Nested(RemoveEverywhere(ls, x))
    ensures 0 < |ls| ==> multiset(RemoveEverywhere(ls, x)[0]) == multiset(ls[0]) - multiset{x}
  {
    var r := RemoveEverywhere(ls, x);
    forall k | 0 < k < |r| ensures multiset(r[k]) <= multiset(r[k - 1]) {
      assert r[k] == RemoveFirst(ls[k], x) && r[k - 1] == RemoveFirst(ls[k - 1], x);
      RemoveNested(ls[k], ls[k - 1], x);
    }
    if 0 < |ls| {
      RemoveFirstCount(ls[0], x);
    }
  }

  /** Two layers, the upper within the lower, stay so when each loses its first x. */
  lemma RemoveNested(upper: seq<int>, lower: seq<int>, x: int)
    requires multiset(upper) <= multiset(lower)
    ensures multiset(RemoveFirst(upper, x)) <= multiset(RemoveFirst(lower, x))
  {
    RemoveFirstCount(upper, x);
    RemoveFirstCount(lower, x);
  }

  /** Removing keeps every layer sorted, and a duplicate-free tower duplicate-free. */
  lemma RemoveKeepsSorted(ls: seq<seq<int>>, x: int)
    ensures AllSorted(ls) ==> AllSorted(RemoveEverywhere(ls, x))
    ensures Distinct(ls) ==> Distinct(RemoveEverywhere(ls, x))
  {
    var r := RemoveEverywhere(ls, x);
    forall k | 0 <= k < |r| && Sorted(ls[k])
      ensures Sorted(r[k]) && (StrictlySorted(ls[k]) ==> StrictlySorted(r[k]))
    {
      RemoveKeepsOrder(ls[k], x);
    }
    if Distinct(ls) {
      forall k | 0 <= k < |r| ensures StrictlySorted(r[k]) {
        assert StrictlySorted(ls[k]) && Sorted(ls[k]);
      }
    }
  }

  /** A value the base of a nested tower does not hold is in no layer at all. */
  lemma NestedAbsent(ls: seq<seq<int>>, x: int)
    requires Nested(ls) && |ls| > 0 && x !in ls[0]
    ensures forall k :: 0 <= k < |ls| ==> x !in ls[k]
  {
    forall k | 0 <= k < |ls| ensures x !in ls[k] {
      if x in ls[k] {
        NestedLower(ls, k, x);
      }
    }
  }

  /** Removing a value the base does not hold changes no layer at all. */
  lemma RemoveAbsent(ls: seq<seq<int>>, x: int)
    requires Nested(ls) && |ls| > 0 && x !in ls[0]
    ensures RemoveEverywhere(ls, x) == ls
  {
    NestedAbsent(ls, x);
    assert forall k :: 0 <= k < |ls| ==> RemoveEverywhere(ls, x)[k] == ls[k];
  }

  /** In a duplicate-free tower, removing x leaves no x in the base. */
  lemma RemoveDistinctBase(ls: seq<seq<int>>, x: int)
    requires Distinct(ls) && |ls| > 0
    ensures x !in RemoveEverywhere(ls, x)[0]
  {
    RemoveDistinct(ls[0], x);
  }

  /** Remove undoes insert: taking x out of a sorted tower it has just been raised
      into gives the old tower back, with the layers the raise added left empty,
      as long as no layer the raise skipped held x already. */
  lemma RemoveUndoesRaise(ls: seq<seq<int>>, x: int, n: nat)
    requires AllSorted(ls)
    requires forall k :: n <= k < |ls| ==> x !in ls[k]
    ensures RemoveEverywhere(Raise(ls, x, n), x) == ls + seq(Max(|ls|, n) - |ls|, k => [])
  {
    var r := RemoveEverywhere(Raise(ls, x, n), x);
    var e := ls + seq(Max(|ls|, n) - |ls|, k => []);
    forall k | 0 <= k < |r| ensures r[k] == e[k] {
      if k < n {
        RemoveUndoesInsert(Level(ls, k), x);
      }
    }
  }
}
