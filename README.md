# skiplist-python in Dafny

A model of `skiplist.py`, a skip list of integers built from sorted singly
linked lists, and proofs about it.

- A `LayerList` is one layer. It is a sorted chain of `SkipNode`s behind a
  sentinel node, the prehead. It keeps a `head` pointer and a `size` counter.
  - `insert` splices a new node in at its place and returns that node.
  - `remove` unlinks the first node holding a value.
  - `__contains__` is a linear scan.
- A `SkipList` is a stack of layers with layer 0, the base, at the bottom.
  - `insert` puts the value into the base. It then puts the value into one
    layer higher per coin flip that comes up heads, and adds a layer on top
    whenever it climbs above the top. Each new node points `down` at the node
    just made one layer lower. Each new layer's prehead points down at the
    prehead below.
  - `remove` asks every layer to remove the value.
  - `__contains__` walks from the top prehead. It moves right while the next
    value is not beyond the one sought, and down otherwise.

The model is imperative, like the source. Nodes and layers are heap objects
(`class SkipNode`, `class LayerList`, `class SkipList`). Every `next`, `down`,
`head` and `size` update is a field assignment. Each method says in
`modifies` what it may change. The loops of the source are loops here, with
their invariants.

Ghost state ties the heap to values:

- a layer's `nodes` (its real nodes in list order) and `Repr` (every node it
  owns, the sentinel included);
- the list's `Nodes` (the real nodes of each layer), `Repr` (every node of
  every layer) and `Layers` (every layer object it has had).

`Contents()` and `Shape()` read off the values: one layer's sequence, and the
tower of all layers' sequences. The methods are specified against pure
functions on those values, in four modules:

- `SortedSeq` (`sorted_seq.dfy`): one layer as a sequence. `InsertPos` is the
  exact position the layer's insert links at. `InsertSorted` and
  `RemoveFirst` give the values after an insert and after a remove.
- `Tower` (`tower.dfy`): the whole list as a sequence of layers. `Raise`
  gives the tower after an insert with a given number of promotions, and
  `RemoveEverywhere` the tower after a remove. `Nested` is the subset
  invariant, counting copies.
- `Layer` (`layer_list.dfy`): the `SkipNode` and `LayerList` classes.
- `SkipLists` (`skip_list.dfy`): the `SkipList` class.

The layer invariant (`LayerList.Valid`) says:

- the prehead comes first, then `nodes` chained through `next`;
- `prehead.next == head`;
- no node occurs twice;
- `size == |nodes|`;
- the values are sorted.

The list invariant (`SkipList.Valid`) says:

- every layer is valid;
- the layers share no nodes;
- layer k's prehead points down at layer k-1's prehead, and the base's at
  nothing;
- the tower is `Nested`.

Down links are covered by a second predicate, `Coherent`. It says that a base
node points down at nothing. It also says that every other node points down
at a node of the layer below that holds the same value.

## Model

| member | source | states |
|---|---|---|
| SortedSeq.InsertPos | skiplist.py:146-158 | The new node goes in front exactly when the layer is empty or its first value is larger. Otherwise it goes behind the first node and behind every later node whose value is smaller. |
| SortedSeq.InsertKeepsOrder | skiplist.py:141-171 | Linking x in at that position keeps a sorted layer sorted, and the values gain exactly one x. |
| SortedSeq.InsertKeepsDistinct | skiplist.py:141-171 | A layer without repeated values keeps none when x was not in it. |
| SortedSeq.FirstIndex | skiplist.py:178-186 | The node remove unlinks holds x, and no node before it does. |
| SortedSeq.RemoveFirstCount | skiplist.py:173-188 | Remove takes out exactly one x if the layer holds x. Otherwise it takes out nothing. The length drops by one exactly when x was present. |
| SortedSeq.RemoveKeepsOrder | skiplist.py:173-188 | A sorted layer stays sorted after remove, and a layer without repeats stays without repeats. |
| SortedSeq.RemoveDistinct | skiplist.py:173-188 | In a layer without repeats, no x is left after remove. |
| SortedSeq.RemoveUndoesInsert | skiplist.py:141-188 | On a sorted layer, removing x right after inserting x gives back the old values. This holds even when x was already there. |
| Layer.SkipNode.constructor | skiplist.py:82-85 | A new node holds its data and has no next and no down link. |
| Layer.SkipNode.Prehead | skiplist.py:98 | The sentinel node is marked as such and has no links. |
| Layer.ValuesUnlinked | skiplist.py:178-186 | Unlinking the first node holding x removes the first x from the values. |
| Layer.LayerList.constructor | skiplist.py:95-100 | A new layer is valid and empty, with size 0. Its prehead points down at the given lower prehead. |
| Layer.LayerList.Len | skiplist.py:102-106 | `size` is the number of real nodes. The sentinel is not counted. |
| Layer.LayerList.Iterate | skiplist.py:108-115 | Iteration yields exactly the real nodes in list order. The sentinel is excluded, and the values are sorted. |
| Layer.LayerList.Contains | skiplist.py:130-139 | The result is true exactly when some real node holds x. |
| Layer.LayerList.LinkFront | skiplist.py:146-152 | The front case: the new node becomes the head and `prehead.next`, in front of the old nodes. |
| Layer.LayerList.FindPrev | skiplist.py:156-158 | The walk stops at the real node the new one must follow, which is at InsertPos - 1. |
| Layer.LayerList.LinkAfter | skiplist.py:163-166 | The new node is spliced in right behind that node. Every other link is kept. |
| Layer.LayerList.IncrementSize | skiplist.py:170 | After the splice, adding one to `size` restores the layer invariant. |
| Layer.LayerList.Insert | skiplist.py:141-171 | Insert keeps the layer valid. The values become InsertSorted(old values, x) and the size grows by one. The returned node is new, holds x and points down at nothing. It is spliced in at InsertPos, in front of any nodes already holding x unless the head holds x, and every other node keeps its place. The prehead's down link is untouched. |
| Layer.LayerList.UnlinkAt | skiplist.py:181-186 | Pointing the previous node past the found one cuts it out. `head` moves on when the head is cut, and the size drops by one. |
| Layer.LayerList.Remove | skiplist.py:173-188 | Remove keeps the layer valid. Exactly the first node holding x is unlinked, and the other nodes keep their order, so the values become RemoveFirst(old values, x). The size drops by one exactly when x was present. |
| Tower.Climbed | skiplist.py:31-38 | One round of the insert loop puts x into layer i only. If i is the height, a new empty layer is added first. |
| Tower.RaiseNone | skiplist.py:23-25 | Before the loop, x is in no layer yet. |
| Tower.RaiseStep | skiplist.py:27-42 | Raising into i + 1 layers is raising into i layers and then climbing into layer i. |
| Tower.NestedLower | skiplist.py:27-42 | In a nested tower, a value in layer k is in every layer below it, down to the base. |
| Tower.RaiseKeepsNested | skiplist.py:27-42 | Insert keeps the tower nested, for any number of promotions. |
| Tower.RaiseKeepsOrder | skiplist.py:27-42 | Insert keeps every layer sorted. |
| Tower.RaiseBase | skiplist.py:23-42 | The base gains exactly one x, so the length grows by one. |
| Tower.RaiseKeepsDistinct | skiplist.py:17-42 | Inserting a value the base lacks keeps a nested tower free of repeats. |
| Tower.RemoveKeepsShape | skiplist.py:45-51 | Remove keeps the tower nested. The base loses exactly one x if it had one. |
| Tower.RemoveKeepsSorted | skiplist.py:45-51 | Remove keeps every layer sorted, and a tower without repeats stays so. |
| Tower.NestedAbsent | skiplist.py:45-51 | A value the base of a nested tower lacks is in no layer. |
| Tower.RemoveAbsent | skiplist.py:45-51 | Removing a value the base lacks changes no layer. |
| Tower.RemoveDistinctBase | skiplist.py:45-51 | In a tower without repeats, no x is left in the base after remove. |
| Tower.RemoveUndoesRaise | skiplist.py:18-51 | Removing x right after inserting it gives back the old tower, plus the new layers left empty. This needs that no layer the insert skipped held x. |
| SkipLists.SkipList.constructor | skiplist.py:4-5 | A new list is valid and coherent, with one empty layer. Its layer objects and nodes are all new, so a caller may go on to insert into it and remove from it. |
| SkipLists.SkipList.Len | skiplist.py:7-8 | The length is the number of values in the base. |
| SkipLists.SkipList.Iterate | skiplist.py:10-12 | Iteration yields the base's real nodes, whose values are the list's sorted values. |
| SkipLists.SkipList.NextOf | skiplist.py:68-69 | Along a layer, the prehead is followed by the real nodes in order, and the last is followed by nothing. |
| SkipLists.SkipList.DownOf | skiplist.py:77 | Going down from a node of layer k reaches a node of layer k-1 with the same value. A prehead leads to the prehead below, and the base leads to nothing. |
| SkipLists.SkipList.SearchFound | skiplist.py:63-64 | When the walk stands on a real node holding x, x is in the base. |
| SkipLists.SkipList.SearchRight | skiplist.py:66-70 | Moving right keeps the walk on a node whose value is not beyond x. |
| SkipLists.SkipList.SearchDown | skiplist.py:71-77 | Stepping down keeps that property. Stepping down from the base means x is absent. |
| SkipLists.SkipList.Contains | skiplist.py:53-79 | The result is true exactly when the argument is not None and its value is in the base. |
| SkipLists.SkipList.AddLayer | skiplist.py:31-33 | A new empty layer goes on top, its prehead pointing down at the old top's prehead. Every layer stays a valid sorted list, and the down links stay as coherent as before. |
| SkipLists.SkipList.LinkInto | skiplist.py:37-38 | Layer k links in a new node for x and that node points down at prev. No other layer and no other down link changes. |
| SkipLists.SkipList.InsertInto | skiplist.py:34-38 | Layer k's values become InsertSorted of the old ones, and the other layers are unchanged. Every layer stays a valid sorted list, and the down links stay as coherent as before. Nesting between layers is not promised here; the whole climb restores it (ClimbDone). |
| SkipLists.SkipList.Promote | skiplist.py:31-38 | One round of the loop, adding a layer first when needed. The tower becomes Climbed(old tower, x, k). |
| SkipLists.SkipList.CoherentAdded | skiplist.py:37-38 | A new node pointing down at a node of the layer below with its value keeps the down links coherent. In the base it must point at nothing. |
| SkipLists.SkipList.Climb | skiplist.py:27-42 | One loop iteration moves the loop state one layer up. |
| SkipLists.SkipList.ClimbAll | skiplist.py:23-42 | After promotions + 1 rounds, x is in layers 0 to promotions. Its nodes form a column of new nodes. |
| SkipLists.SkipList.ClimbDone | skiplist.py:23-42 | At the end of the loop the list is valid and the tower is Raise(old tower, x, promotions + 1). The base gains one x. |
| SkipLists.SkipList.Insert | skiplist.py:18-42 | Insert keeps the list valid. The tower becomes Raise(old tower, x, promotions + 1), and layers are added only as needed. x's column holds one new node per layer 0..promotions, each holding x. Each points down at the one below, and the base node at nothing. Coherence is kept, and a list without repeats stays so when x was not in it. |
| SkipLists.SkipList.RemoveFrom | skiplist.py:50-51 | Layer k unlinks its first node holding x, and the other layers are untouched. |
| SkipLists.SkipList.CoherentRemoved | skiplist.py:45-51 | In a list without repeats, remove keeps the down links coherent. |
| SkipLists.SkipList.Remove | skiplist.py:45-51 | Remove keeps the list valid. Every layer loses its first x, so the tower becomes RemoveEverywhere(old tower, x). The base loses one x if it had one. An absent x changes nothing. In a list without repeats, x is then gone and the down links stay coherent. |

## Left out

- `random.random()` at skiplist.py:42 is left out. Insert takes instead the number of heads before the first tails (`promotions`), and the loop runs `promotions + 1` rounds.
- The string renderings (`__repr__` of each class) are not modelled. They are diagnostic output.
- Python generators are modelled as methods that return the whole sequence of nodes, so iteration is not lazy.
- Values are `int`. None exists in the model only as the argument of `SkipList.Contains` (`Option<int>`). A sentinel is marked by `isPrehead` rather than a None value, and its `data` is never read.
- `Repr` and `Layers` only grow. Unlinked nodes stay in `Repr`, which is a superset of what is reachable.
- SkipLists.SkipList.Remove: coherence of the down links is proved only for lists without repeated values. With repeats, a layer and the layer above can order equal values differently: the layer's insert puts a new x in front of the equal values unless the head itself holds x. Remove can then unlink the base node that a surviving upper node points down at. The source marks duplicate insertion as unwanted (skiplist.py:17).
- SkipLists.SkipList.Contains: requires coherent down links. The constructor establishes them, insert keeps them, and remove keeps them for lists without repeats. The walk over stale down links that repeats can leave is not modelled.
- SkipLists.SkipList.Insert: column freshness is stated as "not in the old `Repr`", which is what the climb needs. It is not `fresh`.
- Performance (the O(n) remove, expected O(log n) search) is not modelled.
