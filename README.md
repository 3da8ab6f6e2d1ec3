# cow-list, modelled in Dafny

cow-list is a TypeScript library of copy-on-write lists. Each list is an
order-statistics tree. Every node caches two counters for its subtree: its
number of values (`count`) and their total weight (`summary`). The weight is
`lengthOf`: the length of a string, or 1 by default.

Trees are *partially persistent*. Every node carries the version that created
it. A mutation at version `ver` may change a node in place only when that node
is `owned` by `ver`; any other node is cloned first. A list handle
(`AvlList`) hands out a newer version through `cow`/`fork`. A derived list
then shares every untouched node with its parent, and a mutation of the
derived list leaves the parent's values as they are. The converse is not
guaranteed: the parent must not be mutated in place once a list has been
derived from it (see "Left out").

This project models the following parts of the library:

- the AVL tree (`src/avl/avl-node.ts`) and its binary-node helpers
  (`src/avl/bin-node.ts`);
- the in-order iterator over the AVL tree (`src/avl/bin-tree-iterator.ts`),
  including the logarithmic seek `atEqual` driven by a *pathfinder*;
- the list handle (`src/avl/avl-list.ts`);
- the batch-operation descriptors (`src/core/list-op.ts`);
- the B-tree node (`src/btree/btree-node.ts`) and its iterator
  (`src/btree/btree-iterator.ts`);
- two clients of the list: the rope (`examples/cow-rope.ts`) and the sorted
  list of integers (`examples/sorted-cow-list.ts`).

All of it is proved in Dafny.

Tree nodes are *values* (datatypes), and every mutation returns the rebuilt
node. The copy-on-write discipline is stated as a proved property. `Shared(r,
o, ver)` holds when every node of the result `r` either carries the stamp
`ver` or is one of the subtrees of the old tree `o`, left intact. List
handles, iterators, ropes and sorted lists are classes whose fields the
methods update, as in the source. Weights are a function parameter
`w: V -> nat`; a handle stores it as `weight`.

Every tree operation is specified against a plain-sequence reference, found
in `Common`:

- `SeqInsert`, `SeqDelete` and `SeqReplace` act on the in-order sequence of
  values (`ElemsOf` for the AVL tree, `Elems` for the B-tree);
- `Sum` is the cumulative weight and `FoldLeft` is `reduce`;
- `ApplyOps` is the meaning of a batch of list operations.

The invariants each operation keeps are stated and proved:

- the cached counters are up to date;
- the AVL trees stay balanced (`AllBalanced`);
- every B-tree leaf is at the same depth (`Uniform`);
- the copy-on-write sharing holds.

The model follows the code except at the seven places listed under "Findings".
There it models the code as written in a separate member, with a witness of
the defect, and the rest of the model uses the corrected step; the rows of the
members that rely on a corrected step say so.

Where the code and the library's own documentation disagree, the model follows
the code:

- `cow()` does not advance the receiver's version. It returns a new handle one
  version newer, and the receiver keeps its own version.
- `isBalanced` tests one node only, not its descendants. The recursive AVL
  invariant is the separate predicate `AllBalanced`.
- `del(index)` is documented as deleting "the value after `index`". Every
  consumer deletes the value *at* `index`, and so does the model.

## Model

| member | source | states |
|---|---|---|
| ListOps.Del | src/core/list-op.ts:107 | builds a well-formed deletion descriptor carrying the type tag 0 and the given index |
| ListOps.Ins | src/core/list-op.ts:114-115 | builds a well-formed insertion descriptor carrying the type tag 1, the index and the value |
| ListOps.Sub | src/core/list-op.ts:122-123 | builds a well-formed substitution descriptor carrying the type tag 2, the index and the value |
| ListOps.ExactlyOneKind | src/core/list-op.ts:3-69 | a well-formed operation has exactly one of the three type tags, and it equals the constructor of that tag applied to its own fields |
| ListOps.ConstructorsInjective | src/core/list-op.ts:97-123 | two descriptors from the constructors are equal iff they have the same kind, index and value; descriptors of different kinds never coincide |
| ListOps.ApplyConstructors | src/avl/avl-list.ts:160-173 | applying a deletion, insertion or substitution descriptor is the reference deletion, insertion or substitution at its index; length changes by -1, +1 and 0 |
| ListOps.ApplyOp | src/avl/avl-list.ts:162-171 | one step of `apply`'s switch on a plain sequence: a deletion, insertion or substitution is the reference edit at its index, an unknown tag changes nothing; by `ApplyConstructors`, the length falls by one, grows by one or stays |
| ListOps.ApplyOps | src/avl/avl-list.ts:160-173 | the loop of `apply` on a plain sequence: the operations one after the other, in order; by `ApplyOpsConcat`, a batch split in two is the first part, then the second |
| ListOps.ApplyOpsConcat | src/avl/avl-list.ts:160-173 | applying an empty batch changes nothing; applying `a + b` is applying `a` and then `b` |
| ListOps.ApplyFew | src/avl/avl-list.ts:160-173 | a batch of one or three operations applies them in order |
| BinNode.CountOf | src/avl/bin-node.ts:40-41 | 0 for an absent node, otherwise the cached `count`; by `CachedCounters`, the number of values of the subtree |
| BinNode.SummaryOf | src/avl/bin-node.ts:47-48 | 0 for an absent node, otherwise the cached `summary`; by `CachedCounters`, the total weight of the subtree |
| BinNode.CachedCounters | src/avl/bin-node.ts:9-48 | on a tree whose cached counters are current, `countOf` is the number of values and `summaryOf` their total weight (0 for an absent node) |
| BinNode.Leftmost | src/avl/bin-node.ts:50-51 | `leftmost` is the first value of the subtree's in-order sequence |
| AvlTree.RankOf | src/avl/avl-node.ts:15-16 | 0 for an absent node, otherwise the cached `rank`; by `RankIsHeight`, the height of the subtree |
| AvlTree.RankIsHeight | src/avl/avl-node.ts:15-16 | on a tree whose ranks are up to date (each `1 + max` of its children's, as `update` computes them), `rankOf` is the height of the subtree, and it is 0 exactly for an absent node |
| AvlTree.NewNode | src/avl/avl-node.ts:129-155 | the constructor makes a node with the given children, value and version; the node is valid when its children are, and its sequence is left + value + right |
| AvlTree.Leaf | src/avl/avl-node.ts:29-31 | `leaf(v, ver)` is a valid rank-1 node stamped `ver` holding exactly `[v]` |
| AvlTree.Update | src/avl/avl-node.ts:150-155 | `update` leaves the links, value and version alone and makes the counters and rank current; on a node that is already valid it changes nothing |
| AvlTree.SetLeft | src/avl/avl-node.ts:162-165 | relinks the left child and keeps the counters current; the sequence becomes the new left's + value + right's |
| AvlTree.SetRight | src/avl/avl-node.ts:180-183 | relinks the right child and keeps the counters current; the sequence becomes left's + value + the new right's |
| AvlTree.SetValue | src/avl/avl-node.ts:171-174 | replaces the node's value while keeping the shape; rank and count are unchanged |
| AvlTree.Owned | src/avl/avl-node.ts:191-195 | the node itself iff its version is `ver`, else a clone stamped `ver` with the same links and value, which is still valid |
| AvlTree.IsBalanced | src/avl/avl-node.ts:198-200 | this node only: neither side is unbalanced; by `RankTests`, the children's ranks differ by at most one |
| AvlTree.IsRightUnbalanced | src/avl/avl-node.ts:202-204 | the rank exceeds the left child's by at least 3; by `RankTests`, the right child is at least 2 taller |
| AvlTree.IsRightOriented | src/avl/avl-node.ts:206-208 | the rank exceeds the left child's by exactly 2; by `RankTests`, the right child is exactly 1 taller |
| AvlTree.IsLeftUnbalanced | src/avl/avl-node.ts:210-212 | the rank exceeds the right child's by at least 3; by `RankTests`, the left child is at least 2 taller |
| AvlTree.IsLeftOriented | src/avl/avl-node.ts:214-216 | the rank exceeds the right child's by exactly 2; by `RankTests`, the left child is exactly 1 taller |
| AvlTree.RankTests | src/avl/avl-node.ts:198-216 | the four rank tests (difference ≥ 3 or = 2 against a child's rank) are the AVL conditions on the difference of the children's ranks; `isBalanced` means that difference is at most 1 |
| AvlTree.RotateLeft | src/avl/avl-node.ts:218-223 | the right child becomes the root at this node's version; this node takes its inner subtree; validity and the in-order sequence are kept |
| AvlTree.RotateRight | src/avl/avl-node.ts:225-230 | mirror of the left rotation, with the same promises |
| AvlTree.Balance | src/avl/avl-node.ts:232-246 | the corrected rebalance (see Findings) keeps validity, version and the in-order sequence |
| AvlTree.BalanceRestores | src/avl/avl-node.ts:232-246 | on a node whose children are AVL trees with ranks within 2 of each other, `balance` yields an AVL tree whose rank is the node's or one less; a balanced node is returned unchanged |
| AvlTree.BalanceShares | src/avl/avl-node.ts:232-246 | rebalancing a node owned by `ver` keeps the copy-on-write sharing with the old tree |
| AvlTree.BalanceAsWritten | src/avl/avl-node.ts:232-246 | `balance` exactly as written, whose double rotation rotates the child in place; it keeps validity and the in-order sequence |
| AvlTree.BalanceAsWrittenChangesOldVersion | src/avl/avl-node.ts:232-246 | a symbolic delete-at-0 in which `balance` as written links a changed node still stamped with the old version, breaking sharing; the corrected `Balance` shares |
| AvlTree.BalanceAgreesOnOwnedChild | src/avl/avl-node.ts:232-246 | when the heavy child already carries the node's version, `balance` as written and the corrected `Balance` build the same node |
| AvlTree.From | src/avl/avl-node.ts:41-58 | builds, over `vs[start..start+length]`, a valid AVL tree with every node stamped `ver`, holding that slice in order, of rank `Bits(length)`, absent iff the slice is empty, and split at the midpoint at every node so that the left subtree holds as many values as the right one or one more |
| AvlTree.FromIterator | src/avl/avl-node.ts:60-83 | consumes exactly `length` stream values and builds over them the same tree that `from` builds |
| AvlTree.ValueStream.Next | src/avl/avl-node.ts:69-73 | the stream's `next()`: yields the value at the cursor and advances the cursor by one |
| AvlTree.Index | src/avl/avl-node.ts:252-254 | `index()` is the position of the node's own value in its subtree's sequence |
| AvlTree.Reduce | src/avl/avl-node.ts:261-267 | `reduce(f, prefix)` is the left fold of `f` over the in-order sequence |
| AvlTree.Insert | src/avl/avl-node.ts:276-294 | the result is valid and stamped `ver`; it holds the reference insertion of `v` at `index`; it shares with the input; it is an AVL tree when the input is, with rank grown by at most one — with the corrected balance (see Findings); on an AVL input only the child the insertion rebuilt at `ver` can be heavy, where `BalanceAgreesOnOwnedChild` shows the two balances agree |
| AvlTree.Replace | src/avl/avl-node.ts:302-316 | the result is valid and stamped `ver`; it holds the reference substitution at `index`, has the input's shape and shares with the input (no rebalance needed) |
| AvlTree.ReplaceBalanced | src/avl/avl-node.ts:302-316 | substitution keeps an AVL tree balanced and keeps its rank |
| AvlTree.Delete | src/avl/avl-node.ts:323-339 | the result is valid; it holds the reference deletion at `index` (clamped to the last value); it shares with the input; it is an AVL tree when the input is, with rank fallen by at most one — with the corrected double rotation (see Findings) |
| AvlTree.DeleteCurrent | src/avl/avl-node.ts:345-358 | removes the node's own value: a missing left child yields the right one, a missing right child the left one, otherwise the right subtree's first value moves up; the sequence is left + right, and sharing and balance are kept — with the corrected double rotation (see Findings) |
| AvlTree.DeleteLeftmost | src/avl/avl-node.ts:364-373 | removes the first value of the subtree, keeping validity, sharing and balance — with the corrected double rotation (see Findings) |
| AvlTree.OlderNotOwned | src/avl/avl-node.ts:191-195 | in a tree whose stamps are all older than `ver`, `owned(ver)` clones every node, so none is changed in place |
| AvlTree.SharedTrans | src/avl/avl-list.ts:160-173 | successive mutations at one version share with the tree before the first of them |
| AvlLists.AvlList.constructor | src/avl/avl-list.ts:57-60 | a handle over `root` at version `ver` |
| AvlLists.AvlList.Empty | src/avl/avl-list.ts:23-25 | an empty list at the initial version 0 |
| AvlLists.AvlList.From | src/avl/avl-list.ts:27-31 | a list holding `vs` in order at version 0, every node stamped 0 |
| AvlLists.AvlList.FromIterable | src/avl/avl-list.ts:33-37 | a list holding the first `len` values of the iterable at version 0 |
| AvlLists.AvlList.Cow | src/avl/avl-list.ts:70-72 | a new handle over the same root, one version newer; every node of the root is older than the new version |
| AvlLists.AvlList.Fork | src/avl/avl-list.ts:74-77 | advances the receiver's version and returns a second handle over the same root at that version; every node is older than it |
| AvlLists.AvlList.Length | src/avl/avl-list.ts:80-82 | the number of values; zero iff the tree is absent |
| AvlLists.AvlList.Summary | src/avl/avl-list.ts:84-86 | the total weight of the values |
| AvlLists.AvlList.Reduce | src/avl/avl-list.ts:88-90 | the left fold over the values |
| AvlLists.AvlList.ToArray | src/avl/avl-list.ts:92-94 | the values in order |
| AvlLists.AvlList.AtFirst | src/avl/avl-list.ts:101-103 | an iterator at index 0 with summary 0, done iff the list is empty |
| AvlLists.AvlList.AtEqual | src/avl/avl-list.ts:105-107 | an iterator where the seek of the pathfinder lands (see `BinTreeIter.SeekResult`) |
| AvlLists.AvlList.Delete | src/avl/avl-list.ts:138-143 | in place at the handle's version: the values lose the one at `index`; the empty list is left alone; sharing with the old root holds — with the corrected double rotation (see Findings) |
| AvlLists.AvlList.Insert | src/avl/avl-list.ts:145-151 | in place at the handle's version: `v` is inserted at `index`; the empty list becomes `[v]` — with the corrected balance (see Findings); on an AVL input only the child the insertion rebuilt at `ver` can be heavy, where `BalanceAgreesOnOwnedChild` shows the two balances agree |
| AvlLists.AvlList.Replace | src/avl/avl-list.ts:153-158 | in place at the handle's version: the value at `index` is substituted |
| AvlLists.AvlList.Apply | src/avl/avl-list.ts:160-173 | applies the batch in order: the values become `ApplyOps` of the old values; validity and sharing are kept — with the corrected double rotation (see Findings) |
| AvlLists.AvlList.Deleted | src/avl/avl-list.ts:114-118 | a new handle one version newer holding the values with the one at `index` removed, sharing with the receiver, whose values are unchanged — with the corrected double rotation (see Findings) |
| AvlLists.AvlList.Inserted | src/avl/avl-list.ts:120-124 | a new handle one version newer with `v` inserted at `index`, sharing with the receiver — with the corrected balance (see Findings); on an AVL input only the child the insertion rebuilt at `ver` can be heavy, where `BalanceAgreesOnOwnedChild` shows the two balances agree |
| AvlLists.AvlList.Replaced | src/avl/avl-list.ts:126-130 | a new handle one version newer with the value at `index` substituted, sharing with the receiver |
| AvlLists.AvlList.Applied | src/avl/avl-list.ts:132-136 | a new handle one version newer holding the batch applied, sharing with the receiver — with the corrected double rotation (see Findings) |
| AvlLists.DerivedNeverOwnsOlder | src/avl/avl-list.ts:62-77 | every node of a derived version that it did not create is a node of its base and is never owned by it, so the base is never changed in place |
| BinTreeIter.DescendFirst | src/avl/bin-tree-iterator.ts:17-23 | extends the path down left links to the subtree's leftmost node (its first value), whose position is the subtree's start |
| BinTreeIter.AscendNext | src/avl/bin-tree-iterator.ts:32-37 | pops to the ancestor whose value follows the subtree: an empty path means the subtree ended the sequence, otherwise the new head's position is the subtree's end |
| BinTreeIter.AscendPrev | src/avl/bin-tree-iterator.ts:46-51 | pops to the ancestor whose value precedes the subtree: an empty path means the subtree started the sequence, otherwise the new head's position is one before the subtree's start |
| BinTreeIter.PathValue | src/avl/bin-tree-iterator.ts:121-136 | the head of a root path holds the value at its in-order position, and the weight before it is the weight before the subtree plus the left child's summary |
| BinTreeIter.BinTreeIterator.Of | src/avl/bin-tree-iterator.ts:138-143 | the private constructor: done iff the path is empty |
| BinTreeIter.BinTreeIterator.AtFirst | src/avl/bin-tree-iterator.ts:61-69 | a valid iterator at index 0 with summary 0, done iff the tree is absent |
| BinTreeIter.BinTreeIterator.Value | src/avl/bin-tree-iterator.ts:134-136 | none iff done; otherwise the value at `index` |
| BinTreeIter.BinTreeIterator.Forth | src/avl/bin-tree-iterator.ts:166-180 | on a done iterator nothing changes; otherwise `index` advances by one and `summary` grows by the weight of the value left behind, with the iterator still valid |
| BinTreeIter.BinTreeIterator.Complete | src/avl/bin-tree-iterator.ts:157-164 | the iterator becomes done with index = length and summary = total weight; a done iterator keeps its counters; the path is kept |
| BinTreeIter.BinTreeIterator.Next | src/avl/bin-tree-iterator.ts:150-155 | returns the done flag and the value before advancing, with value none iff done |
| BinTreeIter.BinTreeIterator.AtEqual | src/avl/bin-tree-iterator.ts:77-118 | for a pathfinder answering AFTER, then EQUAL, then BEFORE along the values: lands on an EQUAL value when one exists; otherwise, without seek bias, at the first BEFORE value (past the end if none), and with seek bias on the last AFTER value (index 0 if none); summary is the weight before `index` |
| BinTreeIter.SeekProbe | src/avl/bin-tree-iterator.ts:87-102 | one probe of the descent keeps the seek invariant and descends into a strictly smaller subtree |
| BinTreeIter.SeekDescent | src/avl/bin-tree-iterator.ts:82-102 | the whole descent ends at an absent node with the seek invariant: the values before its lower bound answer AFTER and those from its upper bound on answer BEFORE |
| BinTreeIter.NoEqual | src/avl/bin-tree-iterator.ts:104-115 | when the descent ends on AFTER/BEFORE boundaries, no value answers EQUAL, and when it ends at 0, none answers AFTER |
| BtreeNodes.Update | src/btree/btree-node.ts:53-65 | recomputes `count` and `summary` as the number and total weight of the subtree's values, leaving values, children and version alone |
| BtreeNodes.IsInternal | src/btree/btree-node.ts:83-85 | a node is internal when it has children; an empty `children` stands for the source's `null` |
| BtreeNodes.New | src/btree/btree-node.ts:45-51 | under the constructor's assertion (no children, or one more child than values), a valid node with the given values, children and version |
| BtreeNodes.Owned | src/btree/btree-node.ts:73-81 | the node itself iff its version is `ver`, else a copy stamped `ver` with the same values and children and the same counters |
| BtreeNodes.Rightmost | src/btree/btree-node.ts:87-91 | when present, the last value of the subtree's sequence; always present when every leaf holds a value |
| BtreeNodes.Locate | src/btree/btree-node.ts:96-108 | the loop of `insert` finds the child `i` and offset `relIndex` with index = (values before child `i`) + relIndex and relIndex ≤ that child's count |
| BtreeNodes.Split | src/btree/btree-node.ts:199-217 | child `i` is split around its value at `ceil(k/2) - 1`: that value moves up into the parent at `i`; the left part keeps the values before it, the new right sibling the values after; the sequence, counters, leaf depth and sharing are kept |
| BtreeNodes.InsertInChild | src/btree/btree-node.ts:97-106 | a child with at most `maxVals` values is stored as it is, with the parent's values unchanged; a child with more is split around its value at `ceil(k/2) - 1`, which moves up into the parent at `i`, the halves taking the values before and after it and the other children keeping their places; either way the result is the parent's sequence with `v` at the right place, sharing its children, leaves at one depth |
| BtreeNodes.InsertBelow | src/btree/btree-node.ts:95-108 | the internal case of `insert`: the located child takes `v` and is stored back or split; the result with its counters not yet raised holds the reference insertion at `index`, shares with the input, and keeps its leaves one level lower than the input's |
| BtreeNodes.Insert | src/btree/btree-node.ts:93-115 | the result is valid and stamped `ver`; it holds the reference insertion at `index`; `count` grows by 1 and `summary` by `w(v)`; it shares with the input and keeps every leaf at the same depth |
| BtreeNodes.InsertInLeaf | src/btree/btree-node.ts:109-114 | the leaf case of `insert`: the value is spliced at `index`, with the same promises as `Insert` |
| BtreeNodes.Lift | src/btree/btree-node.ts:19-21 | a root holding `maxVals` or more values moves under a new valueless root; the sequence, counters, sharing and uniform depth are kept |
| BtreeNodes.InsertAt | src/btree/btree-node.ts:12-22 | the module-level `insert`: a valid tree holding the reference insertion, with counters raised by one value and `w(v)`, sharing with the input, with every leaf still at one depth |
| BtreeNodes.ReplaceInChild | src/btree/btree-node.ts:123-127 | storing the recursively replaced child substitutes the value at the node-level index, adjusting `summary` by the change of weight |
| BtreeNodes.ReplaceSeparator | src/btree/btree-node.ts:128-131 | when the index falls on separator `i`, that separator is substituted, with summary adjusted by the change of weight |
| BtreeNodes.Replace | src/btree/btree-node.ts:117-140 | the result is valid and stamped `ver`; it holds the reference substitution at `index`; count is kept and summary adjusted by `w(v)` minus the old value's weight; it shares with the input and keeps leaf depth |
| BtreeNodes.ReplaceInLeaf | src/btree/btree-node.ts:135-138 | the leaf case of `replace`, with the same promises |
| BtreeNodes.Merge | src/btree/btree-node.ts:219-231 | the corrected merge: child `i`, separator `i` and child `i+1` become one child, so the parent has one value and one child fewer |
| BtreeNodes.MergeValid | src/btree/btree-node.ts:219-231 | merging keeps validity, the in-order sequence and both counters |
| BtreeNodes.MergeAsWritten | src/btree/btree-node.ts:219-231 | `merge` as written: when the left child is not owned, the merged clone is lost while separator and right child are still removed; it coincides with `Merge` on an owned left child |
| BtreeNodes.MergeAsWrittenLosesValues | src/btree/btree-node.ts:219-231 | over an unowned left leaf `l`, the merge as written leaves only `l`, losing the separator and the right leaf; the corrected merge keeps them all |
| BtreeNodes.RotateRight | src/btree/btree-node.ts:254-273 | the corrected right rotation (see Findings): the last value of child `i` becomes separator `i` and the old separator moves to the front of child `i+1`, keeping the number of values and children and the parent's version |
| BtreeNodes.RotateRightValid | src/btree/btree-node.ts:254-273 | the corrected right rotation (the last value of child `i` moves up, the separator moves down into child `i+1`, and the last grandchild moves too when both are internal) keeps validity, the in-order sequence and both counters |
| BtreeNodes.RotateRightAsWritten | src/btree/btree-node.ts:254-273 | `rotateRight` as written: a sibling that is not owned keeps its old contents, since its clone is never stored back; it coincides with the corrected rotation when both siblings are owned |
| BtreeNodes.RotateRightAsWrittenDuplicates | src/btree/btree-node.ts:254-273 | with the left leaf unowned, the rotation as written duplicates its last value in the sequence; the corrected rotation keeps the sequence |
| BtreeNodes.RotateLeft | src/btree/btree-node.ts:233-252 | the corrected left rotation (see Findings): the first value of child `i` becomes separator `i-1` and the old separator moves to the end of child `i-1`, keeping the number of values and children and the parent's version |
| BtreeNodes.RotateLeftValid | src/btree/btree-node.ts:233-252 | the corrected left rotation keeps validity, the in-order sequence and both counters |
| BtreeNodes.RotateLeftAsWritten | src/btree/btree-node.ts:233-252 | `rotateLeft` as written, with un-stored clones; it coincides with the corrected rotation when both siblings are owned |
| BtreeNodes.RotateLeftAsWrittenDuplicates | src/btree/btree-node.ts:233-252 | with the right leaf unowned, the rotation as written duplicates its first value in the sequence; the corrected rotation keeps the sequence |
| BtreeNodes.Balance | src/btree/btree-node.ts:180-197 | `balance(i, minVals)` returns none exactly when child `i` is underfull and the parent has no separator (the source's `merge(-1)`); otherwise the result keeps the parent's version — with the corrected merge and rotations (see Findings) |
| BtreeNodes.BalanceKeeps | src/btree/btree-node.ts:180-197 | the rebalanced parent is valid, with the same sequence, counters and version, every leaf at the same depth, and its children shared as before — with the corrected merge and rotations (see Findings) |
| BtreeNodes.BalanceRestores | src/btree/btree-node.ts:180-197 | when only child `i` may be short, and by at most one value, every child of the rebalanced parent holds at least `minVals` values — with the corrected merge and rotations (see Findings) |
| BtreeNodes.RotateRightSizes | src/btree/btree-node.ts:254-273 | the right rotation takes one value from child `i`, gives one to child `i+1` and leaves the other children alone |
| BtreeNodes.RotateLeftSizes | src/btree/btree-node.ts:233-252 | the left rotation gives one value to child `i-1`, takes one from child `i` and leaves the other children alone |
| BtreeNodes.DeleteInChild | src/btree/btree-node.ts:148-153 | storing the child after the recursive deletion yields the parent minus that value, before repair, with counters adjusted |
| BtreeNodes.DeleteSeparator | src/btree/btree-node.ts:155-168 | the corrected separator branch: the child's rightmost value replaces separator `i` in the clone; the child loses that value at the mutation's version; the summary accounts for both; the result is the parent minus the separator |
| BtreeNodes.Delete | src/btree/btree-node.ts:142-178 | on a tree with leaves at depth `h`, any result is valid and stamped `ver`; it holds the reference deletion at `index`, with counters lowered by one value and its weight; it shares with the input and keeps depth `h`; a result exists whenever every node holds a value — with the corrected separator step, merge and rotations (see Findings) |
| BtreeNodes.DeleteBelow | src/btree/btree-node.ts:148-154 | deletion below child `i` followed by `balance`, with the promises of `Delete` — with the corrected merge and rotations (see Findings) |
| BtreeNodes.DeleteAtSeparator | src/btree/btree-node.ts:155-169 | deletion of separator `i` followed by `balance`, with the promises of `Delete` — with the corrected separator step, merge and rotations (see Findings) |
| BtreeNodes.Rebalanced | src/btree/btree-node.ts:153-167 | repairing the child after a deletion completes the deleted node; a repair always exists when the parent holds a value — with the corrected separator step, merge and rotations (see Findings) |
| BtreeNodes.DeleteSeparatorAsWritten | src/btree/btree-node.ts:155-169 | the separator branch as written: it writes the child's rightmost value into the receiver itself; the child is deleted at the receiver's version, and the summary is adjusted only by the child's change |
| BtreeNodes.DeleteSeparatorAsWrittenMiscounts | src/btree/btree-node.ts:155-169 | on an owned receiver the values come out right, but `summary` is the true weight iff the separator and the child's last value weigh the same |
| BtreeNodes.DeleteSeparatorAsWrittenChangesOldVersion | src/btree/btree-node.ts:155-169 | on a receiver not owned by the mutation, the older version loses a value, and the new version keeps the separator it should have removed, over a child stamped with the old version |
| BtreeIter.DescendFirst | src/btree/btree-iterator.ts:190-197 | follows first children down to a leaf, at cursor 0; the position is the start of the subtree the path designated |
| BtreeIter.AscendNext | src/btree/btree-iterator.ts:207-212 | pops to the first ancestor with a value after its cursor, which is at the end of the subtree left; an empty path means the sequence ended |
| BtreeIter.Advance | src/btree/btree-iterator.ts:168-177 | from a path designating value `index`, the path after one step designates `index + 1`, or is empty when `index` was the last |
| BtreeIter.AscendPrev | src/btree/btree-iterator.ts:222-231 | the corrected `ascendPrev` (see Findings): pops while the entry left on top is 0, then steps that cursor back; an empty path means the subtree started the sequence, otherwise the new head designates the value just before the subtree |
| BtreeIter.AscendPrevAsWritten | src/btree/btree-iterator.ts:222-231 | `ascendPrev` as written (see Findings): pops every entry down to the first non-zero one, that one included, and decrements the entry below it, even a 0 |
| BtreeIter.AscendPrevAsWrittenLosesCursor | src/btree/btree-iterator.ts:222-231 | over a root with a value, from child 1 at cursor 0 the as-written walk empties the path while the corrected one lands on the root's value 0; from child 0 at cursor 1 it leaves the root's cursor at -1 |
| BtreeIter.PathValue | src/btree/btree-iterator.ts:122-126 | the value under the head cursor of a root path is the value at the path's in-order position |
| BtreeIter.BtreeIterator.Of | src/btree/btree-iterator.ts:128-139 | the private constructor: done iff the node stack is empty |
| BtreeIter.BtreeIterator.AtFirst | src/btree/btree-iterator.ts:17-26 | the corrected `atFirst` (see Findings): a valid iterator at index 0 with summary 0, done iff the tree has no values, otherwise with the root at the bottom of the stack and every cursor 0 |
| BtreeIter.BtreeIterator.AtFirstAsWritten | src/btree/btree-iterator.ts:17-26 | `atFirst` as written (see Findings): any present root is descended to its leftmost leaf with cursors 0, and the cursor is done only on an absent root |
| BtreeIter.AtFirstAsWrittenOnEmptyLeaf | src/btree/btree-iterator.ts:17-22 | on a root leaf without values, the as-written cursor is not done although the tree has no values, and its head cursor designates no value of its node |
| BtreeIter.BtreeIterator.Value | src/btree/btree-iterator.ts:122-126 | none iff done; otherwise the value at `index` |
| BtreeIter.BtreeIterator.Forth | src/btree/btree-iterator.ts:161-179 | on a done iterator nothing changes; otherwise `index` advances by one and `summary` grows by the weight of the value left behind, with the iterator still valid |
| BtreeIter.BtreeIterator.Complete | src/btree/btree-iterator.ts:152-159 | becomes done with index = length and summary = total weight; a done iterator keeps its counters |
| BtreeIter.BtreeIterator.Next | src/btree/btree-iterator.ts:146-150 | returns the done flag and the value before advancing |
| CowRopes.ConcatLength | examples/cow-rope.ts:22-24 | the list's summary (pieces weighted by length) is the length of the text |
| CowRopes.FoldAppend | examples/cow-rope.ts:26-28 | folding string concatenation over the pieces from "" is their concatenation |
| CowRopes.Finder | examples/cow-rope.ts:38-46 | the pathfinder of `inserted`: BEFORE exactly when the index precedes the piece's start, AFTER exactly when it lies past the piece's end, EQUAL exactly when it lies within the piece or at one of its ends |
| CowRopes.FinderMonotone | examples/cow-rope.ts:38-46 | along any pieces, the rope's pathfinder answers AFTER, then EQUAL, then BEFORE |
| CowRopes.FinderLands | examples/cow-rope.ts:38-46 | the seek lands on a piece containing the offset (at either end included), or is done only when the offset is at or past the text's end |
| CowRopes.SplitPiece | examples/cow-rope.ts:57-64 | the three operations `sub`, `ins`, `ins` split the landed piece at the offset around the inserted string |
| CowRopes.InsertedText | examples/cow-rope.ts:47-65 | each of the four cases of the operations built yields the text with `str` inserted at `min(index, length)` |
| CowRopes.CowRope.Empty | examples/cow-rope.ts:12-14 | a rope holding the empty string |
| CowRopes.CowRope.Length | examples/cow-rope.ts:22-24 | the length of the text |
| CowRopes.CowRope.ToString | examples/cow-rope.ts:26-28 | the text |
| CowRopes.CowRope.Inserted | examples/cow-rope.ts:35-68 | a new rope whose text is the receiver's with `str` inserted at `index`, or appended when `index` is past the end |
| SortedCowLists.Int3wayComparison | examples/sorted-cow-list.ts:10-18 | BEFORE iff `v1 < v2`, AFTER iff `v1 > v2`, EQUAL iff equal |
| SortedCowLists.Comparator | examples/sorted-cow-list.ts:52 | the pathfinder of `inserted`: BEFORE, AFTER or EQUAL exactly when the new value is below, above or equal to the value of the node, whatever the summary |
| SortedCowLists.ComparatorMonotone | examples/sorted-cow-list.ts:49-55 | on a sorted list, the comparison with the inserted value answers AFTER, then EQUAL, then BEFORE |
| SortedCowLists.ComparatorLands | examples/sorted-cow-list.ts:49-55 | where the seek lands, the values before are at most the inserted value and those after at least it |
| SortedCowLists.InsertKeepsSorted | examples/sorted-cow-list.ts:49-55 | inserting there keeps the list sorted and adds exactly that value to its multiset |
| SortedCowLists.SortedUnique | examples/sorted-cow-list.ts:23-56 | two sorted sequences with the same multiset are equal |
| SortedCowLists.SortedCowList.Empty | examples/sorted-cow-list.ts:27-29 | an empty sorted list |
| SortedCowLists.SortedCowList.Length | examples/sorted-cow-list.ts:37-39 | the number of values |
| SortedCowLists.SortedCowList.ToArray | examples/sorted-cow-list.ts:41-43 | the values, sorted ascending |
| SortedCowLists.SortedCowList.Inserted | examples/sorted-cow-list.ts:49-55 | a new sorted list whose multiset is the receiver's plus `value`, with `value` spliced between the values at most it and those at least it |
| SortedCowLists.InsertionsCommute | examples/sorted-cow-list.ts:49-55 | inserting two values in either order gives the same list |

## Left out

- In-place update and aliasing: tree nodes are immutable values. The
  copy-on-write rule "change a node only when it is owned" is stated by
  `Shared` and the version stamps. Object identity is not modelled, so neither
  is the in-place write itself.
- Integer widths: counts, summaries, indexes and versions are unbounded
  naturals. The source's `u32` is not enforced, and neither is any overflow of
  JavaScript numbers.
- `null` and `undefined` are one absent case: `Null`, an empty `children`, or
  `Option.None`.
- The JavaScript iterator protocol (`[Symbol.iterator]`) and `toJSON` are not
  modelled. `next()` is modelled by the `Next` methods. The iterator that
  `fromIterable` consumes is a `ValueStream` over a sequence.
- `BtreeIterator.atEqual` is not part of this model. Its helper `ascendPrev`
  is modelled (`BtreeIter.AscendPrev`) as one of the iterator file's
  functions, although no modelled operation calls it.
- `CowList` (`src/core/list.ts`), the pathfinder type and `util/*` are not
  part of this model. The rope and the sorted list run over `AvlList`, and
  `lengthOf` is the weight parameter.
- Ordering values: `BinTreeIter` reads the pathfinder's -1/0/1 results as
  `Before`/`Equal`/`After`.
- AvlLists.AvlList.FromIterable: requires `len <= |vs|`. The source would read
  `undefined` values past the end of the iterable.
- AvlLists.AvlList.Apply: requires every operation to be well formed (one of
  the three constructors). An operation with an unknown tag is skipped in both
  the source and `ApplyOp`.
- BtreeNodes.Insert: requires `index <= count`. Past the end, the source's
  loop over children inserts nothing but still raises `count` and `summary`.
- BtreeNodes.Replace: requires `index < count`. Past the end, an internal
  node's loop changes nothing, while a leaf's array gains an entry past its
  end; neither is a substitution in the list.
- BtreeNodes.Delete: requires `index < count` and every leaf at one depth
  `h`. It returns `None` where the source reaches `merge(-1)`: a valueless
  parent with an underfull child. It also returns `None` when the separator's
  left child has no rightmost value (its rightmost leaf is empty), where the
  source writes `undefined` as the new separator. It also says nothing about node sizes
  staying within `minVals`..`maxVals` across a whole deletion; only the
  one-level `BalanceRestores` is proved.
- BtreeNodes.Insert: does not state that every node stays within `maxVals`
  values. Only the split step is specified.
- BtreeIter.BtreeIterator.AtFirst: requires a root without values or one
  whose every leaf holds a value. A leaf without values under an internal
  node would let `forth` stop on a missing value. On a root
  leaf without values, which is the source's empty tree, the model follows
  the corrected `atFirst` of "Findings".
- AvlLists.AvlList.Cow: the receiver keeps its version, so it still owns the
  nodes stamped with that version, and the derived list shares them. A later
  in-place `insert`, `delete`, `replace` or `apply` on the receiver writes into
  those nodes and so changes the derived list as well. For example, with
  `a = from([1, 2, 3])` and `b = a.inserted(0, 9)`, `a.replace(2, 7)` makes
  `b` read `[9, 1, 2, 7]`. The documentation of `cow`
  (src/avl/avl-list.ts:63-67) forbids mutating the receiver afterwards. The
  value model cannot show the effect: its `Replace` leaves `b` unchanged. The
  same holds for `Deleted`, `Inserted`, `Replaced` and `Applied`, which go
  through `cow`.
- CowRopes.Finder: JavaScript strings are sequences of UTF-16 code units, and
  `length` and `slice` count code units. Dafny's `string` is a sequence of
  Unicode scalar values. A character outside the Basic Multilingual Plane
  weighs 2 in the source and 1 in the model. The source can split such a
  character between its two code units at an offset inside it; the model has
  no such offset. The same holds for `PieceLength`, `CowRope.Length` and
  `CowRope.Inserted`. No proof depends on the element type.
- CowRopes.CowRope.Inserted: `index` is a natural. A negative index is not
  modelled.
- BinTreeIter.BinTreeIterator.Complete: keeps the path, as the source does.
  The iterator's validity therefore only requires `done` when the path is
  empty.

## Findings

| source | as written | input that shows it | evidently intended | confidence | as-written member | corrected member |
|---|---|---|---|---|---|---|
| src/avl/avl-node.ts:232-246 | the double rotation rotates the child `this.right` (or `this.left`) in place, though after a deletion that child may still belong to an older version | a version-`v0` tree with root `x2`, left leaf `x1`, and right node `x4` whose left child is the leaf `x3`; `delete(0)` at version `v1` rotates the old `x4` node in place, and version `v0` then reads `[x1, x2, x4]` | clone the child with `owned(ver)` before rotating it | not executed | AvlTree.BalanceAsWritten, AvlTree.BalanceAsWrittenChangesOldVersion | AvlTree.Balance |
| src/btree/btree-node.ts:155-169 | the separator branch writes `this.values[i]` instead of `self.values[i]`, deletes in the child at `this.version` instead of `ver`, and does not adjust `summary` for the separator it replaced | a parent over leaves `l` and `r` with separator `s`, deleting index `|l|`: `summary` is off by `w(s) - w(last of l)`; when the receiver is not owned, the old version loses a value and the new one keeps `s` | write into `self` and delete at `ver`; add `w(rightmost) - w(separator)` to `summary` | not executed | BtreeNodes.DeleteSeparatorAsWritten, BtreeNodes.DeleteSeparatorAsWrittenMiscounts | BtreeNodes.DeleteAtSeparator |
| src/btree/btree-node.ts:219-231 | `merge` clones the left child with `owned` but never stores the clone back into `children[i]` | a parent owned by `u` over a left leaf `l` at another version and a right leaf `r`: after `merge(0)` the sequence is just `l` | store the clone at `children[i]` | not executed | BtreeNodes.MergeAsWritten, BtreeNodes.MergeAsWrittenLosesValues | BtreeNodes.MergeValid |
| src/btree/btree-node.ts:254-273 | `rotateRight` clones both siblings but never stores the clones back | the left leaf `l` not owned by the parent: the sequence becomes `l + [last of l, s] + r` | store both clones at `children[i]` and `children[i + 1]` | not executed | BtreeNodes.RotateRightAsWritten, BtreeNodes.RotateRightAsWrittenDuplicates | BtreeNodes.RotateRightValid |
| src/btree/btree-node.ts:233-252 | `rotateLeft` clones both siblings but never stores the clones back | the right leaf `r` not owned by the parent: the sequence becomes `l + [s, first of r] + r` | store both clones at `children[i - 1]` and `children[i]` | not executed | BtreeNodes.RotateLeftAsWritten, BtreeNodes.RotateLeftAsWrittenDuplicates | BtreeNodes.RotateLeftValid |
| src/btree/btree-iterator.ts:17-22 | `atFirst` pushes any present root and descends from it, so on the empty tree, a root leaf without values (src/btree/btree-node.test.ts:15-18), the cursor is not done and its value is `values[0]` of an empty array | `atFirst(new BtreeNode([], null, v))`: `done` is false and `value` is `undefined`; the next `forth` sets `index` to 1 and adds `lengthOf(undefined)`, which is 1, to `summary` | a cursor over a tree without values is done, as `atFirst(null)` is | not executed | BtreeIter.BtreeIterator.AtFirstAsWritten, BtreeIter.AtFirstAsWrittenOnEmptyLeaf | BtreeIter.BtreeIterator.AtFirst |
| src/btree/btree-iterator.ts:222-231 | the `do … while` of `ascendPrev` tests `prev`, the entry it has just popped, rather than the entry left on top, and the final decrement may turn a 0 entry into -1 | a root `R` with values `[x]` over leaves `[a, b]` and `[c, d]`: from the cursor on `c` (path `[1, 0]`) both entries are popped and the path is empty, although `x` precedes `c`; from the cursor on `b` (path `[0, 1]`) the path becomes `[-1]` | pop while the entry on top is 0, then step that entry back | not executed | BtreeIter.AscendPrevAsWritten, BtreeIter.AscendPrevAsWrittenLosesCursor | BtreeIter.AscendPrev |
