# BinarySearchTree in Dafny

A model of the `BinarySearchTree` class of `BST.js` and of the free function
`findBSTHeight`. The class is an unbalanced binary search tree mapping keys to
values. It offers `insert`, `find` and `remove`, and two helpers: `_replaceWith`
splices a node out and `_findMin` finds the leftmost node. The model has two layers.

* `BinarySearchTree` (bst.dfy) is an immutable tree, `Empty | Node(left, key,
  value, right)`. Each operation returns the new tree, so a subtree always moves
  as a whole. This is the behaviour the source intends. The proofs about it are
  in `FindLemmas`, `InsertLemmas`, `RemoveLemmas` and `Height`. They are stated
  against the tree's key multiset, its in-order sequence, and the reference
  operations on sorted pair sequences in `Assoc` (assoc.dfy).
* `Linked` (linked.dfy) models the source's object graph literally. Each object
  has an identity and `key`, `value`, `parent`, `left`, `right` fields, and the
  operations update objects in place. It exists to exhibit one defect of
  `_replaceWith` (see "## Findings"). It also holds a corrected `_replaceWith`,
  proved to keep parent links consistent. `StaleParent` (stale_parent.dfy)
  works through the call sequence that shows the defect.

Keys are integers and values are generic. The source compares keys with
JavaScript's `<`. Equal keys are sent right, so duplicates are kept. The
invariant maintained is therefore "left keys < node key <= right keys". `find`
returns the value of the first node on the search path with that key, and
`remove` deletes that node's pair. A missing key makes both throw "Key Error",
modelled as `KeyError`. Duplicates are kept, as the code keeps them; a map
that overwrote or rejected them would behave differently.

## Model

| member | source | states |
|---|---|---|
| BinarySearchTree.Insert | BST.js:11-43 | insert always yields a node, and adds exactly one copy of the key to the tree's key multiset |
| BinarySearchTree.Find | BST.js:45-68 | a successful find only returns when the key is in the tree |
| BinarySearchTree.Remove | BST.js:70-98 | remove succeeds exactly when find succeeds on the same key, so both throw on the same keys |
| BinarySearchTree.Splice | BST.js:100-124 | replacing a node that has at most one child leaves nothing exactly when it was a leaf; it leaves its left then right in-order run in its place, removes one copy of its key, and keeps the order invariant |
| BinarySearchTree.FindMin | BST.js:126-131 | the node reached by following left links has no left child and carries the first pair of the in-order sequence |
| BinarySearchTree.DetachMin | BST.js:76 | removing the successor from its subtree deletes exactly the first in-order pair |
| BinarySearchTree.InOrderSorted | BST.js:17-42 | an in-order walk of a tree satisfying the invariant lists keys in non-decreasing order |
| FindLemmas.FindIsFirstInOrder | BST.js:45-68 | on an ordered tree, find returns the value of the first pair with that key in in-order |
| FindLemmas.FindFailsIffAbsent | BST.js:64-67 | on an ordered tree, find throws if and only if the key is absent |
| InsertLemmas.InsertFillsOneSlot | BST.js:26-41 | insert only fills one missing child slot with a new leaf and leaves every existing node's key, value and other link unchanged |
| InsertLemmas.InsertOrdered | BST.js:17-42 | insert keeps the order invariant, with equal keys going right |
| InsertLemmas.InsertInOrder | BST.js:11-43 | in in-order, the new pair lands after every key not above it and before every larger key, and all other pairs keep their order |
| InsertLemmas.FindAfterInsertFresh | BST.js:26-41 | after inserting a key find could not locate, find returns the new value |
| InsertLemmas.FindAfterInsertExisting | BST.js:34-41 | re-inserting a key leaves find's answer unchanged, because the duplicate goes below the match on the right |
| InsertLemmas.FindAfterInsertOther | BST.js:11-43 | inserting one key never changes find's answer for another key |
| RemoveLemmas.FindMinIsMinimum | BST.js:126-131 | on an ordered tree, the leftmost node carries the smallest key |
| RemoveLemmas.DetachMinKeys | BST.js:76 | removing the successor takes away exactly one copy of its key |
| RemoveLemmas.DetachMinOrdered | BST.js:76 | removing the successor keeps the order invariant |
| RemoveLemmas.DetachMinIsRemove | BST.js:73-76 | on an ordered tree, successor.remove(successor.key) is the same as an ordinary removal of the minimum key from the subtree |
| RemoveLemmas.RemoveKeys | BST.js:70-98 | a successful remove takes away exactly one copy of the key |
| RemoveLemmas.RemoveOrdered | BST.js:72-90 | remove keeps the order invariant, including the two-child case where the successor moves up |
| RemoveLemmas.RemoveInOrder | BST.js:70-98 | on an ordered tree, remove deletes from in-order exactly the first pair with the key (the pair find returns) and keeps every other pair in order |
| RemoveLemmas.RemoveFailsIffAbsent | BST.js:95-97 | on an ordered tree, remove throws if and only if the key is absent |
| RemoveLemmas.FindAfterRemoveOther | BST.js:70-98 | removing a key leaves every other key findable, with the value it had |
| RemoveLemmas.FindAfterRemoveLast | BST.js:70-98 | removing the only copy of a key makes find throw on it |
| Height.FindBSTHeight | BST.js:177-190 | the height is -1 exactly for a missing tree, and lies between -1 and the node count minus one |
| Height.HeightIsDeepestLevel | BST.js:177-190 | the height of a node is the depth of its deepest descendant: some node sits that deep and none deeper |
| Height.SizeBound | BST.js:177-190 | a tree of height h holds at most 2^(h+1) - 1 nodes |
| Height.InsertHeight | BST.js:11-43 | an insert grows the height by at most one and never shrinks it |
| Examples.InsertAll | BST.js:136-144 | inserting a sequence of pairs into an ordered tree gives an ordered tree, and adds exactly their keys |
| Examples.Build | BST.js:136-144 | inserting any sequence of pairs into an empty tree gives an ordered tree holding exactly their keys |
| Examples.DemoShape | BST.js:136-144 | inserting 3, 1, 4, 6, 9, 2, 5, 7 gives the written-out tree, whose height is 4 |
| Examples.DemoFind | BST.js:45-68 | in that tree, find(6) returns 6's value |
| Examples.DemoFindMissing | BST.js:64-67 | in that tree, find(8) throws |
| Examples.DemoRemove | BST.js:81-84 | remove(4), where 4 has only a right child, splices 6 into its place |
| Examples.DemoAfterRemove | BST.js:64-67 | on the tree remove(4) leaves, find(4) throws |
| Examples.DemoRemoveMissing | BST.js:95-97 | remove(8) throws |
| Examples.TwoChildRootRemoval | BST.js:72-76 | removing a root with two children moves the successor's pair into the root |
| Examples.DuplicateKey | BST.js:34-41 | a duplicate key goes right; find answers with the first copy, and remove deletes that copy first |
| Examples.EmptyAgain | BST.js:117-122 | removing the key of a childless root empties the tree; insert then makes a new root; on the empty tree find and remove throw |
| Examples.RootSpliceThenRemove | BST.js:112-116 | on insert 5, 3, 1, then remove 5, then remove 1, the tree model leaves only 3, and find(1) throws |
| Linked.New | BST.js:2-9 | the constructor makes object 0 with the given key and value, no parent and no children |
| Linked.Insert | BST.js:11-43 | insert on the object graph never drops an object |
| Linked.Find | BST.js:45-68 | find on the object graph only returns when some object carries the key |
| Linked.FindMin | BST.js:126-131 | _findMin returns an object with no left child that is reached from `self` by following left links, so the leftmost object below `self` |
| Linked.ReplaceWith | BST.js:100-124 | _replaceWith as written allocates and drops no object; below the root it is the relink; at the root with a `node` the root object takes `node`'s key, value and children and keeps its own `parent`, while every other object, the children included, is left unchanged, so their `parent` still names `node`; at the root with `null` the root's key, value and children are cleared |
| Linked.Relink | BST.js:101-110 | below the root, _replaceWith succeeds exactly when the parent and `node` exist; the parent's link that held `self` now holds `node`, its other link is kept, its key and value are kept, `node`'s parent becomes that parent with its other fields kept, and no other object changes |
| Linked.ReplaceWithAtRootLeavesStaleParent | BST.js:112-116 | at the root of a consistently linked tree, when the replacement has a child, the root now holds that child while its `parent` still names the replacement, so under no ranking is the result consistently linked |
| Linked.ReplaceWithLinked | BST.js:100-124 | the corrected _replaceWith allocates no object and never adds one to the map |
| Linked.Remove | BST.js:70-98 | remove on the object graph allocates no object and never adds one to the map |
| Linked.ReplaceWithLinkedKeepsLinks | BST.js:100-124 | called as remove calls it, the corrected _replaceWith keeps every parent link in agreement with the child links: each child's parent holds it, and links form no cycle |
| StaleParent.InsertsBuildChain | BST.js:11-43 | inserting 5, 3, 1 into a new tree builds a left chain whose parent links are consistent |
| StaleParent.AsWrittenRemovalIsLost | BST.js:112-116 | with _replaceWith as written, after remove(5) the root's child still names the detached object as its parent, and after remove(1) find(1) still returns 1's value |
| StaleParent.CorrectedRemovalTakesEffect | BST.js:112-116 | with the corrected _replaceWith, the same calls leave only 3, and find(1) throws |
| StaleParent.InsertsBuildTree5324 | BST.js:11-43 | inserting 2 and 4 after 5, 3 puts them below 3 on the left and right |
| StaleParent.AsWrittenDuplicatesKey | BST.js:72-76 | with _replaceWith as written, after insert 5, 3, 2, 4, remove(5), remove(3), key 4 is held both by the root and by the root's right child |
| StaleParent.CorrectedKeepsOneCopy | BST.js:72-76 | with the corrected _replaceWith, the same calls leave 4 once, at the root, with 2 as its left child, and find(4) returns 4's value |

## Findings

| source | as written | input that shows it | evidently intended | confidence | as-written member | corrected member |
|---|---|---|---|---|---|---|
| BST.js:112-116 | At the root, `_replaceWith(node)` copies `node.left` and `node.right` into the root object. Those children keep `parent == node`, and `node` is no longer in the tree. | insert 5, 3, 1; remove(5); remove(1). The second remove unlinks 1 from the detached object, so find(1) still returns 1's value. Also insert 5, 3, 2, 4; remove(5); remove(3). The successor 4 is copied into the root and then unlinked only from the detached object, so 4 is in the tree twice. | The copied children are re-parented to the root, so every parent link names the node's true parent, remove(1) takes effect, and remove(3) leaves one copy of 4. | not executed | StaleParent.AsWrittenRemovalIsLost | Linked.ReplaceWithLinkedKeepsLinks |

`Linked.Remove` takes a flag that selects `_replaceWith` as written or corrected.
`Linked.ReplaceWithAtRootLeavesStaleParent` states the defect for every
consistently linked tree whose root is replaced by a node with a child.
`StaleParent.AsWrittenDuplicatesKey` shows the second input.
`StaleParent.CorrectedRemovalTakesEffect` and `StaleParent.CorrectedKeepsOneCopy`
work through the same calls with the correction. The tree model in `BinarySearchTree` has no parent links to go
stale: it moves subtrees as a whole, which is the corrected behaviour. The
`BinarySearchTree`, `FindLemmas`, `InsertLemmas`, `RemoveLemmas`, `Height` and
`Examples` rows of the "## Model" table are proved about that behaviour; the
`Linked` and `StaleParent` rows are about the object graph, some of them about
`_replaceWith` as written.

## Left out

- `isBST` (BST.js:196-210) returns `left && right`, names that are not defined there. `isBalanced` (BST.js:216-232) and the value-summing `tree` (BST.js:164-169) are also left out. These are exercise functions outside the class.
- The driver code (BST.js:136-160, 235-245) is left out. It inserts keys without values. `Examples.Demo` stores ten times the key as each value, so that lookups have something to return. The string-keyed tree `BST2` is left out, because keys here are integers.
- The `root` field (BST.js:8, 16) is left out. It is written once and never read.
- JavaScript's loose `==`, comparisons across mixed key types, and `null` or `undefined` keys passed to `find` or `remove` are not modelled. Keys are integers. In the tree model, a root whose key is still `null` is `Empty`. `Linked.Num` reads a `null` key as 0 in `<` and `>`, as JavaScript does.
- The text of the thrown error is not modelled. A throw is the `KeyError` result in the tree model and `Thrown` in `Linked`.
- `BinarySearchTree.Find` and `BinarySearchTree.Remove` do not check the source's `this.left` and `this.right` guards separately. Descending into `Empty` yields `KeyError`, which is the same outcome as the source's final `else`.
- Height.FindBSTHeight: for the handle of an empty tree (a root object whose key is `null`), the source returns 0. The object itself is not `null`, and both its children are. The model represents that handle as `Empty`, which gets -1, the value the source gives for `null`.
- Linked.Insert: the contract only says no object is dropped. Its behaviour is pinned down on the concrete calls in `StaleParent`. No general correspondence between the object graph and the tree model is proved.
- Linked.Find: the contract only says a result means some object carries the key. There is no general correspondence with `BinarySearchTree.Find`.
- Linked.Remove: the contract only says no object is allocated. Fuel exhaustion, dangling references, and a successor without a key all end in `Stuck`. Trees built by `insert` reach none of these, given fuel greater than the tree's depth.
- Linked.ReplaceWithLinked: besides re-parenting the copied children, the corrected version drops objects that nothing refers to any more. This stands in for garbage collection, and JavaScript code cannot observe it.
- RemoveLemmas.RemoveKeys: proved for the tree model, which moves subtrees as a whole. The source as written does not keep this promise: after insert 5, 3, 2, 4, remove(5), remove(3), key 4 is in the tree twice (`StaleParent.AsWrittenDuplicatesKey`, see "## Findings").
- RemoveLemmas.FindAfterRemoveLast: proved for the tree model. The source as written does not keep this promise: after insert 5, 3, 1, remove(5), remove(1), find(1) still returns 1's value (`StaleParent.AsWrittenRemovalIsLost`, see "## Findings").
- RemoveLemmas.RemoveInOrder: proved for the tree model. The source as written does not keep this promise: on the same calls, remove(1) succeeds but 1 stays in the live tree's in-order walk (`StaleParent.AsWrittenRemovalIsLost`), and in the second "## Findings" input remove(3) leaves 4 in it twice (`StaleParent.AsWrittenDuplicatesKey`).
- The tree model does not reproduce the stale parent links left by a root splice (BST.js:112-116). It has no parent links; `Linked` reproduces them (see "## Findings").
- RemoveLemmas.FindAfterRemoveLast: proved for the tree model. The source as written does not keep this promise: after insert 5, 3, 1, remove(5), remove(1), find(1) still returns 1's value (`StaleParent.AsWrittenRemovalIsLost`, see "## Findings").
- RemoveLemmas.RemoveInOrder: proved for the tree model. The source as written does not keep this promise: on the same calls, remove(1) succeeds but 1 stays in the live tree's in-order walk (`StaleParent.AsWrittenRemovalIsLost`), and in the second "## Findings" input remove(3) leaves 4 in it twice (`StaleParent.AsWrittenDuplicatesKey`).
- Object identity, in-place mutation and aliasing of tree handles are not modelled in the tree model. Every operation returns the new tree instead.
