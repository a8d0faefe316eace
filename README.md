# Unbalanced binary search tree of linked nodes

This project models `BinarySearchTree` and `Node` from the `com.janbabak.binarySearchTree`
package of Algorithms-Java. The tree is a `root` link into heap-allocated `Node`
objects. Each node has a `value`, `left` and `right` children and a `parent` back-link.
Insertion and deletion change these fields in place.

The model has four modules:

- `TreeSpec` (TreeSpec.dfy) is the tree as a value. `Tree`, the BST order `Ordered`, and the
  insertion and deletion algorithms are written as functions on it (`Insert`, `Delete`, `MinKey`,
  `DeleteMin`, `Height`, `InOrder`). The lemmas state what the tree promises at the level of keys.
- `Nodes` (Nodes.dfy) is the mutable `Node` class, with its constructor, getters and setters.
- `Shapes` (Shapes.dfy) sees the linked structure as a value. A `Shape` records which `Node`
  object sits at each position and which key it holds. `Mirrors(p, s, par)` says that the heap
  holds exactly that shape, including parent links, and `Distinct` says that no object occurs
  twice. A zipper of `Frame`s and `Plug` cuts a subtree out of the tree and puts it back; the
  in-place deletions need this.
- `Bst` (Bst.dfy) is the `BinarySearchTree` class. It has the `root` field and a ghost `shape`.
  `Valid()` says that the heap mirrors the shape, that the shape is a tree, and that its keys are
  in BST order. Every public operation is proved to keep `Valid()` and to compute the `TreeSpec`
  function on `Abstract(shape)`. The private helpers get the same kind of proof on the subtree
  they work on.

Keys are `int`. The Java classes are generic over a `Comparable` type; the model uses the order
of the integers for `compareTo`. `min()` and `max()` return `null` on an empty tree; in the model
they return `None`.

## Model

| member | source | states |
|---|---|---|
| Bst.BinarySearchTree.constructor | src/main/java/com/janbabak/binarySearchTree/BinarySearchTree.java:17-19 | a new tree is valid and holds no key |
| Bst.BinarySearchTree.Insert | src/main/java/com/janbabak/binarySearchTree/BinarySearchTree.java:25-27 | the tree stays a valid BST with parent links; its key set becomes old keys ∪ {value}; a non-empty tree keeps its root; the shape becomes `ShapeInsert` of the old one, so every old node keeps its place and key; the ghost n holds value afterwards; for an absent key n is the one new node, a leaf in the null slot at the bottom of the descent, its parent the slot's owner; an existing key leaves root and every node as they were |
| Bst.BinarySearchTree.Delete | src/main/java/com/janbabak/binarySearchTree/BinarySearchTree.java:33-35 | the tree stays a valid BST with parent links; its key set becomes old keys \ {value}; its value is `TreeSpec.Delete` of the old one; the shape becomes `ShapeDelete` of the old one, so every node but one keeps its place and key; a present key takes out exactly the node `UnlinkedNode` names and no node is added; a root that does not hold value stays the root; an absent key leaves root and every node as they were |
| Bst.BinarySearchTree.Contain | src/main/java/com/janbabak/binarySearchTree/BinarySearchTree.java:42-44 | true exactly when value is one of the tree's keys |
| Bst.BinarySearchTree.Empty | src/main/java/com/janbabak/binarySearchTree/BinarySearchTree.java:50-52 | true exactly when the key set is empty |
| Bst.BinarySearchTree.Max | src/main/java/com/janbabak/binarySearchTree/BinarySearchTree.java:58-64 | `None` exactly on an empty tree; otherwise a key of the tree that no key exceeds; the tree stays valid |
| Bst.BinarySearchTree.Min | src/main/java/com/janbabak/binarySearchTree/BinarySearchTree.java:70-76 | `None` exactly on an empty tree; otherwise a key of the tree that no key undercuts; the tree stays valid |
| Bst.BinarySearchTree.Height | src/main/java/com/janbabak/binarySearchTree/BinarySearchTree.java:82-84 | equals the height of the key-level tree; is 0 exactly when root is null; is at most the number of nodes |
| Bst.BinarySearchTree.FindByValue | src/main/java/com/janbabak/binarySearchTree/BinarySearchTree.java:91-93 | returns a node of the tree that holds value, and returns one exactly when value is a key; null otherwise |
| Bst.BinarySearchTree.InsertHelper | src/main/java/com/janbabak/binarySearchTree/BinarySearchTree.java:108-123 | the returned node is the old subtree root unless the subtree was empty, and roots `ShapeInsert(s, n, value)` under the same parent with parent links kept: the old nodes stay in place and the only new node n is hung at the null slot the descent reaches; n holds value; a key already present returns the same node and shape, and n is the node already holding it |
| Bst.BinarySearchTree.DeleteHelper | src/main/java/com/janbabak/binarySearchTree/BinarySearchTree.java:130-176 | the tree still mirrors the same path, with `ShapeDelete(s, value)` in place of the subtree: the descent's nodes keep their places, and the node holding value is replaced by nothing or its single child, or keeps its place with the successor's key when it has two children; at key level that is `TreeSpec.Delete(s, value)`, built from the subtree's own nodes; a subtree root that does not hold value stays its root; an absent key changes neither the subtree nor root |
| Bst.BinarySearchTree.DeleteWithTwoChildren | src/main/java/com/janbabak/binarySearchTree/BinarySearchTree.java:168-175 | for a node holding value with two children, swapping keys with the successor and deleting at the successor leaves `ShapeDelete(s, value)` in place: the node stays with the successor's key and the successor's node is spliced out; at key level `TreeSpec.Delete(s, value)` |
| Bst.BinarySearchTree.ExchangeWithSuccessor | src/main/java/com/janbabak/binarySearchTree/BinarySearchTree.java:171-173 | the node and its successor exchange their values; the heap then mirrors `SwapWithSuccessor(s)`, with the same objects in the same places |
| Bst.BinarySearchTree.Successor | src/main/java/com/janbabak/binarySearchTree/BinarySearchTree.java:221-239 | null for null; with a right subtree, the leftmost node of that subtree, which has no left child and holds its least key; otherwise the nearest ancestor reached from a left child, found by walking parent links; in an ordered tree that walk gives null exactly when no key exceeds the node's, and otherwise the node holding the least key above it |
| Bst.BinarySearchTree.GetMostLeft | src/main/java/com/janbabak/binarySearchTree/BinarySearchTree.java:246-259 | null for an empty subtree; otherwise the leftmost node, which has no left child and holds the least key |
| Bst.BinarySearchTree.GetMostRight | src/main/java/com/janbabak/binarySearchTree/BinarySearchTree.java:266-278 | null for an empty subtree; otherwise the rightmost node, which has no right child and holds the greatest key |
| Bst.BinarySearchTree.HeightHelper | src/main/java/com/janbabak/binarySearchTree/BinarySearchTree.java:285-299 | the recursion over the linked nodes gives the height of the key-level subtree |
| Bst.BinarySearchTree.FindByValueHelper | src/main/java/com/janbabak/binarySearchTree/BinarySearchTree.java:184-199 | the search returns a node of the subtree holding value, and returns one exactly when the descent finds value |
| Bst.BinarySearchTree.DeleteLeaf | src/main/java/com/janbabak/binarySearchTree/BinarySearchTree.java:305-321 | exactly the parent's slot that held the leaf becomes null, or root becomes null; the parent's other fields are kept; the tree mirrors the path with an empty hole |
| Bst.BinarySearchTree.DeleteNodeWithLeftDescendant | src/main/java/com/janbabak/binarySearchTree/BinarySearchTree.java:327-345 | the left child takes the node's slot in its parent, or becomes root; its parent link is the node's old parent (null at the root); the tree mirrors the path with the child's subtree in the hole |
| Bst.BinarySearchTree.DeleteNodeWithRightDescendant | src/main/java/com/janbabak/binarySearchTree/BinarySearchTree.java:351-369 | the same with the right child |
| Nodes.Node.constructor | src/main/java/com/janbabak/binarySearchTree/Node.java:33-38 | stores the given value and parent; both children are null |
| Nodes.Node.GetValue | src/main/java/com/janbabak/binarySearchTree/Node.java:44-46 | reads only `value` and returns it |
| Nodes.Node.SetValue | src/main/java/com/janbabak/binarySearchTree/Node.java:52-54 | may change only `value`, which becomes the argument; the other three fields are kept |
| Nodes.Node.GetLeft | src/main/java/com/janbabak/binarySearchTree/Node.java:60-62 | reads only `left` and returns it |
| Nodes.Node.SetLeft | src/main/java/com/janbabak/binarySearchTree/Node.java:68-70 | may change only `left`; the other three fields are kept |
| Nodes.Node.GetRight | src/main/java/com/janbabak/binarySearchTree/Node.java:76-78 | reads only `right` and returns it |
| Nodes.Node.SetRight | src/main/java/com/janbabak/binarySearchTree/Node.java:84-86 | may change only `right`; the other three fields are kept |
| Nodes.Node.GetParent | src/main/java/com/janbabak/binarySearchTree/Node.java:92-94 | reads only `parent` and returns it |
| Nodes.Node.SetParent | src/main/java/com/janbabak/binarySearchTree/Node.java:100-102 | may change only `parent`; the other three fields are kept |
| TreeSpec.ContainsIffKey | src/main/java/com/janbabak/binarySearchTree/BinarySearchTree.java:184-199 | on an ordered tree, the left/right descent finds v exactly when v is a key |
| TreeSpec.InsertKeys | src/main/java/com/janbabak/binarySearchTree/BinarySearchTree.java:108-123 | insertion adds exactly v to the key set |
| TreeSpec.InsertOrdered | src/main/java/com/janbabak/binarySearchTree/BinarySearchTree.java:108-123 | insertion keeps the BST order |
| TreeSpec.InsertFoundIsNoop | src/main/java/com/janbabak/binarySearchTree/BinarySearchTree.java:21-27 | inserting a key that is already present returns the same tree |
| TreeSpec.InsertNotFoundGrows | src/main/java/com/janbabak/binarySearchTree/BinarySearchTree.java:108-112 | inserting an absent key adds exactly one node |
| TreeSpec.MinKeyIsLeast | src/main/java/com/janbabak/binarySearchTree/BinarySearchTree.java:246-259 | the leftmost key of an ordered tree is a key, and is at most every key |
| TreeSpec.MaxKeyIsGreatest | src/main/java/com/janbabak/binarySearchTree/BinarySearchTree.java:266-278 | the rightmost key of an ordered tree is a key, and is at least every key |
| TreeSpec.SuccessorIsNextKey | src/main/java/com/janbabak/binarySearchTree/BinarySearchTree.java:226-229 | the leftmost key of the right subtree is the smallest key of the tree greater than the node's key |
| TreeSpec.DeleteMinKeys | src/main/java/com/janbabak/binarySearchTree/BinarySearchTree.java:351-369 | splicing out the leftmost node, which has no left child, removes exactly the least key and keeps the order |
| TreeSpec.DeleteKeys | src/main/java/com/janbabak/binarySearchTree/BinarySearchTree.java:130-176 | on an ordered tree, deletion removes exactly v from the key set |
| TreeSpec.DeleteOrdered | src/main/java/com/janbabak/binarySearchTree/BinarySearchTree.java:130-176 | deletion keeps the BST order |
| TreeSpec.DeleteAbsentIsNoop | src/main/java/com/janbabak/binarySearchTree/BinarySearchTree.java:29-35 | deleting a key that is not present returns the same tree |
| TreeSpec.SwapBreaksThenRestoresOrder | src/main/java/com/janbabak/binarySearchTree/BinarySearchTree.java:168-175 | right after the value swap the tree is not ordered; splicing out the successor then gives exactly `Delete`'s result, which is ordered |
| TreeSpec.HeightAtMostSize | src/main/java/com/janbabak/binarySearchTree/BinarySearchTree.java:285-299 | the height is at most the number of nodes, and at least 1 for a non-empty tree |
| TreeSpec.InsertGreatestExtendsChain | src/main/java/com/janbabak/binarySearchTree/BinarySearchTree.java:118-120 | inserting a key above every key of a right chain adds one layer and keeps the chain |
| TreeSpec.IncreasingInsertsGiveChain | src/test/java/com/janbabak/binarySearchTree/BinarySearchTreeTest.java:205-212 | inserting strictly increasing keys into an empty tree gives a height equal to their number |
| TreeSpec.InOrderSorted | src/main/java/com/janbabak/binarySearchTree/BinarySearchTree.java:205-214 | the in-order visit of an ordered tree lists each key once, in strictly ascending order |
| TreeSpec.InsertAllKeys | src/test/java/com/janbabak/binarySearchTree/BinarySearchTreeTest.java:58-65 | inserting a list keeps the order and adds exactly its elements |
| TreeSpec.DeleteAllKeys | src/test/java/com/janbabak/binarySearchTree/BinarySearchTreeTest.java:96-111 | deleting a list keeps the order and removes exactly its elements |
| TreeSpec.InsertThenDeleteAllIsEmpty | src/test/java/com/janbabak/binarySearchTree/BinarySearchTreeTest.java:67-91 | inserting a list into an empty tree and deleting it, in the same or the reverse order, gives an empty tree |
| TreeSpec.RepeatedInsertSingleDelete | src/test/java/com/janbabak/binarySearchTree/BinarySearchTreeTest.java:42-53 | inserting one key three times gives a single node, and one deletion empties the tree |
| TreeSpec.Example | src/test/java/com/janbabak/binarySearchTree/BinarySearchTreeTest.java:178 | for keys 5, 3, 2, 1, 6, 10, 9 the tree finds 9, has height 4, least key 1 and greatest 10; deleting 5, a node with two children, leaves 1, 2, 3, 6, 9, 10 in order |
| Shapes.LeftmostIsMin | src/main/java/com/janbabak/binarySearchTree/BinarySearchTree.java:246-259 | the node the leftmost walk reaches is in the subtree and holds its leftmost key |
| Shapes.ShapeInsertFacts | src/main/java/com/janbabak/binarySearchTree/BinarySearchTree.java:108-123 | insertion in place computes `TreeSpec.Insert` on the keys; a present key leaves the shape as it is; for an absent key the old shape is the descent path with an empty slot at its bottom, the new shape is that path with the new node in the slot, and exactly that node is added |
| Shapes.NewNodeAtSlot | src/main/java/com/janbabak/binarySearchTree/BinarySearchTree.java:110-111 | in a heap mirroring the shape after inserting an absent key, the new node holds the key, has no children, sits in the slot at the bottom of the descent, and its parent is that slot's owner |
| Shapes.SwapWithSuccessorFacts | src/main/java/com/janbabak/binarySearchTree/BinarySearchTree.java:169-173 | the value swap keeps the objects and their places; the successor node now holds the old key; at key level the node takes the least key of its right subtree |
| Shapes.SuccessorPathFacts | src/main/java/com/janbabak/binarySearchTree/BinarySearchTree.java:169-174 | after the swap the successor sits at the bottom of the path right-then-left, holds the deleted key, and roots a smaller subtree, so the recursive delete terminates |
| Shapes.DeleteAtSuccessor | src/main/java/com/janbabak/binarySearchTree/BinarySearchTree.java:174 | deleting the key at the successor and putting the result back removes the key from the whole subtree and uses no outside object |
| Shapes.SuccessorSplice | src/main/java/com/janbabak/binarySearchTree/BinarySearchTree.java:168-175 | after the swap, deleting at the successor leaves its right subtree, and putting that back at the bottom of the successor path is `ShapeDelete` at the node: the node keeps its place with the successor's key |
| Shapes.ShapeDeleteMinFacts | src/main/java/com/janbabak/binarySearchTree/BinarySearchTree.java:351-369 | splicing out the leftmost node computes `TreeSpec.DeleteMin`, is the left spine with that node's right subtree in its place, and removes exactly that node |
| Shapes.ShapeDeleteFacts | src/main/java/com/janbabak/binarySearchTree/BinarySearchTree.java:130-176 | deletion in place computes `TreeSpec.Delete` on the keys and keeps the nodes distinct; an absent key leaves the shape as it is; a present key removes exactly the node `UnlinkedNode` names, which is a node of the tree, and no other |
| Shapes.PlugKeys | src/main/java/com/janbabak/binarySearchTree/BinarySearchTree.java:231-237 | in an ordered tree, a subtree on a path is ordered, its keys are keys of the tree, and every other key lies below all of them or above all of them |
| Shapes.NearestLeftValue | src/main/java/com/janbabak/binarySearchTree/BinarySearchTree.java:234-238 | in the heap, the nearest ancestor reached from a left child holds the key recorded for it on the path |
| Shapes.NearestLeftIsNextKey | src/main/java/com/janbabak/binarySearchTree/BinarySearchTree.java:231-238 | in an ordered tree, no ancestor of a subtree is reached from a left child exactly when no key exceeds the subtree's greatest key; otherwise the nearest such ancestor holds the least key above it |

## Left out

- `printInOrder` and `printInOrderHelper` (BinarySearchTree.java:98-100, 205-214) write to standard output. Only the order they visit the keys in is modelled, as `TreeSpec.InOrder`.
- Generic keys: `T extends Comparable` becomes `int`, and `compareTo` becomes integer comparison. The tests with `String` and `Double` keys are not modelled.
- Java's 32-bit `int` in `heightHelper` is unbounded in the model. The height is at most the number of nodes (`TreeSpec.HeightAtMostSize`), so it cannot overflow with any tree that fits in memory.
- Recursion depth and stack use are not observable in the model.
- The `successor != null` test at BinarySearchTree.java:170 is always true. `deleteHelper` calls `successor` only on a node with a right child. The model proves this branch unreachable and does not model it.
- Bst.BinarySearchTree.DeleteLeaf: specified only for a childless node of the tree. That is the only way `deleteHelper` calls it; on a node with children the Java method would also cut off the node's subtrees.
- Bst.BinarySearchTree.DeleteNodeWithLeftDescendant: specified only for a node of the tree whose only child is on the left, which is how `deleteHelper` calls it. On a node without a left child the Java method fails with a null dereference.
- Bst.BinarySearchTree.DeleteNodeWithRightDescendant: specified only for a node of the tree whose only child is on the right, for the same reason.
- Bst.BinarySearchTree.Successor: the upward walk over parent links is specified for a node that hangs at the bottom of a known path from the root. `deleteHelper` never reaches this branch.
- `null` keys: in Java, `insert(null)` on an empty tree stores `null` as the root's value (BinarySearchTree.java:110-111), after which `min()` and `max()` return `null`; on a non-empty tree a `null` key fails with a null dereference at `compareTo` (BinarySearchTree.java:114, 137, 190). `int` keys have no `null`, so neither behaviour is modelled.
- The private helpers take the shape of the subtree they work on, and its path from the root, as ghost parameters. They exist only for the proof and do not change what the helpers compute.
