# Binary search tree and linked stack, modelled in Dafny

This project models the two containers of the `algorithms` repository:

- `BinaryTree<T>` (src/binarytree.rs), an unbalanced binary search tree with
  set semantics. `insert` descends by comparison and fills an empty root,
  hangs a new leaf, or rejects a duplicate with the stored value. `remove`
  descends by comparison and, at the matched node, either empties a leaf,
  lets a node with one child adopt that child's value and subtrees, or, for
  a node with two children, promotes the largest value of the left subtree
  through `collapse_rightmost`. Every recursive step ends with `prune`, which
  clears the child slots whose node holds no value.
- `Stack<T>` (src/stack.rs), a singly linked LIFO stack with `push` and `pop`.

## How the model is built

A tree node owns its children, so a node is the value datatype
`Trees.Tree(val, left, right)` with exactly the three fields of the Rust
struct. Each `&mut self` method on a node is a function from the node before
the call to a `Step(ret, tree)`: what the call returns and the node it leaves
behind (`Trees.Insert`, `Trees.Remove`, `Trees.CollapseRightmost`,
`Trees.Prune`; `Trees.Reshape` is the three-way reshaping inside `remove`).
The branches, the `prune` calls (including the one on the failure path of
`remove`) and the returned values follow the Rust code line by line. The
object a caller holds is the class `BinaryTrees.BinaryTree`, whose field
`root` is replaced by `Insert` and `Remove`. The element type `T: Ord + Copy`
is `int`, so `cmp` answering `Equal` means equal values, and the "stored
value" returned by a failed `insert` is the argument itself.

The abstract view of a tree is the set `Values(t)`. `Valid(t)` is the shape
every tree has between calls: strictly ordered, no valueless node in a child
slot, and a valueless root has no children. `new` establishes it and both
operations keep it.

`prune` looks only at a child's own value, not at whether the child still has
children, and `collapse_rightmost` leaves the rightmost node valueless but
still holding its left subtree. So when a node with two children is removed
and its in-order predecessor has a left subtree, that subtree is pruned away
with the emptied predecessor node. The model keeps this behaviour:
`TreeRemove.RemovePresent` states exactly which values a successful `remove`
takes out (the argument plus `DroppedByRemove`, the values below the
predecessor's left slot), `TreeRemove.RemoveExactlyOne` shows that exactly one
value goes when the predecessor has no left subtree, and
`TreeRemove.RemoveLosesPredecessorLeft` is a concrete tree where a value is
lost. A removal therefore does not always shrink the tree by exactly one
value; the model follows the code there.

The stack's chain is the datatype `Stacks.StackNode(val, next)`; the class
`Stacks.Stack` holds `top`, and `Contents()` reads the chain as a sequence
from top to bottom.

The `#[test]` functions are rendered as client methods
(`BinaryTrees.InsertScenario`, `BinaryTrees.RemoveRecursiveCollapseScenario`,
`Stacks.PushPopIntegersScenario`, ...), whose assertions follow from the
contracts of the methods they call.

## Model

| member | source | states |
|---|---|---|
| `Trees.New` | src/binarytree.rs:11-17 | the new tree is well formed, holds no value and has no value-holding node |
| `Trees.Leaf` | src/binarytree.rs:39-41 | the node created for a value in an empty slot is well formed, holds exactly that value, and is where the search for it ends |
| `Trees.Insert` | src/binarytree.rs:22-50 | insert either succeeds with its argument or fails with the equal stored value and leaves the node exactly as it was |
| `Trees.Prune` | src/binarytree.rs:131-148 | prune never changes the node's value, keeps every child that holds a value, and leaves no valueless child in a slot |
| `Trees.CollapseRightmost` | src/binarytree.rs:118-128 | returns the value of the rightmost node and never adds a value |
| `Trees.Reshape` | src/binarytree.rs:78-103 | the reshaping of the matched node never introduces a value the node's subtrees did not hold |
| `Trees.Remove` | src/binarytree.rs:54-116 | remove succeeds or fails with its argument, succeeds only when the argument is held, and never adds a value |
| `TreeInsert.InsertIntoEmpty` | src/binarytree.rs:24-27 | inserting into an empty tree stores the value at the root and returns `Ok` of it |
| `TreeInsert.InsertFresh` | src/binarytree.rs:29-49 | inserting an absent value returns `Ok` of it, adds exactly that value and keeps the tree ordered and well formed |
| `TreeInsert.InsertDuplicate` | src/binarytree.rs:30-46 | inserting a held value returns `Err` of it and leaves the tree unchanged, also when the match is deep in the tree |
| `TreeInsert.InsertFailsIffPresent` | src/binarytree.rs:19-50 | insert fails if and only if the value is already held; in both cases the resulting values are the old ones plus the argument |
| `TreeInsert.InsertTwiceFails` | src/binarytree.rs:160-170 | a second insert of the same value always fails and leaves the tree as the first insert left it |
| `TreeInsert.InsertKeepsNodes` | src/binarytree.rs:36-47 | insert keeps every value-holding node at its position with its value |
| `TreeInsert.InsertAddsOneLeaf` | src/binarytree.rs:36-42 | a successful insert adds exactly one value-holding node, a leaf, at the position the comparisons for the value lead to |
| `TreeRemove.PruneIdempotent` | src/binarytree.rs:131-148 | a second prune changes nothing, and prune never adds a value |
| `TreeRemove.PruneKeepsFilledNode` | src/binarytree.rs:131-148 | prune leaves a node whose children all hold values unchanged |
| `TreeRemove.RightmostIsMaximum` | src/binarytree.rs:119-123 | in an ordered tree the rightmost node holds the largest value, which is not in that node's left subtree |
| `TreeRemove.CollapseRightmostTakesMaximum` | src/binarytree.rs:119-128 | collapse returns the maximum, removes it, and removes the rightmost node's left subtree as well exactly when that node is below the call's node; the result stays ordered and the call's left subtree is untouched |
| `TreeRemove.RemoveMatchedLeaf` | src/binarytree.rs:79-83 | removing the value of a node without children returns it and leaves a fully empty node |
| `TreeRemove.RemoveMatchedOneChild` | src/binarytree.rs:85-90 | removing the value of a node with one child returns it and leaves that child in the node's place |
| `TreeRemove.PromoteRightmost` | src/binarytree.rs:94-102 | the two-children reshaping promotes the largest value of the left subtree, keeps the right subtree, and keeps all values except the predecessor's left subtree |
| `TreeRemove.RemoveMatchedTwoChildren` | src/binarytree.rs:92-107 | removing the value of a node with two children returns it, promotes the maximum of the left subtree, keeps the right subtree untouched, and stays well formed |
| `TreeRemove.RemoveFailureIsAtomic` | src/binarytree.rs:55-73 | on a tree without valueless children, removing an absent value fails with it, and every failure leaves the tree unchanged |
| `TreeRemove.RemovePresent` | src/binarytree.rs:60-115 | removing a held value returns `Ok` of it, keeps the tree well formed, and takes out exactly that value and the values below its predecessor's left slot |
| `TreeRemove.RemoveLeavesSubset` | src/binarytree.rs:105-115 | whatever remove returns, the values afterwards are a subset of the old values without the argument |
| `TreeRemove.RemoveExactlyOne` | src/binarytree.rs:94-101 | when the predecessor has no left subtree, a successful remove takes out exactly the argument and one value-holding node |
| `TreeRemove.RemoveThenReinsert` | src/binarytree.rs:259-270 | after a successful remove, removing the value again fails and inserting it again succeeds |
| `TreeRemove.RemoveLosesPredecessorLeft` | src/binarytree.rs:99-101 | removing 5 from the tree 5 (3 (1, -), 8) leaves 3 (-, 8): the value 1 is lost |
| `BinaryTrees.BinaryTree.constructor` | src/binarytree.rs:11-17 | a new tree object is well formed and holds nothing |
| `BinaryTrees.BinaryTree.Insert` | src/binarytree.rs:22-50 | updates the root in place: `Ok` exactly for an absent value, `Err` and no change for a held one, the value set grows by the argument, and on success one node is added and all old nodes are kept |
| `BinaryTrees.BinaryTree.Remove` | src/binarytree.rs:54-116 | updates the root in place: `Ok` exactly for a held value, `Err` and no change otherwise, the new value set is the old one without the argument and the dropped values, and exactly one value goes when the predecessor has no left subtree |
| `Stacks.NewNode` | src/stack.rs:14-18 | a new node is a chain of exactly its value |
| `Stacks.Stack.constructor` | src/stack.rs:21-23 | a new stack is empty |
| `Stacks.Stack.Push` | src/stack.rs:25-30 | the pushed value is on top and the previous elements are beneath it unchanged and in order |
| `Stacks.Stack.Pop` | src/stack.rs:32-41 | an empty stack yields `None` and stays empty; otherwise the top value is returned and the rest, in order, remains, one shorter |
| `Stacks.PushThenPop` | src/stack.rs:25-41 | a push followed by a pop returns the pushed value and restores the previous contents |

## Left out

- Generic element types: tree values are `int` and `cmp` is integer comparison; the stack stays generic. Element types with an equality that disagrees with their ordering are not modelled.
- `Box` allocation, ownership transfer, `take()` and the `#[derive(Debug, Clone)]` impls: moves are value assignments.
- Recursion depth of the unbalanced tree (stack overflow on deep trees) is not modelled.
- The reference-element test `push_pop_ptrs` (src/stack.rs:55-74): it exercises the same push and pop with borrowed elements; lifetimes are not modelled.
- A draining iterator over the stack: the source defines none.
- BinaryTrees.BinaryTree.Insert: requires the object invariant `Valid()`, which the constructor establishes and both methods keep; the Rust method has no precondition but is only ever called on such trees.
- BinaryTrees.BinaryTree.Remove: requires the object invariant `Valid()` for the same reason.
