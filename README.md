# Binary search tree over integer keys, in Dafny

This project models the sequential, unbalanced binary search tree of
`binary_tree.c` and `binary_tree.h`. A tree is a `TreeNode` record holding an
`int` key (`data`) and two child pointers, `left` and `right`, with NULL for
a missing child. The C code builds a leaf (`createNode`), tests membership by
descending from the root (`searchNode`), finds the node holding the least key
by following left pointers (`findMin`), and prints the keys in order
(`inorderTraversal`).

The model (`binary_tree.dfy`, module `BinaryTree`) represents a tree as the
immutable value `datatype Tree = Nil | Node(left, data, right)`. `Nil` stands
for a NULL pointer. Each C function becomes a Dafny function with the same
branches:

- `CreateNode` builds a node with two `Nil` children.
- `SearchNode` answers false on `Nil` and true on an equal key. Otherwise it
  goes left when the key is smaller than the node's key and right when it is not.
- `FindMin` returns `Nil` for `Nil`. Otherwise it returns the first node on the
  left spine that has no left child, as the whole subtree rooted there, just as
  the C function returns that node's pointer.
- `Inorder` returns the sequence of keys that `inorderTraversal` prints.

The properties are stated against three abstract views of a tree: `Keys`
(the set of keys), `KeyBag` (the keys with their multiplicities) and `Size`
(the number of nodes). They also use the ordering predicate `IsBST`, which is
left-inclusive: keys in the left subtree are `<=` the node's key, keys in the
right subtree are `>` it. This matches the way `searchNode` steps right on
keys that are not smaller.

The code has no locks, no threads and no insertion or deletion bodies.
The header also differs from the code in two ways. First, it declares
`searchTree`, but the code defines `searchNode`, and that is the function
modelled here. Second, it declares `findMin(TreeNode*)` and
`inorderTraversal(TreeNode*)` (binary_tree.h:31, 34), while the code defines
both with a `const TreeNode*` parameter (binary_tree.c:29, 39). Since
binary_tree.c includes the header, a C compiler rejects these as conflicting
types. The model follows the definitions in binary_tree.c.

## Model

| member | source | states |
|---|---|---|
| `BinaryTree.CreateNode` | binary_tree.c:6-13 | the new node holds exactly the key `data`, once; it has one node; it is ordered; its in-order sequence is `[data]` |
| `BinaryTree.SearchNode` | binary_tree.c:16-26 | an empty tree answers false; a root holding the key answers true; on any tree, ordered or not, a true answer means the key is stored in the tree |
| `BinaryTree.SearchNodeCorrect` | binary_tree.c:16-26 | on an ordered tree the search answers true exactly when the key is stored in the tree |
| `BinaryTree.SearchNodeNeedsOrdering` | binary_tree.c:25 | the ordering is needed: a tree with 3 stored right of 5 holds 3, yet the search for 3 answers false |
| `BinaryTree.FindMin` | binary_tree.c:29-36 | the result is NULL exactly when the tree is empty; otherwise it is a node with no left child, reached from the root by left steps only |
| `BinaryTree.LeftSpineInTree` | binary_tree.c:33-35 | a node reached by left steps is a node of the tree: its key and all keys below it are keys of the tree |
| `BinaryTree.FindMinFirstInorder` | binary_tree.c:29-44 | on any non-empty tree the key of the node findMin returns is the first key the in-order traversal prints |
| `BinaryTree.FindMinIsLeast` | binary_tree.c:29-36 | on an ordered non-empty tree findMin's key is stored in the tree and is `<=` every stored key |
| `BinaryTree.Inorder` | binary_tree.c:39-44 | the traversal emits one key per node |
| `BinaryTree.InorderKeyBag` | binary_tree.c:39-44 | the emitted keys are exactly the stored keys with their multiplicities |
| `BinaryTree.InorderKeys` | binary_tree.c:39-44 | a key is emitted exactly when it is stored in the tree |
| `BinaryTree.InorderSorted` | binary_tree.c:39-44 | on an ordered tree the emitted keys are non-decreasing |
| `BinaryTree.ExampleTreeInorder` | binary_tree.c:39-44 | the seven-key tree with root 5, the shape a left-inclusive insertion of 5, 3, 8, 1, 4, 7, 9 would give, is traversed as 1, 3, 4, 5, 7, 8, 9 |
| `BinaryTree.ExampleTreeQueries` | binary_tree.c:16-36 | that tree is ordered, its least key is 1, and 4 is found while 6 is not |

## Left out

- `insertNode`, `deleteNode`, `searchTree`, `preorderTraversal`, `postorderTraversal`: declared at binary_tree.h:22, 25, 28, 37 and 40 with no body anywhere. Their behaviour is not part of this model. The example tree is written out as a value rather than built by inserts.
- Locks and threads: the code has none; the model is the sequential tree.
- The `printf` in `inorderTraversal`: the model returns the emitted keys as a sequence, not the text `"%d "` per key written to standard output.
- Allocation failure in `createNode`: the result of `malloc` is not checked, so a failure is undefined behaviour, not a modelled error path.
- Pointer identity, aliasing and the `const` cast in `findMin`: a tree is an immutable value, and `FindMin` returns the subtree rather than an address.
- 32-bit `int` range: keys are Dafny integers. The code only compares keys and never computes with them, so no overflow can arise.
