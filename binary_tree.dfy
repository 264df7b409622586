/**
  A model of the unbalanced binary search tree over integer keys in
  binary_tree.c / binary_tree.h. A heap-allocated TreeNode whose `left` and
  `right` pointers may be NULL becomes an immutable algebraic value: `Nil`
  stands for a NULL pointer and `Node` for an allocated record.

  The ordering convention is left-inclusive: every key in the left subtree is
  at most the node's key, every key in the right subtree is strictly greater.
 */
module BinaryTree {

  /** The TreeNode record: `data`, a `left` child and a `right` child. */
  datatype Tree = Nil | Node(left: Tree, data: int, right: Tree)

  // ---------------------------------------------------------------------
  // Abstract views of a tree
  // ---------------------------------------------------------------------

  /** The set of keys stored anywhere in `t`. */
  function Keys(t: Tree): set<int> {
    match t
    case Nil => {}
    case Node(l, d, r) => Keys(l) + {d} + Keys(r)
  }

  /** The keys of `t` counted with multiplicity (duplicates may be stored). */
  function KeyBag(t: Tree): multiset<int> {
    match t
    case Nil => multiset{}
    case Node(l, d, r) => KeyBag(l) + multiset{d} + KeyBag(r)
  }

  /** The number of allocated nodes in `t`. */
  function Size(t: Tree): nat {
    match t
    case Nil => 0
    case Node(l, _, r) => Size(l) + 1 + Size(r)
  }

  /** Search-tree ordering: left keys `<=` the node's key, right keys `>` it. */
  ghost predicate IsBST(t: Tree) {
    match t
    case Nil => true
    case Node(l, d, r) =>
      && IsBST(l)
      && IsBST(r)
      && (forall k :: k in Keys(l) ==> k <= d)
      && (forall k :: k in Keys(r) ==> d < k)
  }

  /** `m` is a node reached from the root of `t` by following only left pointers. */
  predicate OnLeftSpine(m: Tree, t: Tree) {
    match t
    case Nil => false
    case Node(l, _, _) => m == t || OnLeftSpine(m, l)
  }

  ghost predicate Sorted(s: seq<int>) {
    forall i, j :: 0 <= i < j < |s| ==> s[i] <= s[j]
  }

  // ---------------------------------------------------------------------
  // Operations of binary_tree.c
  // ---------------------------------------------------------------------

  /** createNode: a fresh node holding `data` with no children. */
  function CreateNode(data: int): (t: Tree)
    ensures Keys(t) == {data} && KeyBag(t) == multiset{data} && Size(t) == 1
    ensures IsBST(t)
    ensures Inorder(t) == [data]
  {
    Node(Nil, data, Nil)
  }

  /**
    searchNode: NULL answers false, an equal key answers true, otherwise the
    walk goes left when the key is smaller than the node's and right when it
    is not. A true answer always names a key of the tree, ordered or not.
   */
  function SearchNode(t: Tree, data: int): (found: bool)
    ensures t == Nil ==> !found
    ensures t.Node? && t.data == data ==> found
    ensures found ==> data in Keys(t)
  {
    match t
    case Nil => false
    case Node(l, d, r) =>
      if d == data then true
      else if data < d then SearchNode(l, data)
      else SearchNode(r, data)
  }

  /**
    findMin: the node reached by following left pointers until one is NULL,
    or NULL for an empty tree. The result is the whole subtree rooted there.
   */
  function FindMin(t: Tree): (m: Tree)
    ensures m == Nil <==> t == Nil
    ensures m.Node? ==> m.left == Nil && OnLeftSpine(m, t)
  {
    match t
    case Nil => Nil
    case Node(l, _, _) => if l == Nil then t else FindMin(l)
  }

  /**
    inorderTraversal: the keys in the order it prints them, left subtree,
    then the node, then the right subtree. Every node is emitted exactly once.
   */
  function Inorder(t: Tree): (s: seq<int>)
    ensures |s| == Size(t)
  {
    match t
    case Nil => []
    case Node(l, d, r) => Inorder(l) + [d] + Inorder(r)
  }

  // ---------------------------------------------------------------------
  // Properties
  // ---------------------------------------------------------------------

  /** On an ordered tree the descent of searchNode is complete: it finds every key. */
  lemma {:induction false} SearchNodeCorrect(t: Tree, data: int)
    requires IsBST(t)
    ensures SearchNode(t, data) <==> data in Keys(t)
  {
    match t
    case Nil =>
    case Node(l, d, r) =>
      if data < d {
        SearchNodeCorrect(l, data);
      } else if d < data {
        SearchNodeCorrect(r, data);
      }
  }

  /** Without the ordering the descent can miss a stored key. */
  lemma SearchNodeNeedsOrdering()
    ensures var t := Node(Nil, 5, CreateNode(3));
      && !IsBST(t) && 3 in Keys(t) && !SearchNode(t, 3)
  {
  }

  /** A node on the left spine is a node of the tree: its keys are keys of the tree. */
  lemma {:induction false} LeftSpineInTree(m: Tree, t: Tree)
    requires OnLeftSpine(m, t)
    ensures m.Node? && m.data in Keys(t) && Keys(m) <= Keys(t)
  {
    match t
    case Node(l, _, _) =>
      if m != t {
        LeftSpineInTree(m, l);
      }
  }

  /** The in-order traversal emits every stored key, duplicates included, exactly once. */
  lemma {:induction false} InorderKeyBag(t: Tree)
    ensures multiset(Inorder(t)) == KeyBag(t)
  {
    match t
    case Nil =>
    case Node(l, d, r) =>
      InorderKeyBag(l);
      InorderKeyBag(r);
  }

  /** The in-order sequence holds exactly the keys of the tree. */
  lemma {:induction false} InorderKeys(t: Tree)
    ensures forall k :: k in Inorder(t) <==> k in Keys(t)
  {
    match t
    case Nil =>
    case Node(l, d, r) =>
      InorderKeys(l);
      InorderKeys(r);
  }

  lemma SortedAround(a: seq<int>, x: int, b: seq<int>)
    requires Sorted(a) && Sorted(b)
    requires forall y :: y in a ==> y <= x
    requires forall y :: y in b ==> x < y
    ensures Sorted(a + [x] + b)
  {
    var s := a + [x] + b;
    forall i, j | 0 <= i < j < |s| ensures s[i] <= s[j] {
      if j < |a| {
      } else if i < |a| {
        assert s[i] in a;
        if j > |a| { assert s[j] == b[j - |a| - 1] && s[j] in b; }
      } else if i == |a| {
        assert s[j] == b[j - |a| - 1] && s[j] in b;
      } else {
        assert s[i] == b[i - |a| - 1] && s[j] == b[j - |a| - 1];
      }
    }
  }

  /** On an ordered tree the in-order sequence is non-decreasing. */
  lemma {:induction false} InorderSorted(t: Tree)
    requires IsBST(t)
    ensures Sorted(Inorder(t))
  {
    match t
    case Nil =>
    case Node(l, d, r) =>
      InorderSorted(l);
      InorderSorted(r);
      InorderKeys(l);
      InorderKeys(r);
      SortedAround(Inorder(l), d, Inorder(r));
  }

  /** The node findMin reaches is the first one the in-order traversal prints. */
  lemma {:induction false} FindMinFirstInorder(t: Tree)
    requires t.Node?
    ensures |Inorder(t)| > 0 && Inorder(t)[0] == FindMin(t).data
  {
    match t
    case Node(l, d, r) =>
      if l != Nil {
        FindMinFirstInorder(l);
        assert Inorder(t)[0] == Inorder(l)[0];
      }
  }

  /** On an ordered, non-empty tree findMin's key is a key of the tree and the least one. */
  lemma {:induction false} FindMinIsLeast(t: Tree)
    requires IsBST(t) && t.Node?
    ensures FindMin(t).data in Keys(t)
    ensures forall k :: k in Keys(t) ==> FindMin(t).data <= k
  {
    LeftSpineInTree(FindMin(t), t);
    FindMinFirstInorder(t);
    InorderSorted(t);
    InorderKeys(t);
    var s := Inorder(t);
    forall k | k in Keys(t) ensures FindMin(t).data <= k {
      var i :| 0 <= i < |s| && s[i] == k;
      assert i == 0 || s[0] <= s[i];
    }
  }

  /**
    The seven-key tree with root 5: the shape a left-inclusive insertion of
    5, 3, 8, 1, 4, 7, 9, in that order, into an empty tree would give.
   */
  function ExampleTree(): Tree {
    Node(Node(CreateNode(1), 3, CreateNode(4)), 5, Node(CreateNode(7), 8, CreateNode(9)))
  }

  /** Its in-order traversal prints the keys in ascending order. */
  lemma ExampleTreeInorder()
    ensures Inorder(ExampleTree()) == [1, 3, 4, 5, 7, 8, 9]
  {
  }

  /** It is ordered; its least key is 1; 4 is found and 6 is not. */
  lemma ExampleTreeQueries()
    ensures IsBST(ExampleTree())
    ensures FindMin(ExampleTree()).data == 1
    ensures SearchNode(ExampleTree(), 4) && !SearchNode(ExampleTree(), 6)
  {
  }
}
