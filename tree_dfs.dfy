/**
 * The depth-first traversals of algorithms/tree-traversal/depthFirstSearch.js.
 * Each recursive helper pushes onto an array shared by every call; here that
 * array is threaded through the calls, and the orders themselves are the
 * functions `PreOrder`, `InOrder` and `PostOrder`.
 */
module TreeDepthFirstSearch {
  import Sorting
  import opened BinarySearchTree

  /** The value at a node, then its left subtree, then its right one. */
  function PreOrder(t: Tree): seq<int> {
    match t
    case Leaf => []
    case Node(l, v, r) => [v] + PreOrder(l) + PreOrder(r)
  }

  /** The left subtree, then the value, then the right subtree. */
  function InOrder(t: Tree): seq<int> {
    match t
    case Leaf => []
    case Node(l, v, r) => InOrder(l) + [v] + InOrder(r)
  }

  /** The left subtree, then the right subtree, then the value. */
  function PostOrder(t: Tree): seq<int> {
    match t
    case Leaf => []
    case Node(l, v, r) => PostOrder(l) + PostOrder(r) + [v]
  }

  /** `recursiveDfsPreOrder`: appends the pre-order of `root` to `visited`. */
  method RecursiveDfsPreOrder(root: Tree, visited: seq<int>) returns (r: seq<int>)
    ensures r == visited + PreOrder(root)
  {
    if root == Leaf {
      return visited;
    }
    r := visited + [root.value];
    r := RecursiveDfsPreOrder(root.left, r);
    r := RecursiveDfsPreOrder(root.right, r);
  }

  /** `recursiveDfsPostOrder`: appends the post-order of `root` to `visited`. */
  method RecursiveDfsPostOrder(root: Tree, visited: seq<int>) returns (r: seq<int>)
    ensures r == visited + PostOrder(root)
  {
    if root == Leaf {
      return visited;
    }
    r := RecursiveDfsPostOrder(root.left, visited);
    r := RecursiveDfsPostOrder(root.right, r);
    r := r + [root.value];
  }

  /** `recursiveDfsInOrder`: appends the in-order of `root` to `visited`. */
  method RecursiveDfsInOrder(root: Tree, visited: seq<int>) returns (r: seq<int>)
    ensures r == visited + InOrder(root)
  {
    if root == Leaf {
      return visited;
    }
    r := RecursiveDfsInOrder(root.left, visited);
    r := r + [root.value];
    r := RecursiveDfsInOrder(root.right, r);
  }

  /** `depthFirstSearchPreOrder`: the pre-order of `root`; `[]` for no tree. */
  method DepthFirstSearchPreOrder(root: Tree) returns (r: seq<int>)
    ensures r == PreOrder(root)
    ensures root.Node? ==> r != [] && r[0] == root.value
    ensures multiset(r) == Elements(root)
  {
    r := RecursiveDfsPreOrder(root, []);
    PreOrderElements(root);
  }

  /** `depthFirstSearchPostOrder`: the post-order of `root`; `[]` for no tree. */
  method DepthFirstSearchPostOrder(root: Tree) returns (r: seq<int>)
    ensures r == PostOrder(root)
    ensures root.Node? ==> r != [] && r[|r| - 1] == root.value
    ensures multiset(r) == Elements(root)
  {
    r := RecursiveDfsPostOrder(root, []);
    PostOrderElements(root);
  }

  /** `depthFirstSearchInOrder`: the in-order of `root`; `[]` for no tree,
      and non-decreasing for a tree built by the binary search tree. */
  method DepthFirstSearchInOrder(root: Tree) returns (r: seq<int>)
    ensures r == InOrder(root)
    ensures multiset(r) == Elements(root)
    ensures WeakOrdered(root) ==> Sorting.Sorted(r)
  {
    r := RecursiveDfsInOrder(root, []);
    InOrderElements(root);
    if WeakOrdered(root) {
      InOrderSorted(root);
    }
  }

  /** Each traversal lists every value of the tree exactly once. */
  lemma {:induction false} PreOrderElements(t: Tree)
    ensures multiset(PreOrder(t)) == Elements(t)
  {
    match t
    case Leaf =>
    case Node(l, v, r) =>
      PreOrderElements(l);
      PreOrderElements(r);
  }

  lemma {:induction false} InOrderElements(t: Tree)
    ensures multiset(InOrder(t)) == Elements(t)
  {
    match t
    case Leaf =>
    case Node(l, v, r) =>
      InOrderElements(l);
      InOrderElements(r);
  }

  lemma {:induction false} PostOrderElements(t: Tree)
    ensures multiset(PostOrder(t)) == Elements(t)
  {
    match t
    case Leaf =>
    case Node(l, v, r) =>
      PostOrderElements(l);
      PostOrderElements(r);
  }

  /** The three orders are permutations of each other. */
  lemma TraversalsPermuted(t: Tree)
    ensures multiset(PreOrder(t)) == multiset(InOrder(t)) == multiset(PostOrder(t))
  {
    PreOrderElements(t);
    InOrderElements(t);
    PostOrderElements(t);
  }

  /** The in-order of an ordered tree is non-decreasing. */
  lemma {:induction false} InOrderSorted(t: Tree)
    requires WeakOrdered(t)
    ensures Sorting.Sorted(InOrder(t))
  {
    match t
    case Leaf =>
    case Node(l, v, r) =>
      InOrderSorted(l);
      InOrderSorted(r);
      InOrderElements(l);
      InOrderElements(r);
      var a, b := InOrder(l), InOrder(r);
      forall k | 0 <= k < |a|
        ensures a[k] <= v
      {
        assert a[k] in Elements(l);
        AtMostMember(l, v, a[k]);
      }
      forall k | 0 <= k < |b|
        ensures v <= b[k]
      {
        assert b[k] in Elements(r);
        AtLeastMember(r, v, b[k]);
      }
      Sorting.SortedAround(a, v, b);
  }

  /** The in-order of a tree built with the strict ordering is sorted too. */
  lemma OrderedInOrderSorted(t: Tree)
    requires Ordered(t)
    ensures Sorting.Sorted(InOrder(t))
  {
    OrderedIsWeak(t);
    InOrderSorted(t);
  }
}
