/**
 * The binary search tree of data-structures/BinarySearchTree.js. A node holds
 * a number and two subtrees; values not greater than a node go left (so
 * duplicates go left) and greater ones go right. The recursive `#...Impl`
 * helpers are functions on tree values; the class holds the root.
 */
module BinarySearchTree {
  import opened Wrappers

  datatype Tree = Leaf | Node(left: Tree, value: int, right: Tree)

  /** The values of a tree, with their multiplicities. */
  function Elements(t: Tree): multiset<int> {
    match t
    case Leaf => multiset{}
    case Node(l, v, r) => Elements(l) + multiset{v} + Elements(r)
  }

  /** The number of nodes of `t`. */
  function Size(t: Tree): nat {
    match t
    case Leaf => 0
    case Node(l, _, r) => Size(l) + 1 + Size(r)
  }

  /** Every value of `t` is at most `b`. */
  ghost predicate AllAtMost(t: Tree, b: int) {
    match t
    case Leaf => true
    case Node(l, v, r) => v <= b && AllAtMost(l, b) && AllAtMost(r, b)
  }

  /** Every value of `t` is at least `b`. */
  ghost predicate AllAtLeast(t: Tree, b: int) {
    match t
    case Leaf => true
    case Node(l, v, r) => v >= b && AllAtLeast(l, b) && AllAtLeast(r, b)
  }

  /** Every value of `t` is greater than `b`. */
  ghost predicate AllAbove(t: Tree, b: int) {
    match t
    case Leaf => true
    case Node(l, v, r) => v > b && AllAbove(l, b) && AllAbove(r, b)
  }

  /** The ordering the tree is built to: left values at most the node's value,
      right values strictly greater, at every node. */
  ghost predicate Ordered(t: Tree) {
    match t
    case Leaf => true
    case Node(l, v, r) => Ordered(l) && Ordered(r) && AllAtMost(l, v) && AllAbove(r, v)
  }

  /** The weaker ordering that also lets a right subtree hold the node's value. */
  ghost predicate WeakOrdered(t: Tree) {
    match t
    case Leaf => true
    case Node(l, v, r) => WeakOrdered(l) && WeakOrdered(r) && AllAtMost(l, v) && AllAtLeast(r, v)
  }

  lemma {:induction false} OrderedIsWeak(t: Tree)
    requires Ordered(t)
    ensures WeakOrdered(t)
  {
    match t
    case Leaf =>
    case Node(l, v, r) =>
      OrderedIsWeak(l);
      OrderedIsWeak(r);
      AboveIsAtLeast(r, v);
  }

  /** A bound on a tree holds for each of its values. */
  lemma {:induction false} AtMostMember(t: Tree, b: int, x: int)
    requires AllAtMost(t, b)
    ensures x in Elements(t) ==> x <= b
  {
    match t
    case Leaf =>
    case Node(l, _, r) =>
      AtMostMember(l, b, x);
      AtMostMember(r, b, x);
  }

  lemma {:induction false} AtLeastMember(t: Tree, b: int, x: int)
    requires AllAtLeast(t, b)
    ensures x in Elements(t) ==> x >= b
  {
    match t
    case Leaf =>
    case Node(l, _, r) =>
      AtLeastMember(l, b, x);
      AtLeastMember(r, b, x);
  }

  lemma {:induction false} AboveIsAtLeast(t: Tree, b: int)
    requires AllAbove(t, b)
    ensures AllAtLeast(t, b)
  {
    match t
    case Leaf =>
    case Node(l, _, r) =>
      AboveIsAtLeast(l, b);
      AboveIsAtLeast(r, b);
  }

  lemma {:induction false} AboveWeaken(t: Tree, b: int, c: int)
    requires AllAbove(t, b) && c <= b
    ensures AllAbove(t, c)
  {
    match t
    case Leaf =>
    case Node(l, _, r) =>
      AboveWeaken(l, b, c);
      AboveWeaken(r, b, c);
  }

  lemma {:induction false} AtLeastWeaken(t: Tree, b: int, c: int)
    requires AllAtLeast(t, b) && c <= b
    ensures AllAtLeast(t, c)
  {
    match t
    case Leaf =>
    case Node(l, _, r) =>
      AtLeastWeaken(l, b, c);
      AtLeastWeaken(r, b, c);
  }

  lemma {:induction false} AtMostWeaken(t: Tree, b: int, c: int)
    requires AllAtMost(t, b) && b <= c
    ensures AllAtMost(t, c)
  {
    match t
    case Leaf =>
    case Node(l, _, r) =>
      AtMostWeaken(l, b, c);
      AtMostWeaken(r, b, c);
  }

  /** `#insertImpl`: a new leaf node for `value`, placed left at every node
      whose value is not smaller. */
  function InsertImpl(value: int, t: Tree): (r: Tree)
    ensures Elements(r) == Elements(t) + multiset{value}
  {
    match t
    case Leaf => Node(Leaf, value, Leaf)
    case Node(l, v, rt) =>
      if value <= v then Node(InsertImpl(value, l), v, rt)
      else Node(l, v, InsertImpl(value, rt))
  }

  /** Inserting a value within a bound keeps the bound. */
  lemma {:induction false} InsertBounds(value: int, t: Tree, lo: int, hi: int)
    ensures AllAtLeast(t, lo) && lo <= value ==> AllAtLeast(InsertImpl(value, t), lo)
    ensures AllAtMost(t, hi) && value <= hi ==> AllAtMost(InsertImpl(value, t), hi)
    decreases t
  {
    match t
    case Leaf =>
    case Node(l, v, r) =>
      if value <= v {
        InsertBounds(value, l, lo, hi);
      } else {
        InsertBounds(value, r, lo, hi);
      }
  }

  /** Inserting a value above a bound keeps the tree above it. */
  lemma {:induction false} InsertAbove(value: int, t: Tree, b: int)
    requires AllAbove(t, b) && b < value
    ensures AllAbove(InsertImpl(value, t), b)
    decreases t
  {
    match t
    case Leaf =>
    case Node(l, v, r) =>
      if value <= v {
        InsertAbove(value, l, b);
      } else {
        InsertAbove(value, r, b);
      }
  }

  /** Insertion keeps the strict order. */
  lemma {:induction false} InsertKeepsOrder(value: int, t: Tree)
    requires Ordered(t)
    ensures Ordered(InsertImpl(value, t))
    decreases t
  {
    match t
    case Leaf =>
    case Node(l, v, r) =>
      if value <= v {
        InsertKeepsOrder(value, l);
        InsertBounds(value, l, v, v);
      } else {
        InsertKeepsOrder(value, r);
        InsertAbove(value, r, v);
      }
  }

  /** Insertion keeps the weak order. */
  lemma {:induction false} InsertKeepsWeakOrder(value: int, t: Tree)
    requires WeakOrdered(t)
    ensures WeakOrdered(InsertImpl(value, t))
    decreases t
  {
    match t
    case Leaf =>
    case Node(l, v, r) =>
      if value <= v {
        InsertKeepsWeakOrder(value, l);
        InsertBounds(value, l, v, v);
      } else {
        InsertKeepsWeakOrder(value, r);
        InsertBounds(value, r, v, v);
      }
  }

  /** `#searchImpl`: follows one path down, left for smaller values. On any
      tree a hit is a value the tree holds; the converse needs the order
      (`SearchCorrect`). */
  function SearchImpl(value: int, t: Tree): (r: bool)
    ensures r ==> value in Elements(t)
  {
    match t
    case Leaf => false
    case Node(l, v, r) =>
      if value == v then true
      else if value < v then SearchImpl(value, l)
      else SearchImpl(value, r)
  }

  /** On any tree in (even weak) order, the search finds exactly the values it holds. */
  lemma {:induction false} SearchCorrect(value: int, t: Tree)
    requires WeakOrdered(t)
    ensures SearchImpl(value, t) <==> value in Elements(t)
    decreases t
  {
    match t
    case Leaf =>
    case Node(l, v, r) =>
      SearchCorrect(value, l);
      SearchCorrect(value, r);
      AtMostMember(l, v, value);
      AtLeastMember(r, v, value);
  }

  /** `#getMinValueNode`: the leftmost node, `Leaf` standing for null. */
  function GetMinValueNode(t: Tree): (m: Tree)
    ensures (m == Leaf) <==> (t == Leaf)
    ensures m.Node? ==> m.left == Leaf && m.value in Elements(t)
  {
    match t
    case Leaf => Leaf
    case Node(l, _, _) => if l == Leaf then t else GetMinValueNode(l)
  }

  /** In weak order the leftmost node holds the smallest value. */
  lemma {:induction false} MinValueIsLeast(t: Tree)
    requires WeakOrdered(t) && t.Node?
    ensures AllAtLeast(t, GetMinValueNode(t).value)
  {
    var m := GetMinValueNode(t).value;
    match t
    case Node(l, v, r) =>
      if l == Leaf {
        assert m == v;
      } else {
        MinValueIsLeast(l);
        AtMostMember(l, v, m);
        AtLeastWeaken(r, v, m);
      }
  }

  /** `#getMaxValueImpl`: the value of the rightmost node, or null. */
  function GetMaxValueImpl(t: Tree): (m: Option<int>)
    ensures (m == None) <==> (t == Leaf)
    ensures m.Some? ==> m.value in Elements(t)
  {
    match t
    case Leaf => None
    case Node(_, v, r) => if r == Leaf then Some(v) else GetMaxValueImpl(r)
  }

  /** In weak order the rightmost node holds the largest value. */
  lemma {:induction false} MaxValueIsGreatest(t: Tree)
    requires WeakOrdered(t) && t.Node?
    ensures AllAtMost(t, GetMaxValueImpl(t).value)
  {
    var m := GetMaxValueImpl(t).value;
    match t
    case Node(l, v, r) =>
      if r == Leaf {
        assert m == v;
      } else {
        MaxValueIsGreatest(r);
        AtLeastMember(r, v, m);
        AtMostWeaken(l, v, m);
      }
  }

  /**
   * `#deleteImpl`: find the node holding `value` along the search path; a
   * node with at most one child is replaced by that child, and one with two
   * takes the smallest value of its right subtree, which is then deleted
   * from there. On any tree at most one node is removed.
   */
  function DeleteImpl(value: int, t: Tree): (r: Tree)
    ensures Size(r) <= Size(t) <= Size(r) + 1
    decreases t
  {
    match t
    case Leaf => Leaf
    case Node(l, v, r) =>
      if value < v then Node(DeleteImpl(value, l), v, r)
      else if value > v then Node(l, v, DeleteImpl(value, r))
      else if l == Leaf then r
      else if r == Leaf then l
      else
        var successor := GetMinValueNode(r).value;
        Node(l, successor, DeleteImpl(successor, r))
  }

  /** Deleting an absent value gives back the same tree. */
  lemma {:induction false} DeleteAbsent(value: int, t: Tree)
    requires value !in Elements(t)
    ensures DeleteImpl(value, t) == t
    decreases t
  {
    match t
    case Leaf =>
    case Node(l, v, r) =>
      if value < v {
        DeleteAbsent(value, l);
      } else if value > v {
        DeleteAbsent(value, r);
      }
  }

  /** The leftmost and rightmost values lie within any bound of the tree. */
  lemma {:induction false} ExtremeBounds(t: Tree, lo: int, hi: int)
    requires t.Node?
    ensures AllAtLeast(t, lo) ==> GetMinValueNode(t).value >= lo && GetMaxValueImpl(t).value >= lo
    ensures AllAtMost(t, hi) ==> GetMinValueNode(t).value <= hi && GetMaxValueImpl(t).value <= hi
  {
    match t
    case Node(l, _, r) =>
      if l != Leaf {
        ExtremeBounds(l, lo, hi);
      }
      if r != Leaf {
        ExtremeBounds(r, lo, hi);
      }
  }

  lemma {:induction false} MaxAbove(t: Tree, b: int)
    requires t.Node? && AllAbove(t, b)
    ensures GetMaxValueImpl(t).value > b
  {
    if t.right != Leaf {
      MaxAbove(t.right, b);
    }
  }

  /** Deletion keeps every bound of the tree. */
  lemma {:induction false} DeleteBounds(value: int, t: Tree, lo: int, hi: int)
    ensures AllAtLeast(t, lo) ==> AllAtLeast(DeleteImpl(value, t), lo)
    ensures AllAtMost(t, hi) ==> AllAtMost(DeleteImpl(value, t), hi)
    decreases t
  {
    match t
    case Leaf =>
    case Node(l, v, r) =>
      if value < v {
        DeleteBounds(value, l, lo, hi);
      } else if value > v {
        DeleteBounds(value, r, lo, hi);
      } else if l != Leaf && r != Leaf {
        ExtremeBounds(r, lo, hi);
        DeleteBounds(GetMinValueNode(r).value, r, lo, hi);
      }
  }

  /** Deletion keeps the weak order. */
  lemma {:induction false} DeleteKeepsWeakOrder(value: int, t: Tree)
    requires WeakOrdered(t)
    ensures WeakOrdered(DeleteImpl(value, t))
    decreases t
  {
    match t
    case Leaf =>
    case Node(l, v, r) =>
      if value < v {
        DeleteKeepsWeakOrder(value, l);
        DeleteBounds(value, l, v, v);
      } else if value > v {
        DeleteKeepsWeakOrder(value, r);
        DeleteBounds(value, r, v, v);
      } else if l != Leaf && r != Leaf {
        var successor := GetMinValueNode(r).value;
        DeleteKeepsWeakOrder(successor, r);
        MinValueIsLeast(r);
        DeleteBounds(successor, r, successor, successor);
        ExtremeBounds(r, v, v);
        AtMostWeaken(l, v, successor);
      }
  }

  /** Removing one occurrence of `x` from a node's multiset of values, when
      `x` sits in the left part, the right part or the root. */
  lemma RemoveInLeft(a: multiset<int>, v: int, c: multiset<int>, x: int)
    requires x != v && x !in c
    ensures (a - multiset{x}) + multiset{v} + c == a + multiset{v} + c - multiset{x}
  {
    assert forall y :: ((a - multiset{x}) + multiset{v} + c)[y] == (a + multiset{v} + c - multiset{x})[y];
  }

  lemma RemoveInRight(a: multiset<int>, v: int, c: multiset<int>, x: int)
    requires x != v && x !in a
    ensures a + multiset{v} + (c - multiset{x}) == a + multiset{v} + c - multiset{x}
  {
    assert forall y :: (a + multiset{v} + (c - multiset{x}))[y] == (a + multiset{v} + c - multiset{x})[y];
  }

  lemma RemoveRoot(a: multiset<int>, v: int, c: multiset<int>)
    ensures a + multiset{v} + c - multiset{v} == a + c
  {
    assert forall y :: (a + multiset{v} + c - multiset{v})[y] == (a + c)[y];
  }

  /** Moving a value of one part of a node's multiset up to its root. */
  lemma MoveUpFromRight(a: multiset<int>, s: int, c: multiset<int>)
    requires s in c
    ensures a + multiset{s} + (c - multiset{s}) == a + c
  {
    assert forall y :: (a + multiset{s} + (c - multiset{s}))[y] == (a + c)[y];
  }

  lemma MoveUpFromLeft(a: multiset<int>, s: int, c: multiset<int>)
    requires s in a
    ensures (a - multiset{s}) + multiset{s} + c == a + c
  {
    assert forall y :: ((a - multiset{s}) + multiset{s} + c)[y] == (a + c)[y];
  }

  /** On a tree in weak order, deletion removes exactly one occurrence of a
      present value, and nothing when it is absent. */
  lemma {:induction false} DeleteRemovesOne(value: int, t: Tree)
    requires WeakOrdered(t)
    ensures Elements(DeleteImpl(value, t)) == Elements(t) - multiset{value}
    decreases t
  {
    match t
    case Leaf =>
    case Node(l, v, r) =>
      if value < v {
        DeleteRemovesOne(value, l);
        AtLeastMember(r, v, value);
        assert Elements(DeleteImpl(value, t)) == Elements(DeleteImpl(value, l)) + multiset{v} + Elements(r);
        RemoveInLeft(Elements(l), v, Elements(r), value);
      } else if value > v {
        DeleteRemovesOne(value, r);
        AtMostMember(l, v, value);
        assert Elements(DeleteImpl(value, t)) == Elements(l) + multiset{v} + Elements(DeleteImpl(value, r));
        RemoveInRight(Elements(l), v, Elements(r), value);
      } else if l == Leaf {
        RemoveRoot(Elements(l), v, Elements(r));
        assert Elements(DeleteImpl(value, t)) == Elements(r);
      } else if r == Leaf {
        RemoveRoot(Elements(l), v, Elements(r));
        assert Elements(DeleteImpl(value, t)) == Elements(l);
      } else {
        var successor := GetMinValueNode(r).value;
        DeleteRemovesOne(successor, r);
        RemoveRoot(Elements(l), v, Elements(r));
        MoveUpFromRight(Elements(l), successor, Elements(r));
        assert Elements(DeleteImpl(value, t)) == Elements(l) + multiset{successor} + Elements(DeleteImpl(successor, r));
      }
  }

  /** As written, deletion does not keep the strict order: after inserting
      3, 1, 5, 5, deleting 3 moves 5 up to the root while another 5 stays in
      its right subtree. */
  lemma DeleteBreaksOrder()
    ensures var t := InsertImpl(5, InsertImpl(5, InsertImpl(1, InsertImpl(3, Leaf))));
      Ordered(t) && !Ordered(DeleteImpl(3, t))
  {
    var t := InsertImpl(5, InsertImpl(5, InsertImpl(1, InsertImpl(3, Leaf))));
    assert t == Node(Node(Leaf, 1, Leaf), 3, Node(Node(Leaf, 5, Leaf), 5, Leaf));
    assert DeleteImpl(3, t) == Node(Node(Leaf, 1, Leaf), 5, Node(Leaf, 5, Leaf));
  }

  /**
   * Deletion with the in-order predecessor (the largest value of the left
   * subtree) in the two-child case. Left values may equal the node's value,
   * so moving the largest of them up keeps the strict order. On any tree at
   * most one node is removed.
   */
  function DeleteImplPredecessor(value: int, t: Tree): (r: Tree)
    ensures Size(r) <= Size(t) <= Size(r) + 1
    decreases t
  {
    match t
    case Leaf => Leaf
    case Node(l, v, r) =>
      if value < v then Node(DeleteImplPredecessor(value, l), v, r)
      else if value > v then Node(l, v, DeleteImplPredecessor(value, r))
      else if l == Leaf then r
      else if r == Leaf then l
      else
        var predecessor := GetMaxValueImpl(l).value;
        Node(DeleteImplPredecessor(predecessor, l), predecessor, r)
  }

  /** The corrected deletion keeps every bound of the tree. */
  lemma {:induction false} DeletePredecessorBounds(value: int, t: Tree, lo: int, hi: int)
    ensures AllAtLeast(t, lo) ==> AllAtLeast(DeleteImplPredecessor(value, t), lo)
    ensures AllAtMost(t, hi) ==> AllAtMost(DeleteImplPredecessor(value, t), hi)
    decreases t
  {
    match t
    case Leaf =>
    case Node(l, v, r) =>
      if value < v {
        DeletePredecessorBounds(value, l, lo, hi);
      } else if value > v {
        DeletePredecessorBounds(value, r, lo, hi);
      } else if l != Leaf && r != Leaf {
        ExtremeBounds(l, lo, hi);
        DeletePredecessorBounds(GetMaxValueImpl(l).value, l, lo, hi);
      }
  }

  /** The corrected deletion keeps a tree above a bound. */
  lemma {:induction false} DeletePredecessorAbove(value: int, t: Tree, b: int)
    requires AllAbove(t, b)
    ensures AllAbove(DeleteImplPredecessor(value, t), b)
    decreases t
  {
    match t
    case Leaf =>
    case Node(l, v, r) =>
      if value < v {
        DeletePredecessorAbove(value, l, b);
      } else if value > v {
        DeletePredecessorAbove(value, r, b);
      } else if l != Leaf && r != Leaf {
        MaxAbove(l, b);
        DeletePredecessorAbove(GetMaxValueImpl(l).value, l, b);
      }
  }

  /** The corrected deletion keeps the strict order. */
  lemma {:induction false} DeletePredecessorKeepsOrder(value: int, t: Tree)
    requires Ordered(t)
    ensures Ordered(DeleteImplPredecessor(value, t))
    decreases t
  {
    match t
    case Leaf =>
    case Node(l, v, r) =>
      if value < v {
        DeletePredecessorKeepsOrder(value, l);
        DeletePredecessorBounds(value, l, v, v);
      } else if value > v {
        DeletePredecessorKeepsOrder(value, r);
        DeletePredecessorAbove(value, r, v);
      } else if l != Leaf && r != Leaf {
        var predecessor := GetMaxValueImpl(l).value;
        DeletePredecessorKeepsOrder(predecessor, l);
        OrderedIsWeak(l);
        MaxValueIsGreatest(l);
        DeletePredecessorBounds(predecessor, l, predecessor, predecessor);
        ExtremeBounds(l, v, v);
        AboveWeaken(r, v, predecessor);
      }
  }

  /** The corrected deletion removes exactly one occurrence of a present
      value, and nothing when it is absent (in weak order already). */
  lemma {:induction false} DeletePredecessorRemovesOne(value: int, t: Tree)
    requires WeakOrdered(t)
    ensures Elements(DeleteImplPredecessor(value, t)) == Elements(t) - multiset{value}
    decreases t
  {
    match t
    case Leaf =>
    case Node(l, v, r) =>
      if value < v {
        DeletePredecessorRemovesOne(value, l);
        AtLeastMember(r, v, value);
        assert Elements(DeleteImplPredecessor(value, t)) == Elements(DeleteImplPredecessor(value, l)) + multiset{v} + Elements(r);
        RemoveInLeft(Elements(l), v, Elements(r), value);
      } else if value > v {
        DeletePredecessorRemovesOne(value, r);
        AtMostMember(l, v, value);
        assert Elements(DeleteImplPredecessor(value, t)) == Elements(l) + multiset{v} + Elements(DeleteImplPredecessor(value, r));
        RemoveInRight(Elements(l), v, Elements(r), value);
      } else if l == Leaf {
        RemoveRoot(Elements(l), v, Elements(r));
        assert Elements(DeleteImplPredecessor(value, t)) == Elements(r);
      } else if r == Leaf {
        RemoveRoot(Elements(l), v, Elements(r));
        assert Elements(DeleteImplPredecessor(value, t)) == Elements(l);
      } else {
        var predecessor := GetMaxValueImpl(l).value;
        DeletePredecessorRemovesOne(predecessor, l);
        RemoveRoot(Elements(l), v, Elements(r));
        MoveUpFromLeft(Elements(l), predecessor, Elements(r));
        assert Elements(DeleteImplPredecessor(value, t)) == Elements(DeleteImplPredecessor(predecessor, l)) + multiset{predecessor} + Elements(r);
      }
  }

  /** The same input as `DeleteBreaksOrder`, with the corrected deletion. */
  lemma DeletePredecessorExample()
    ensures var t := InsertImpl(5, InsertImpl(5, InsertImpl(1, InsertImpl(3, Leaf))));
      DeleteImplPredecessor(3, t) == Node(Leaf, 1, Node(Node(Leaf, 5, Leaf), 5, Leaf))
  {
    var t := InsertImpl(5, InsertImpl(5, InsertImpl(1, InsertImpl(3, Leaf))));
    assert t == Node(Node(Leaf, 1, Leaf), 3, Node(Node(Leaf, 5, Leaf), 5, Leaf));
  }

  class BinarySearchTree {
    var root: Tree

    /** The order every operation keeps; deletion as written keeps only the weak one. */
    ghost predicate Valid()
      reads this
    {
      WeakOrdered(root)
    }

    constructor ()
      ensures Valid() && root == Leaf
    {
      root := Leaf;
    }

    method Insert(value: int)
      requires Valid()
      modifies this
      ensures Valid()
      ensures root == InsertImpl(value, old(root))
      ensures Elements(root) == Elements(old(root)) + multiset{value}
      ensures Ordered(old(root)) ==> Ordered(root)
    {
      InsertKeepsWeakOrder(value, root);
      if Ordered(root) {
        InsertKeepsOrder(value, root);
      }
      root := InsertImpl(value, root);
    }

    method Search(value: int) returns (found: bool)
      requires Valid()
      ensures found <==> value in Elements(root)
    {
      SearchCorrect(value, root);
      found := SearchImpl(value, root);
    }

    /** The smallest value, or `None` (the source's null) on an empty tree. */
    method GetMinValue() returns (m: Option<int>)
      requires Valid()
      ensures m == None <==> root == Leaf
      ensures m.Some? ==> m.value in Elements(root) && forall x :: x in Elements(root) ==> m.value <= x
    {
      var minimumNode := GetMinValueNode(root);
      if minimumNode.Node? {
        MinValueIsLeast(root);
        forall x | x in Elements(root)
          ensures minimumNode.value <= x
        {
          AtLeastMember(root, minimumNode.value, x);
        }
      }
      m := if minimumNode.Node? then Some(minimumNode.value) else None;
    }

    /** The largest value, or `None` (the source's null) on an empty tree. */
    method GetMaxValue() returns (m: Option<int>)
      requires Valid()
      ensures m == None <==> root == Leaf
      ensures m.Some? ==> m.value in Elements(root) && forall x :: x in Elements(root) ==> x <= m.value
    {
      m := GetMaxValueImpl(root);
      if m.Some? {
        MaxValueIsGreatest(root);
        forall x | x in Elements(root)
          ensures x <= m.value
        {
          AtMostMember(root, m.value, x);
        }
      }
    }

    /** Deletes one occurrence of `value`, if any, and returns the new root. */
    method Delete(value: int) returns (newRoot: Tree)
      requires Valid()
      modifies this
      ensures Valid()
      ensures newRoot == root && root == DeleteImpl(value, old(root))
      ensures Elements(root) == Elements(old(root)) - multiset{value}
    {
      DeleteKeepsWeakOrder(value, root);
      DeleteRemovesOne(value, root);
      root := DeleteImpl(value, root);
      newRoot := root;
    }

    /** Deletion with the in-order predecessor, for a tree in strict order. */
    method DeleteKeepingOrder(value: int) returns (newRoot: Tree)
      requires Valid() && Ordered(root)
      modifies this
      ensures Valid() && Ordered(root)
      ensures newRoot == root && root == DeleteImplPredecessor(value, old(root))
      ensures Elements(root) == Elements(old(root)) - multiset{value}
    {
      DeletePredecessorKeepsOrder(value, root);
      DeletePredecessorRemovesOne(value, root);
      root := DeleteImplPredecessor(value, root);
      OrderedIsWeak(root);
      newRoot := root;
    }
  }
}
