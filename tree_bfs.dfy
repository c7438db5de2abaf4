/**
 * The breadth-first (level-order) traversal of
 * algorithms/tree-traversal/breadthFirstSearch.js, driven by the linked queue
 * of data-structures/Queue.js. The queue holds subtrees, never an empty one.
 */
module TreeBreadthFirstSearch {
  import opened BinarySearchTree
  import Queue

  /** The number of nodes. */
  function Size(t: Tree): nat {
    match t
    case Leaf => 0
    case Node(l, _, r) => Size(l) + 1 + Size(r)
  }

  function ForestSize(f: seq<Tree>): nat {
    if f == [] then 0 else Size(f[0]) + ForestSize(f[1..])
  }

  /** The values of several trees together. */
  function ForestElements(f: seq<Tree>): multiset<int> {
    if f == [] then multiset{} else Elements(f[0]) + ForestElements(f[1..])
  }

  /** `[t]` unless `t` is empty: the `if (node.left)` and `if (node.right)` tests. */
  function NonEmpty(t: Tree): seq<Tree> {
    if t == Leaf then [] else [t]
  }

  /** What the loop enqueues after visiting `t`: its left child, then its
      right child, leaving out missing ones. */
  function Children(t: Tree): seq<Tree> {
    match t
    case Leaf => []
    case Node(l, _, r) => NonEmpty(l) + NonEmpty(r)
  }

  /** The queue never holds an empty tree. */
  ghost predicate NoLeaves(f: seq<Tree>) {
    forall k :: 0 <= k < |f| ==> f[k] != Leaf
  }

  /** One level of a forest: the values at its roots, left to right. */
  function Roots(f: seq<Tree>): seq<int> {
    if f == [] then []
    else (if f[0] == Leaf then [] else [f[0].value]) + Roots(f[1..])
  }

  /** The level below: the children of its roots, left to right. */
  function NextLevel(f: seq<Tree>): seq<Tree> {
    if f == [] then [] else Children(f[0]) + NextLevel(f[1..])
  }

  lemma {:induction false} ForestSizeAppend(f: seq<Tree>, g: seq<Tree>)
    ensures ForestSize(f + g) == ForestSize(f) + ForestSize(g)
  {
    if f != [] {
      assert (f + g)[0] == f[0] && (f + g)[1..] == f[1..] + g;
      ForestSizeAppend(f[1..], g);
    } else {
      assert f + g == g;
    }
  }

  lemma {:induction false} ForestElementsAppend(f: seq<Tree>, g: seq<Tree>)
    ensures ForestElements(f + g) == ForestElements(f) + ForestElements(g)
  {
    if f != [] {
      assert (f + g)[0] == f[0] && (f + g)[1..] == f[1..] + g;
      ForestElementsAppend(f[1..], g);
    } else {
      assert f + g == g;
    }
  }

  /** The children of a node hold all of it but the node itself. */
  lemma ChildrenSize(t: Tree)
    ensures ForestSize(Children(t)) + (if t == Leaf then 0 else 1) == Size(t)
  {
    match t
    case Leaf =>
    case Node(l, v, r) =>
      NonEmptySize(l);
      NonEmptySize(r);
      ForestSizeAppend(NonEmpty(l), NonEmpty(r));
  }

  lemma ChildrenNoLeaves(t: Tree)
    ensures NoLeaves(Children(t))
  {
  }

  lemma ChildrenElements(t: Tree)
    requires t != Leaf
    ensures multiset{t.value} + ForestElements(Children(t)) == Elements(t)
  {
    NonEmptySize(t.left);
    NonEmptySize(t.right);
    ForestElementsAppend(NonEmpty(t.left), NonEmpty(t.right));
  }

  lemma NonEmptySize(t: Tree)
    ensures ForestSize(NonEmpty(t)) == Size(t) && ForestElements(NonEmpty(t)) == Elements(t)
  {
    if t != Leaf {
      assert [t][1..] == [];
    }
  }

  /** What a queue holding `q` produces, run to the end: the value at its
      front, then what the queue produces with the front's children behind
      the rest. */
  ghost function Bfs(q: seq<Tree>): seq<int>
    decreases ForestSize(q), |q|
  {
    if q == [] then []
    else
      ForestSizeAppend(q[1..], Children(q[0]));
      ChildrenSize(q[0]);
      if q[0] == Leaf then Bfs(q[1..])
      else [q[0].value] + Bfs(q[1..] + Children(q[0]))
  }

  /** `Bfs` of a queue whose front is `t`. */
  lemma BfsCons(t: Tree, q: seq<Tree>)
    ensures Bfs([t] + q) == if t == Leaf then Bfs(q) else [t.value] + Bfs(q + Children(t))
  {
    assert ([t] + q)[0] == t && ([t] + q)[1..] == q;
  }

  /** The reference order: the roots of the forest, then level by level below. */
  ghost function LevelOrder(f: seq<Tree>): seq<int>
    decreases ForestSize(f)
  {
    if ForestSize(f) == 0 then []
    else
      NextLevelSize(f);
      Roots(f) + LevelOrder(NextLevel(f))
  }

  /** Going one level down leaves out the roots. */
  lemma {:induction false} NextLevelSize(f: seq<Tree>)
    ensures ForestSize(NextLevel(f)) + |Roots(f)| == ForestSize(f)
    ensures ForestSize(f) > 0 ==> Roots(f) != []
  {
    if f != [] {
      NextLevelSize(f[1..]);
      ChildrenSize(f[0]);
      ForestSizeAppend(Children(f[0]), NextLevel(f[1..]));
    }
  }

  lemma {:induction false} RootsAppend(f: seq<Tree>, g: seq<Tree>)
    ensures Roots(f + g) == Roots(f) + Roots(g)
    ensures NextLevel(f + g) == NextLevel(f) + NextLevel(g)
  {
    if f != [] {
      assert (f + g)[0] == f[0] && (f + g)[1..] == f[1..] + g;
      RootsAppend(f[1..], g);
    } else {
      assert f + g == g;
    }
  }

  /** Emptying a queue that starts with the whole forest `f` produces the
      roots of `f` first, and then what is left of the queue with the next
      level behind it. */
  lemma {:induction false} BfsLevel(f: seq<Tree>, g: seq<Tree>)
    ensures Bfs(f + g) == Roots(f) + Bfs(g + NextLevel(f))
    decreases |f|
  {
    if f == [] {
      assert f + g == g && g + NextLevel(f) == g;
    } else {
      var t, rest := f[0], f[1..];
      BfsLevel(rest, g + Children(t));
      BfsLevelStep(t, rest, g);
      assert f == [t] + rest;
    }
  }

  /** The inductive step of `BfsLevel`, for a forest `[t] + rest`. */
  lemma BfsLevelStep(t: Tree, rest: seq<Tree>, g: seq<Tree>)
    requires Bfs(rest + (g + Children(t))) == Roots(rest) + Bfs(g + Children(t) + NextLevel(rest))
    ensures Bfs([t] + rest + g) == Roots([t] + rest) + Bfs(g + NextLevel([t] + rest))
  {
    BfsFront(t, rest, g);
    LevelCons(t, rest);
    Associative(g, Children(t), NextLevel(rest));
    Associative(Roots([t]), Roots(rest), Bfs(g + NextLevel([t] + rest)));
  }

  /** After the front tree `t`, the queue holds the rest with the children
      of `t` behind it. */
  lemma BfsFront(t: Tree, rest: seq<Tree>, g: seq<Tree>)
    ensures Bfs([t] + rest + g) == Roots([t]) + Bfs(rest + (g + Children(t)))
  {
    Associative([t], rest, g);
    BfsCons(t, rest + g);
    Associative(rest, g, Children(t));
    RootsSingle(t);
    if t == Leaf {
      AppendEmpty(g);
      AppendEmpty(Bfs(rest + g));
    }
  }

  lemma RootsSingle(t: Tree)
    ensures Roots([t]) == if t == Leaf then [] else [t.value]
  {
    assert [t][1..] == [];
  }

  lemma AppendEmpty<T>(s: seq<T>)
    ensures s + [] == s && [] + s == s
  {
  }

  lemma LevelCons(t: Tree, rest: seq<Tree>)
    ensures Roots([t] + rest) == Roots([t]) + Roots(rest)
    ensures NextLevel([t] + rest) == Children(t) + NextLevel(rest)
  {
    var f := [t] + rest;
    assert f[0] == t && f[1..] == rest && [t][1..] == [];
  }

  lemma Associative<T>(a: seq<T>, b: seq<T>, c: seq<T>)
    ensures a + (b + c) == (a + b) + c
  {
  }

  /** Breadth-first order is level order. */
  lemma {:induction false} BfsIsLevelOrder(f: seq<Tree>)
    ensures Bfs(f) == LevelOrder(f)
    decreases ForestSize(f)
  {
    BfsLevel(f, []);
    assert f + [] == f && [] + NextLevel(f) == NextLevel(f);
    NextLevelSize(f);
    if ForestSize(f) == 0 {
      BfsEmpty(f);
    } else {
      BfsIsLevelOrder(NextLevel(f));
    }
  }

  /** A forest without nodes produces nothing. */
  lemma {:induction false} BfsEmpty(f: seq<Tree>)
    requires ForestSize(f) == 0
    ensures Bfs(f) == []
    decreases |f|
  {
    if f != [] {
      ChildrenSize(f[0]);
      assert f[0] == Leaf;
      BfsEmpty(f[1..]);
    }
  }

  /** One entry per node: breadth-first order lists the values of the forest. */
  lemma {:induction false} BfsElements(q: seq<Tree>)
    ensures multiset(Bfs(q)) == ForestElements(q)
    decreases ForestSize(q), |q|
  {
    if q != [] {
      ForestSizeAppend(q[1..], Children(q[0]));
      ChildrenSize(q[0]);
      ForestElementsAppend(q[1..], Children(q[0]));
      match q[0]
      case Leaf => BfsElements(q[1..]);
      case Node(_, v, _) =>
        BfsElements(q[1..] + Children(q[0]));
        ChildrenElements(q[0]);
    }
  }

  /** The values at depth `d` of `t`, left to right. */
  function Level(t: Tree, d: nat): seq<int> {
    match t
    case Leaf => []
    case Node(l, v, r) => if d == 0 then [v] else Level(l, d - 1) + Level(r, d - 1)
  }

  /** The values at depth `d` of the trees of `f`, left to right. */
  function ForestLevel(f: seq<Tree>, d: nat): seq<int> {
    if f == [] then [] else Level(f[0], d) + ForestLevel(f[1..], d)
  }

  /** The values at depths `0` to `h - 1`, depth by depth. */
  function Depths(f: seq<Tree>, h: nat): seq<int> {
    if h == 0 then [] else Depths(f, h - 1) + ForestLevel(f, h - 1)
  }

  function Height(t: Tree): nat {
    match t
    case Leaf => 0
    case Node(l, _, r) => 1 + (if Height(l) < Height(r) then Height(r) else Height(l))
  }

  lemma {:induction false} ForestLevelAppend(f: seq<Tree>, g: seq<Tree>, d: nat)
    ensures ForestLevel(f + g, d) == ForestLevel(f, d) + ForestLevel(g, d)
  {
    if f == [] {
      assert f + g == g;
    } else {
      assert (f + g)[0] == f[0] && (f + g)[1..] == f[1..] + g;
      ForestLevelAppend(f[1..], g, d);
      Associative(Level(f[0], d), ForestLevel(f[1..], d), ForestLevel(g, d));
    }
  }

  /** Depth 0 of a forest is its roots. */
  lemma {:induction false} LevelZero(f: seq<Tree>)
    ensures ForestLevel(f, 0) == Roots(f)
  {
    if f != [] {
      LevelZero(f[1..]);
    }
  }

  /** Depth `d` of the next level is depth `d + 1` of the forest. */
  lemma {:induction false} LevelDown(f: seq<Tree>, d: nat)
    ensures ForestLevel(NextLevel(f), d) == ForestLevel(f, d + 1)
  {
    if f != [] {
      var t := f[0];
      LevelDown(f[1..], d);
      ForestLevelAppend(Children(t), NextLevel(f[1..]), d);
      ChildrenLevel(t, d);
    }
  }

  lemma ChildrenLevel(t: Tree, d: nat)
    ensures ForestLevel(Children(t), d) == Level(t, d + 1)
  {
    match t
    case Leaf =>
    case Node(l, _, r) =>
      ForestLevelAppend(NonEmpty(l), NonEmpty(r), d);
      SingleLevel(l, d);
      SingleLevel(r, d);
  }

  lemma SingleLevel(t: Tree, d: nat)
    ensures ForestLevel(NonEmpty(t), d) == Level(t, d) && ForestLevel([t], d) == Level(t, d)
  {
    assert [t][1..] == [];
    AppendEmpty(Level(t, d));
  }

  /** Splitting off depth 0. */
  lemma {:induction false} DepthsDown(f: seq<Tree>, h: nat)
    requires h >= 1
    ensures Depths(f, h) == Roots(f) + Depths(NextLevel(f), h - 1)
  {
    LevelZero(f);
    if h == 1 {
      AppendEmpty(Roots(f));
    } else {
      DepthsDown(f, h - 1);
      LevelDown(f, h - 2);
      Associative(Roots(f), Depths(NextLevel(f), h - 2), ForestLevel(NextLevel(f), h - 2));
    }
  }

  lemma {:induction false} EmptyLevels(f: seq<Tree>, d: nat)
    requires ForestSize(f) == 0
    ensures ForestLevel(f, d) == []
  {
    if f != [] {
      EmptyLevels(f[1..], d);
    }
  }

  lemma {:induction false} EmptyDepths(f: seq<Tree>, h: nat)
    requires ForestSize(f) == 0
    ensures Depths(f, h) == []
  {
    if h > 0 {
      EmptyDepths(f, h - 1);
      EmptyLevels(f, h - 1);
    }
  }

  /** Level order lists the forest depth by depth, down to any depth `h`
      below which there is nothing. */
  lemma {:induction false} LevelOrderByDepth(f: seq<Tree>, h: nat)
    requires forall d :: d >= h ==> ForestLevel(f, d) == []
    ensures LevelOrder(f) == Depths(f, h)
    decreases ForestSize(f)
  {
    if ForestSize(f) == 0 {
      EmptyDepths(f, h);
    } else {
      NextLevelSize(f);
      LevelZero(f);
      assert h >= 1;
      forall d | d >= h - 1
        ensures ForestLevel(NextLevel(f), d) == []
      {
        LevelDown(f, d);
      }
      LevelOrderByDepth(NextLevel(f), h - 1);
      DepthsDown(f, h);
    }
  }

  /** A tree has nothing at its height or below. */
  lemma {:induction false} BelowHeight(t: Tree, d: nat)
    requires d >= Height(t)
    ensures Level(t, d) == []
  {
    match t
    case Leaf =>
    case Node(l, _, r) =>
      BelowHeight(l, d - 1);
      BelowHeight(r, d - 1);
  }

  /** The level order of a tree: all values at depth 0, then all at depth 1,
      and so on down to its height, each depth left to right. */
  lemma TreeLevelOrder(t: Tree)
    ensures LevelOrder([t]) == Depths([t], Height(t))
  {
    forall d | d >= Height(t)
      ensures ForestLevel([t], d) == []
    {
      SingleLevel(t, d);
      BelowHeight(t, d);
    }
    LevelOrderByDepth([t], Height(t));
  }

  /** `breadthFirstSearch`: the values of the tree level by level, left to
      right, the root's first, each node's exactly once. */
  method BreadthFirstSearch(root: Tree) returns (visited: seq<int>)
    requires root != Leaf
    ensures visited == LevelOrder([root])
    ensures visited == Depths([root], Height(root))
    ensures visited != [] && visited[0] == root.value
    ensures multiset(visited) == Elements(root)
  {
    var queue := new Queue.Queue<Tree>();
    var _ := queue.Enqueue(root);
    visited := [];
    var empty := queue.IsEmpty();
    while !empty
      invariant queue.Valid()
      invariant forall n :: n in queue.spine ==> fresh(n)
      invariant empty <==> queue.Contents == []
      invariant NoLeaves(queue.Contents)
      invariant visited + Bfs(queue.Contents) == Bfs([root])
      decreases ForestSize(queue.Contents)
    {
      ghost var pending0, spine0 := queue.Contents, queue.spine;
      ghost var visited0 := visited;
      visited, empty := VisitNext(queue, visited);
      assert forall n :: n in queue.spine ==> n in spine0 || fresh(n);
      Dequeued(pending0);
      Associative(visited0, [pending0[0].value], Bfs(queue.Contents));
    }
    AppendEmpty(visited);
    BfsIsLevelOrder([root]);
    TreeLevelOrder(root);
    BfsElements([root]);
    NonEmptySize(root);
  }

  /** Taking the front node off a queue and putting its children at the back
      goes one step through `Bfs`, and shrinks what is left to visit. */
  lemma Dequeued(q: seq<Tree>)
    requires q != [] && NoLeaves(q)
    ensures Bfs(q) == [q[0].value] + Bfs(q[1..] + Children(q[0]))
    ensures NoLeaves(q[1..] + Children(q[0]))
    ensures ForestSize(q[1..] + Children(q[0])) < ForestSize(q)
  {
    assert q[0] != Leaf;
    assert q == [q[0]] + q[1..];
    BfsCons(q[0], q[1..]);
    ChildrenNoLeaves(q[0]);
    ForestSizeAppend(q[1..], Children(q[0]));
    ChildrenSize(q[0]);
  }

  /** The body of the `while` loop and its next test: dequeues a node,
      records its value, enqueues its children, and tells whether the queue
      is now empty. */
  method VisitNext(queue: Queue.Queue<Tree>, visited: seq<int>) returns (visited': seq<int>, empty: bool)
    requires queue.Valid() && queue.Contents != [] && queue.Contents[0] != Leaf
    modifies queue, set n | n in queue.spine
    ensures queue.Valid()
    ensures visited' == visited + [old(queue.Contents)[0].value]
    ensures queue.Contents == old(queue.Contents)[1..] + Children(old(queue.Contents)[0])
    ensures forall n :: n in queue.spine ==> n in old(queue.spine) || fresh(n)
    ensures empty <==> queue.Contents == []
  {
    assert queue.spine[0] in queue.spine;
    var front := queue.Dequeue();
    var node := front.value;
    visited' := visited + [node.value];
    ghost var rest, spine1 := queue.Contents, queue.spine;
    EnqueuePresent(queue, node.left);
    ghost var spine2 := queue.spine;
    assert forall n :: n in spine2 ==> n in spine1 || fresh(n);
    EnqueuePresent(queue, node.right);
    assert forall n :: n in queue.spine ==> n in spine2 || fresh(n);
    Associative(rest, NonEmpty(node.left), NonEmpty(node.right));
    empty := queue.IsEmpty();
  }

  /** `if (t) queue.enqueue(t)`, keeping track of the nodes of the queue. */
  method EnqueuePresent(queue: Queue.Queue<Tree>, t: Tree)
    requires queue.Valid()
    modifies queue, set n | n in queue.spine
    ensures queue.Valid() && queue.Contents == old(queue.Contents) + NonEmpty(t)
    ensures forall n :: n in queue.spine ==> n in old(queue.spine) || fresh(n)
  {
    if t == Leaf {
      AppendEmpty(queue.Contents);
      return;
    }
    if queue.spine != [] {
      assert queue.spine[|queue.spine| - 1] in queue.spine;
    }
    var _ := queue.Enqueue(t);
  }
}
