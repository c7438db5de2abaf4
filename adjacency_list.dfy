/**
 * The graphs that algorithms/graph-traversal/breadthFirstSearch.js and
 * algorithms/graph-traversal/depthFirstSearch.js traverse: an object mapping
 * every vertex to the array of its neighbours. Also the `visited` set of those
 * traversals, a JavaScript `Set`, which lists its members in the order they
 * were first added.
 */
module AdjacencyList {
  import opened Sequences

  type Graph<V> = map<V, seq<V>>

  /** Every neighbour is itself a vertex, so `graph[node]` is defined for any
      node a traversal reaches. */
  ghost predicate Closed<V(!new)>(graph: Graph<V>) {
    forall u, w :: u in graph && w in graph[u] ==> w in graph
  }

  /** `p` follows edges of `graph`. */
  ghost predicate IsPath<V(!new)>(graph: Graph<V>, p: seq<V>) {
    && p != []
    && forall i :: 0 <= i < |p| - 1 ==> p[i] in graph && p[i + 1] in graph[p[i]]
  }

  /** Some path leads from `source` to `v`. */
  ghost predicate Reachable<V(!new)>(graph: Graph<V>, source: V, v: V) {
    exists p :: IsPath(graph, p) && p[0] == source && p[|p| - 1] == v
  }

  lemma ReachableSource<V(!new)>(graph: Graph<V>, source: V)
    ensures Reachable(graph, source, source)
  {
    assert IsPath(graph, [source]);
  }

  /** A neighbour of a reachable vertex is reachable. */
  lemma ReachableStep<V(!new)>(graph: Graph<V>, source: V, u: V, w: V)
    requires Reachable(graph, source, u) && u in graph && w in graph[u]
    ensures Reachable(graph, source, w)
  {
    var p :| IsPath(graph, p) && p[0] == source && p[|p| - 1] == u;
    var q := p + [w];
    assert IsPath(graph, q);
  }

  /** A vertex reachable from a neighbour of `u` is reachable from `u`. */
  lemma ReachableThrough<V(!new)>(graph: Graph<V>, u: V, w: V, v: V)
    requires u in graph && w in graph[u] && Reachable(graph, w, v)
    ensures Reachable(graph, u, v)
  {
    var p :| IsPath(graph, p) && p[0] == w && p[|p| - 1] == v;
    var q := [u] + p;
    assert IsPath(graph, q);
  }

  /** A set of vertices that holds `source` and the neighbours of each of
      its members holds every vertex reachable from `source`. */
  lemma ClosedContainsReachable<V(!new)>(graph: Graph<V>, vs: set<V>, source: V, v: V)
    requires source in vs
    requires forall u, w :: u in vs && u in graph && w in graph[u] ==> w in vs
    requires Reachable(graph, source, v)
    ensures v in vs
  {
    var p :| IsPath(graph, p) && p[0] == source && p[|p| - 1] == v;
    PathInside(graph, vs, p, |p| - 1);
  }

  lemma {:induction false} PathInside<V(!new)>(graph: Graph<V>, vs: set<V>, p: seq<V>, i: nat)
    requires IsPath(graph, p) && p[0] in vs && i < |p|
    requires forall u, w :: u in vs && u in graph && w in graph[u] ==> w in vs
    ensures p[i] in vs
  {
    if i > 0 {
      PathInside(graph, vs, p, i - 1);
      assert p[i - 1] in graph && p[i] in graph[p[i - 1]];
    }
  }

  /** `visited.add(x)`: a member is not added twice, a new one goes last. */
  function Add<V(==,!new)>(visited: seq<V>, x: V): (r: seq<V>)
    ensures x in r && (forall v :: v in r <==> v in visited || v == x)
    ensures Distinct(visited) ==> Distinct(r)
    ensures x in visited ==> r == visited
    ensures x !in visited ==> |r| == |visited| + 1 && r[..|visited|] == visited
  {
    if x in visited then visited else visited + [x]
  }

  /** The vertices not visited yet. */
  ghost function Unvisited<V(!new)>(graph: Graph<V>, visited: seq<V>): set<V> {
    set v | v in graph && v !in visited
  }

  /** Visiting a new vertex leaves fewer to visit. */
  lemma UnvisitedShrinks<V(!new)>(graph: Graph<V>, visited: seq<V>, x: V)
    requires x in graph && x !in visited
    ensures |Unvisited(graph, Add(visited, x))| < |Unvisited(graph, visited)|
  {
    assert Unvisited(graph, Add(visited, x)) == Unvisited(graph, visited) - {x};
  }

  /** Visiting more leaves no more to visit. */
  lemma UnvisitedMonotone<V(!new)>(graph: Graph<V>, visited: seq<V>, visited': seq<V>)
    requires forall v :: v in visited ==> v in visited'
    ensures |Unvisited(graph, visited')| <= |Unvisited(graph, visited)|
  {
    var a, b := Unvisited(graph, visited'), Unvisited(graph, visited);
    assert b == a + (b - a) && a * (b - a) == {};
  }

  /** The position of the first entry of `pending` not visited yet, or
      `|pending|` when there is none. Entries before it are stale: taking them
      out visits nothing new. */
  ghost function FirstUnvisited<V>(pending: seq<V>, visited: seq<V>): (k: nat)
    ensures k <= |pending|
    ensures forall i :: 0 <= i < k ==> pending[i] in visited
    ensures k < |pending| ==> pending[k] !in visited
  {
    if pending == [] then 0
    else if pending[0] !in visited then 0
    else 1 + FirstUnvisited(pending[1..], visited)
  }

  /** Appending entries not visited yet does not move the first one. */
  lemma {:induction false} FirstUnvisitedAppend<V>(pending: seq<V>, xs: seq<V>, visited: seq<V>)
    requires forall x :: x in xs ==> x !in visited
    ensures FirstUnvisited(pending + xs, visited) == FirstUnvisited(pending, visited)
  {
    if pending == [] {
      assert pending + xs == xs;
    } else if pending[0] in visited {
      assert (pending + xs)[1..] == pending[1..] + xs;
      FirstUnvisitedAppend(pending[1..], xs, visited);
    }
  }

  /** Putting entries not visited yet in front moves the first one to the
      front, if there are any. */
  lemma FirstUnvisitedPrepend<V>(xs: seq<V>, pending: seq<V>, visited: seq<V>)
    requires forall x :: x in xs ==> x !in visited
    ensures FirstUnvisited(xs + pending, visited) <= FirstUnvisited(pending, visited)
  {
    if xs == [] {
      assert xs + pending == pending;
    } else {
      assert (xs + pending)[0] == xs[0];
    }
  }

  /** The entries of `neighbors` not in `visited`, in order: what the loop
      over the neighbours of a node hands to the queue or the stack. */
  ghost function Unseen<V>(neighbors: seq<V>, visited: seq<V>): seq<V> {
    if neighbors == [] then []
    else
      var init, last := neighbors[..|neighbors| - 1], neighbors[|neighbors| - 1];
      Unseen(init, visited) + (if last in visited then [] else [last])
  }

  /** `Unseen` keeps exactly the neighbours not visited. */
  lemma {:induction false} UnseenMembers<V>(neighbors: seq<V>, visited: seq<V>, v: V)
    ensures v in Unseen(neighbors, visited) <==> v in neighbors && v !in visited
  {
    if neighbors != [] {
      var init, last := neighbors[..|neighbors| - 1], neighbors[|neighbors| - 1];
      assert neighbors == init + [last];
      UnseenMembers(init, visited, v);
    }
  }

  lemma UnseenNotVisited<V>(neighbors: seq<V>, visited: seq<V>)
    ensures forall v :: v in Unseen(neighbors, visited) ==> v !in visited
  {
    forall v | v in Unseen(neighbors, visited) {
      UnseenMembers(neighbors, visited, v);
    }
  }

  lemma UnseenSnoc<V>(neighbors: seq<V>, x: V, visited: seq<V>)
    ensures Unseen(neighbors + [x], visited) == Unseen(neighbors, visited) + (if x in visited then [] else [x])
  {
    assert (neighbors + [x])[..|neighbors|] == neighbors;
  }

  /** The state of a traversal between two iterations: `visited` is where it
      has been and `pending` what its queue or stack still holds. Everything in
      either is a reachable vertex, and every neighbour of a visited vertex is
      visited or pending. */
  ghost predicate Traversing<V(!new)>(graph: Graph<V>, source: V, visited: seq<V>, pending: seq<V>) {
    && Distinct(visited)
    && (visited == [] ==> pending == [source])
    && (visited != [] ==> visited[0] == source)
    && (forall v :: v in visited ==> v in graph && Reachable(graph, source, v))
    && (forall v :: v in pending ==> v in graph && Reachable(graph, source, v))
    && (forall u, w :: u in visited && w in graph[u] ==> w in visited || w in pending)
  }

  /** One iteration of the traversal loop: take the next pending node,
      visit it, and hand over its neighbours not visited yet. Where they go
      (the back of a queue, the top of a stack) does not matter. */
  lemma TraversalStep<V(!new)>(graph: Graph<V>, source: V, visited: seq<V>, pending: seq<V>, pending': seq<V>)
    requires Closed(graph) && Traversing(graph, source, visited, pending) && pending != []
    requires forall v :: v in pending' <==>
      v in pending[1..] || v in Unseen(graph[pending[0]], Add(visited, pending[0]))
    ensures Traversing(graph, source, Add(visited, pending[0]), pending')
  {
    var node := pending[0];
    var visited' := Add(visited, node);
    assert node in pending;
    forall v | v in pending'
      ensures v in graph && Reachable(graph, source, v)
    {
      UnseenMembers(graph[node], visited', v);
      if v !in pending[1..] {
        ReachableStep(graph, source, node, v);
      }
    }
    forall u, w | u in visited' && w in graph[u]
      ensures w in visited' || w in pending'
    {
      UnseenMembers(graph[node], visited', w);
      if u in visited && w in pending && w !in pending[1..] {
        assert pending == [node] + pending[1..];
      }
    }
  }

  /** A traversal with nothing pending has visited exactly the vertices
      reachable from `source`. */
  lemma TraversalDone<V(!new)>(graph: Graph<V>, source: V, visited: seq<V>)
    requires Traversing(graph, source, visited, [])
    ensures visited != [] && visited[0] == source
    ensures forall v :: v in visited <==> Reachable(graph, source, v)
  {
    var vs := set v | v in visited;
    forall v | Reachable(graph, source, v)
      ensures v in visited
    {
      ClosedContainsReachable(graph, vs, source, v);
    }
  }
}
