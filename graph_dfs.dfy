/**
 * The depth-first traversals of algorithms/graph-traversal/depthFirstSearch.js:
 * one driven by the linked stack of data-structures/Stack.js, one recursive.
 */
module GraphDepthFirstSearch {
  import opened Sequences
  import opened AdjacencyList
  import Stack

  /** `depthFirstSearch`: an empty graph gives an empty traversal; otherwise
      the traversal starts at `source`, lists no vertex twice and lists
      exactly the vertices reachable from `source`. */
  method DepthFirstSearch<V(==,!new)>(graph: Graph<V>, source: V) returns (r: seq<V>)
    requires graph != map[] ==> source in graph && Closed(graph)
    ensures graph == map[] ==> r == []
    ensures graph != map[] ==> r != [] && r[0] == source && Distinct(r)
    ensures graph != map[] ==> forall v :: v in r <==> Reachable(graph, source, v)
  {
    if |graph| == 0 {
      return [];
    }
    var stack := new Stack.Stack<V>();
    var _ := stack.Push(source);
    var visited: seq<V> := [];
    ReachableSource(graph, source);
    while stack.length > 0
      invariant stack.Valid()
      invariant forall n :: n in stack.spine ==> fresh(n)
      invariant Traversing(graph, source, visited, stack.Contents)
      decreases |Unvisited(graph, visited)|, FirstUnvisited(stack.Contents, visited)
    {
      ghost var visited0, pending0, spine0 := visited, stack.Contents, stack.spine;
      visited := VisitNext(graph, stack, visited);
      assert forall n :: n in stack.spine ==> n in spine0 || fresh(n);
      var node := pending0[0];
      var unseen := Unseen(graph[node], visited);
      forall v
        ensures v in stack.Contents <==> v in pending0[1..] || v in unseen
      {
        ReverseMembers(unseen, v);
      }
      TraversalStep(graph, source, visited0, pending0, stack.Contents);
      if node in visited0 {
        UnseenNotVisited(graph[node], visited);
        forall v | v in Reverse(unseen)
          ensures v !in visited
        {
          ReverseMembers(unseen, v);
        }
        FirstUnvisitedPrepend(Reverse(unseen), pending0[1..], visited);
      } else {
        UnvisitedShrinks(graph, visited0, node);
      }
    }
    TraversalDone(graph, source, visited);
    r := visited;
  }

  /** The body of the `while` loop: pops a node, marks it visited and pushes
      its neighbours not visited yet, so that the last of them is on top. */
  method VisitNext<V(==,!new)>(graph: Graph<V>, stack: Stack.Stack<V>, visited: seq<V>) returns (visited': seq<V>)
    requires stack.Valid() && stack.Contents != [] && stack.Contents[0] in graph
    modifies stack, set n | n in stack.spine
    ensures stack.Valid()
    ensures visited' == Add(visited, old(stack.Contents)[0])
    ensures stack.Contents == Reverse(Unseen(graph[old(stack.Contents)[0]], visited')) + old(stack.Contents)[1..]
    ensures forall n :: n in stack.spine ==> n in old(stack.spine) || fresh(n)
  {
    assert stack.spine[0] in stack.spine;
    var top := stack.Pop();
    var node := top.value;
    visited' := Add(visited, node);
    PushUnvisited(stack, graph[node], visited');
  }

  /** The `for...of` loop over the neighbours: pushes, in order, those not
      visited yet. */
  method PushUnvisited<V(==,!new)>(stack: Stack.Stack<V>, neighbors: seq<V>, visited: seq<V>)
    requires stack.Valid()
    modifies stack
    ensures stack.Valid()
    ensures stack.Contents == Reverse(Unseen(neighbors, visited)) + old(stack.Contents)
    ensures forall n :: n in stack.spine ==> n in old(stack.spine) || fresh(n)
  {
    for j := 0 to |neighbors|
      invariant stack.Valid()
      invariant stack.Contents == Reverse(Unseen(neighbors[..j], visited)) + old(stack.Contents)
      invariant forall n :: n in stack.spine ==> n in old(stack.spine) || fresh(n)
    {
      var neighbor := neighbors[j];
      ghost var u := Unseen(neighbors[..j], visited);
      UnseenSnoc(neighbors[..j], neighbor, visited);
      assert neighbors[..j + 1] == neighbors[..j] + [neighbor];
      if neighbor !in visited {
        PushedOnReversal(u, neighbor, old(stack.Contents));
        var _ := stack.Push(neighbor);
      } else {
        assert u + [] == u;
      }
    }
    assert neighbors[..|neighbors|] == neighbors;
  }

  /** Pushing `x` onto a stack holding the reversal of `u` above `rest`. */
  lemma PushedOnReversal<V>(u: seq<V>, x: V, rest: seq<V>)
    ensures [x] + (Reverse(u) + rest) == Reverse(u + [x]) + rest
  {
    ReverseSnoc(u, x);
  }

  /** `recursiveDepthFirstSearch`: the traversal starts at `source`, lists no
      vertex twice and lists exactly the vertices reachable from `source`. */
  method RecursiveDepthFirstSearch<V(==,!new)>(graph: Graph<V>, source: V) returns (r: seq<V>)
    requires source in graph && Closed(graph)
    ensures r != [] && r[0] == source && Distinct(r)
    ensures forall v :: v in r <==> Reachable(graph, source, v)
  {
    r := RecursiveDfsImpl(graph, source, []);
    var vs := set v | v in r;
    forall v | Reachable(graph, source, v)
      ensures v in r
    {
      ClosedContainsReachable(graph, vs, source, v);
    }
  }

  /** `recursiveDFSImpl`: `visited` comes back with `node` and then every
      vertex reachable from `node` that it did not hold yet appended; the
      neighbours of each vertex appended are in the result. */
  method RecursiveDfsImpl<V(==,!new)>(graph: Graph<V>, node: V, visited: seq<V>) returns (r: seq<V>)
    requires Closed(graph) && node in graph && node !in visited && Distinct(visited)
    ensures |r| > |visited| && r[..|visited|] == visited && r[|visited|] == node
    ensures Distinct(r)
    ensures forall v :: v in r && v !in visited ==> v in graph && Reachable(graph, node, v)
    ensures forall u, w :: u in r && u !in visited && w in graph[u] ==> w in r
    decreases |Unvisited(graph, visited)|
  {
    var neighbors := graph[node];
    r := Add(visited, node);
    UnvisitedShrinks(graph, visited, node);
    ReachableSource(graph, node);
    for j := 0 to |neighbors|
      invariant |r| > |visited| && r[..|visited|] == visited && r[|visited|] == node
      invariant Distinct(r)
      invariant |Unvisited(graph, r)| < |Unvisited(graph, visited)|
      invariant forall v :: v in r && v !in visited ==> v in graph && Reachable(graph, node, v)
      invariant forall u, w :: u in r && u !in visited && w in graph[u] ==>
        w in r || (u == node && w in neighbors[j..])
    {
      var neighbor := neighbors[j];
      if neighbor !in r {
        ghost var r0 := r;
        r := RecursiveDfsImpl(graph, neighbor, r);
        Extended(graph, node, neighbor, visited, r0, r);
      }
    }
  }

  /** What the loop of `RecursiveDfsImpl` keeps when a recursive call on a
      neighbour extends `r0` to `r`. */
  lemma Extended<V(!new)>(graph: Graph<V>, node: V, neighbor: V, visited: seq<V>, r0: seq<V>, r: seq<V>)
    requires node in graph && neighbor in graph[node]
    requires |r0| > |visited| && r0[..|visited|] == visited
    requires |r| > |r0| && r[..|r0|] == r0
    requires forall v :: v in r && v !in r0 ==> v in graph && Reachable(graph, neighbor, v)
    ensures |r| > |visited| && r[..|visited|] == visited
    ensures forall v :: v in r0 ==> v in r
    ensures |Unvisited(graph, r)| <= |Unvisited(graph, r0)|
    ensures forall v :: v in r && v !in r0 ==> Reachable(graph, node, v)
  {
    assert r[..|visited|] == r[..|r0|][..|visited|];
    forall v | v in r0
      ensures v in r
    {
      var i :| 0 <= i < |r0| && r0[i] == v;
      assert r[i] == v;
    }
    UnvisitedMonotone(graph, r0, r);
    forall v | v in r && v !in r0
      ensures Reachable(graph, node, v)
    {
      ReachableThrough(graph, node, neighbor, v);
    }
  }
}
