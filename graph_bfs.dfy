/**
 * The breadth-first traversal of algorithms/graph-traversal/breadthFirstSearch.js,
 * driven by the linked queue of data-structures/Queue.js.
 */
module GraphBreadthFirstSearch {
  import opened Sequences
  import opened AdjacencyList
  import Queue

  /** `breadthFirstSearch`: an empty graph gives an empty traversal; otherwise
      the traversal starts at `source`, lists no vertex twice and lists
      exactly the vertices reachable from `source`. */
  method BreadthFirstSearch<V(==,!new)>(graph: Graph<V>, source: V) returns (r: seq<V>)
    requires graph != map[] ==> source in graph && Closed(graph)
    ensures graph == map[] ==> r == []
    ensures graph != map[] ==> r != [] && r[0] == source && Distinct(r)
    ensures graph != map[] ==> forall v :: v in r <==> Reachable(graph, source, v)
  {
    if |graph| == 0 {
      return [];
    }
    var queue := new Queue.Queue<V>();
    var _ := queue.Enqueue(source);
    var visited: seq<V> := [];
    ReachableSource(graph, source);
    var empty := queue.IsEmpty();
    while !empty
      invariant queue.Valid()
      invariant forall n :: n in queue.spine ==> fresh(n)
      invariant empty <==> queue.Contents == []
      invariant Traversing(graph, source, visited, queue.Contents)
      decreases |Unvisited(graph, visited)|, FirstUnvisited(queue.Contents, visited)
    {
      ghost var visited0, pending0, spine0 := visited, queue.Contents, queue.spine;
      visited, empty := VisitNext(graph, queue, visited);
      assert forall n :: n in queue.spine ==> n in spine0 || fresh(n);
      var node := pending0[0];
      TraversalStep(graph, source, visited0, pending0, queue.Contents);
      if node in visited0 {
        UnseenNotVisited(graph[node], visited);
        FirstUnvisitedAppend(pending0[1..], Unseen(graph[node], visited), visited);
      } else {
        UnvisitedShrinks(graph, visited0, node);
      }
    }
    TraversalDone(graph, source, visited);
    r := visited;
  }

  /** The body of the `while` loop and its next test: dequeues a node, marks
      it visited, enqueues its neighbours not visited yet, and tells whether the
      queue is now empty. */
  method VisitNext<V(==,!new)>(graph: Graph<V>, queue: Queue.Queue<V>, visited: seq<V>) returns (visited': seq<V>, empty: bool)
    requires queue.Valid() && queue.Contents != [] && queue.Contents[0] in graph
    modifies queue, set n | n in queue.spine
    ensures queue.Valid()
    ensures visited' == Add(visited, old(queue.Contents)[0])
    ensures queue.Contents == old(queue.Contents)[1..] + Unseen(graph[old(queue.Contents)[0]], visited')
    ensures forall n :: n in queue.spine ==> n in old(queue.spine) || fresh(n)
    ensures empty <==> queue.Contents == []
  {
    assert queue.spine[0] in queue.spine;
    var front := queue.Dequeue();
    var node := front.value;
    visited' := Add(visited, node);
    EnqueueUnvisited(queue, graph[node], visited');
    empty := queue.IsEmpty();
  }

  /** The `for...of` loop over the neighbours: enqueues, in order, those not
      visited yet. */
  method EnqueueUnvisited<V(==,!new)>(queue: Queue.Queue<V>, neighbors: seq<V>, visited: seq<V>)
    requires queue.Valid()
    modifies queue, set n | n in queue.spine
    ensures queue.Valid()
    ensures queue.Contents == old(queue.Contents) + Unseen(neighbors, visited)
    ensures forall n :: n in queue.spine ==> n in old(queue.spine) || fresh(n)
  {
    for j := 0 to |neighbors|
      invariant queue.Valid()
      invariant queue.Contents == old(queue.Contents) + Unseen(neighbors[..j], visited)
      invariant forall n :: n in queue.spine ==> n in old(queue.spine) || fresh(n)
    {
      var neighbor := neighbors[j];
      UnseenSnoc(neighbors[..j], neighbor, visited);
      assert neighbors[..j + 1] == neighbors[..j] + [neighbor];
      if neighbor !in visited {
        Appended(old(queue.Contents), Unseen(neighbors[..j], visited), neighbor);
        if queue.spine != [] {
          assert queue.spine[|queue.spine| - 1] in queue.spine;
        }
        var _ := queue.Enqueue(neighbor);
      }
    }
    assert neighbors[..|neighbors|] == neighbors;
  }

  lemma Appended<V>(front: seq<V>, u: seq<V>, x: V)
    ensures (front + u) + [x] == front + (u + [x])
  {
  }
}
