/**
 * Dijkstra's shortest path of algorithms/pathfinding-algorithms/dijkstrasAlgorithm.js
 * over the `nodes` map of a Graph: a binary-heap priority queue with lazy
 * duplicate insertion, a set of settled vertices, and the path rebuilt from
 * the parent links.
 */
module Dijkstra {
  import opened Wrappers
  import opened Graph
  import opened Sequences
  import PQ = PriorityQueue

  /** A distance to the source: a natural number, or `Infinity` for "not reached yet". */
  datatype Distance = Finite(n: nat) | Infinity

  /** The per-vertex record of the source: distance to the source and parent on the best path found. */
  datatype Info<V> = Info(distanceToSource: Distance, parent: Option<V>)

  /** `newDistance < oldDistance` in JavaScript, where every number is below `Infinity`. */
  predicate Shorter(newDistance: nat, oldDistance: Distance) {
    oldDistance.Infinity? || newDistance < oldDistance.n
  }

  // ---------------------------------------------------------------------------
  // Paths and their weights

  /** `p` is a non-empty walk along edges of the graph. */
  ghost predicate IsPath<V(!new)>(graph: map<V, Adjacency<V, nat>>, p: seq<V>) {
    && |p| >= 1
    && (forall i :: 0 <= i < |p| ==> p[i] in graph)
    && (forall i :: 0 < i < |p| ==> p[i] in graph[p[i - 1]].to)
  }

  /** The sum of the edge weights along `p`. */
  ghost function Weight<V(!new)>(graph: map<V, Adjacency<V, nat>>, p: seq<V>): nat
    requires IsPath(graph, p)
    decreases |p|
  {
    if |p| == 1 then 0
    else
      assert IsPath(graph, p[..|p| - 1]);
      Weight(graph, p[..|p| - 1]) + graph[p[|p| - 2]].to[p[|p| - 1]]
  }

  ghost predicate Reachable<V(!new)>(graph: map<V, Adjacency<V, nat>>, source: V, target: V) {
    exists p :: IsPath(graph, p) && p[0] == source && p[|p| - 1] == target
  }

  /** No path from `source` to `target` weighs less than `d`. */
  ghost predicate ShortestBound<V(!new)>(graph: map<V, Adjacency<V, nat>>, source: V, target: V, d: nat) {
    forall p :: IsPath(graph, p) && p[0] == source && p[|p| - 1] == target ==> d <= Weight(graph, p)
  }

  // ---------------------------------------------------------------------------
  // The invariants of the main loop

  /** The parent of `v` is a vertex with an edge to `v`, and `v`'s distance is the
      parent's distance plus the weight of that edge. */
  ghost predicate ParentEdge<V(!new)>(graph: map<V, Adjacency<V, nat>>, info: map<V, Info<V>>, v: V)
    requires v in info && info[v].parent.Some?
  {
    var u := info[v].parent.value;
    && u in graph && u in info && v in graph[u].to
    && info[u].distanceToSource.Finite? && info[v].distanceToSource.Finite?
    && info[v].distanceToSource.n == info[u].distanceToSource.n + graph[u].to[v]
  }

  /** The shape of the records: one per vertex, the source at distance 0 with no
      parent, every other reached vertex with a parent along a tight edge. */
  ghost predicate InfoShape<V(!new)>(graph: map<V, Adjacency<V, nat>>, source: V, info: map<V, Info<V>>) {
    && info.Keys == graph.Keys
    && source in info && info[source] == Info(Finite(0), None)
    && (forall v :: v in info && v != source && info[v].distanceToSource.Finite? ==> info[v].parent.Some?)
    && (forall v :: v in info && info[v].parent.Some? ==> v != source && ParentEdge(graph, info, v))
  }

  /** The position of `v` in the settling order; vertices not yet settled come after all settled ones. */
  ghost function Rank<V(!new)>(order: map<V, nat>, step: nat, v: V): nat {
    if v in order then order[v] else step
  }

  /** The settling order: parents were settled before their children, and the
      source is settled first. */
  ghost predicate SettledOrder<V(!new)>(graph: map<V, Adjacency<V, nat>>, source: V, info: map<V, Info<V>>, visited: set<V>, order: map<V, nat>, step: nat) {
    && visited <= graph.Keys && order.Keys == visited
    && (forall u :: u in order ==> order[u] < step)
    && (forall v :: v in info && info[v].parent.Some? ==>
          info[v].parent.value in visited && order[info[v].parent.value] < Rank(order, step, v))
    && (visited != {} ==> source in visited)
  }

  /** The settled distances: each settled vertex has its final, shortest distance,
      and every edge out of a settled vertex is relaxed. */
  ghost predicate SettledDistances<V(!new)>(graph: map<V, Adjacency<V, nat>>, source: V, info: map<V, Info<V>>, visited: set<V>)
    requires info.Keys == graph.Keys && visited <= graph.Keys
  {
    && (forall a :: a in visited ==>
          info[a].distanceToSource.Finite? && ShortestBound(graph, source, a, info[a].distanceToSource.n))
    && (forall a :: a in visited && info[a].distanceToSource.Finite? ==>
          EdgesRelaxed(graph, info, visited, a, info[a].distanceToSource.n))
  }

  /** Every edge out of `a`, at distance `d`, into a vertex outside `visited` is
      relaxed: its head is reached within `d` plus the edge's weight. */
  ghost predicate EdgesRelaxed<V(!new)>(graph: map<V, Adjacency<V, nat>>, info: map<V, Info<V>>, visited: set<V>, a: V, d: nat)
    requires a in graph
  {
    forall b :: b in graph[a].to && b !in visited ==>
      b in info && info[b].distanceToSource.Finite? && info[b].distanceToSource.n <= d + graph[a].to[b]
  }

  /** The settled vertices: each has its final, shortest distance, every edge out
      of a settled vertex is relaxed, and parents were settled before their children. */
  ghost predicate Settled<V(!new)>(graph: map<V, Adjacency<V, nat>>, source: V, info: map<V, Info<V>>, visited: set<V>, order: map<V, nat>, step: nat)
    requires info.Keys == graph.Keys
  {
    SettledOrder(graph, source, info, visited, order, step) && SettledDistances(graph, source, info, visited)
  }

  /** The queue: every entry names a reached vertex with a key no smaller than its
      distance, and every reached vertex not yet settled has an entry with its exact distance. */
  ghost predicate Frontier<V(!new)>(graph: map<V, Adjacency<V, nat>>, info: map<V, Info<V>>, visited: set<V>, heap: seq<PQ.Entry<V>>)
    requires info.Keys == graph.Keys
  {
    && (forall e :: e in heap ==>
          e.value in info && info[e.value].distanceToSource.Finite? && info[e.value].distanceToSource.n <= e.key)
    && (forall v :: v in info && v !in visited && info[v].distanceToSource.Finite? ==>
          PQ.Entry(v, info[v].distanceToSource.n as int) in heap)
  }

  // ---------------------------------------------------------------------------
  // Lemmas

  lemma PrefixIsPath<V(!new)>(graph: map<V, Adjacency<V, nat>>, p: seq<V>)
    requires IsPath(graph, p) && |p| >= 2
    ensures IsPath(graph, p[..|p| - 1])
    ensures Weight(graph, p) == Weight(graph, p[..|p| - 1]) + graph[p[|p| - 2]].to[p[|p| - 1]]
  {
  }

  /** A path that leaves the settled set crosses into an unsettled, reached vertex
      whose distance is at most the path's weight. */
  lemma {:induction false} Crossing<V(!new)>(graph: map<V, Adjacency<V, nat>>, source: V, info: map<V, Info<V>>, visited: set<V>, order: map<V, nat>, step: nat, p: seq<V>)
    returns (b: V)
    requires info.Keys == graph.Keys && Settled(graph, source, info, visited, order, step)
    requires IsPath(graph, p) && p[0] == source && source in visited && p[|p| - 1] !in visited
    ensures b in info && b !in visited && info[b].distanceToSource.Finite?
    ensures info[b].distanceToSource.n <= Weight(graph, p)
    decreases |p|
  {
    var n := |p|;
    PrefixIsPath(graph, p);
    var q := p[..n - 1];
    var y := p[n - 2];
    assert q[0] == source && q[|q| - 1] == y;
    if y in visited {
      b := p[n - 1];
      assert p[n - 1] in graph[p[n - 2]].to;
      assert EdgesRelaxed(graph, info, visited, y, info[y].distanceToSource.n);
      assert info[y].distanceToSource.n <= Weight(graph, q);
    } else {
      b := Crossing(graph, source, info, visited, order, step, q);
    }
  }

  /** The entry pulled for a vertex not yet settled carries its exact distance,
      and that distance is the shortest. */
  lemma SettleFacts<V(!new)>(graph: map<V, Adjacency<V, nat>>, source: V, info: map<V, Info<V>>, visited: set<V>, order: map<V, nat>, step: nat, heap: seq<PQ.Entry<V>>, e: PQ.Entry<V>)
    requires InfoShape(graph, source, info) && Settled(graph, source, info, visited, order, step)
    requires Frontier(graph, info, visited, heap) && (visited == {} ==> heap == [PQ.Entry(source, 0)])
    requires e in heap && (forall f :: f in heap ==> e.key <= f.key) && e.value !in visited
    ensures e.value in info && info[e.value].distanceToSource == Finite(e.key)
    ensures ShortestBound(graph, source, e.value, e.key)
  {
    var x := e.value;
    assert PQ.Entry(x, info[x].distanceToSource.n as int) in heap;
    forall p | IsPath(graph, p) && p[0] == source && p[|p| - 1] == x
      ensures e.key <= Weight(graph, p)
    {
      if visited != {} {
        var b := Crossing(graph, source, info, visited, order, step, p);
        assert PQ.Entry(b, info[b].distanceToSource.n as int) in heap;
      }
    }
  }

  /** Removing the entry of a settled vertex keeps the queue invariant. */
  lemma DropSettledEntry<V(!new)>(graph: map<V, Adjacency<V, nat>>, info: map<V, Info<V>>, visited: set<V>, visitedAfter: set<V>, heap: seq<PQ.Entry<V>>, rest: seq<PQ.Entry<V>>, e: PQ.Entry<V>)
    requires info.Keys == graph.Keys && Frontier(graph, info, visited, heap)
    requires multiset(rest) == multiset(heap) - multiset{e} && visited <= visitedAfter && e.value in visitedAfter
    ensures Frontier(graph, info, visitedAfter, rest)
  {
    forall f | f in rest
      ensures f in heap
    {
      assert f in multiset(rest);
    }
    forall v | v in info && v !in visitedAfter && info[v].distanceToSource.Finite?
      ensures PQ.Entry(v, info[v].distanceToSource.n as int) in rest
    {
      var f := PQ.Entry(v, info[v].distanceToSource.n as int);
      assert f in multiset(heap) && f != e;
      assert f in multiset(rest);
    }
  }

  /** One new record, for a neighbour of `node` reached through a strictly shorter path. */
  ghost predicate Relaxed<V(!new)>(graph: map<V, Adjacency<V, nat>>, info: map<V, Info<V>>, visited: set<V>, node: V, distanceToSource: nat, v: V, record: Info<V>)
    requires node in graph && v in info
  {
    && v !in visited && v in graph[node].to
    && Shorter(distanceToSource + graph[node].to[v], info[v].distanceToSource)
    && record == Info(Finite(distanceToSource + graph[node].to[v]), Some(node))
  }

  /** The invariant of the `neighbors.forEach` loop: `rest` holds the neighbours
      not handled yet, and every record that differs from `info` was relaxed and
      has its entry in the queue. */
  ghost predicate ExpandStage<V(!new)>(graph: map<V, Adjacency<V, nat>>, info: map<V, Info<V>>, visited: set<V>, node: V, distanceToSource: nat,
                                        rest: set<V>, updated: map<V, Info<V>>, heap0: seq<PQ.Entry<V>>, heap: seq<PQ.Entry<V>>)
    requires node in graph
  {
    && rest <= graph[node].to.Keys && updated.Keys == info.Keys
    && (forall v :: v in info ==> updated[v] == info[v] || (v !in rest && Relaxed(graph, info, visited, node, distanceToSource, v, updated[v])))
    && (forall v :: v in graph[node].to && v !in rest && v !in visited ==>
          v in updated && updated[v].distanceToSource.Finite? && updated[v].distanceToSource.n <= distanceToSource + graph[node].to[v])
    && multiset(heap0) <= multiset(heap)
    && (forall e :: e in heap ==> (e in heap0 ||
          (e.value in info && updated[e.value] != info[e.value] && updated[e.value].distanceToSource.Finite? && e.key == updated[e.value].distanceToSource.n)))
    && (forall v :: v in info && updated[v] != info[v] ==>
          updated[v].distanceToSource.Finite? && PQ.Entry(v, updated[v].distanceToSource.n as int) in heap)
  }

  /** What the finished `neighbors.forEach` leaves in the records: every record
      is unchanged or relaxed, and every unsettled neighbour is within one edge of `node`. */
  ghost predicate Expanded<V(!new)>(graph: map<V, Adjacency<V, nat>>, info: map<V, Info<V>>, visited: set<V>, node: V, distanceToSource: nat,
                                     updated: map<V, Info<V>>)
    requires node in graph
  {
    && updated.Keys == info.Keys
    && (forall v :: v in info ==> updated[v] == info[v] || Relaxed(graph, info, visited, node, distanceToSource, v, updated[v]))
    && (forall v :: v in graph[node].to && v !in visited ==>
          v in updated && updated[v].distanceToSource.Finite? && updated[v].distanceToSource.n <= distanceToSource + graph[node].to[v])
  }

  lemma SkipNeighbor<V(!new)>(graph: map<V, Adjacency<V, nat>>, info: map<V, Info<V>>, visited: set<V>, node: V, distanceToSource: nat,
                              rest: set<V>, updated: map<V, Info<V>>, heap0: seq<PQ.Entry<V>>, heap: seq<PQ.Entry<V>>, neighbor: V)
    requires node in graph && ExpandStage(graph, info, visited, node, distanceToSource, rest, updated, heap0, heap)
    requires neighbor in rest && neighbor in updated
    requires neighbor in visited || !Shorter(distanceToSource + graph[node].to[neighbor], updated[neighbor].distanceToSource)
    ensures ExpandStage(graph, info, visited, node, distanceToSource, rest - {neighbor}, updated, heap0, heap)
  {
  }

  lemma RelaxNeighbor<V(!new)>(graph: map<V, Adjacency<V, nat>>, info: map<V, Info<V>>, visited: set<V>, node: V, distanceToSource: nat,
                               rest: set<V>, updated: map<V, Info<V>>, heap0: seq<PQ.Entry<V>>, heap: seq<PQ.Entry<V>>, neighbor: V,
                               heap1: seq<PQ.Entry<V>>)
    requires node in graph && ExpandStage(graph, info, visited, node, distanceToSource, rest, updated, heap0, heap)
    requires neighbor in rest && neighbor in updated && neighbor !in visited
    requires Shorter(distanceToSource + graph[node].to[neighbor], updated[neighbor].distanceToSource)
    requires multiset(heap1) == multiset(heap) + multiset{PQ.Entry(neighbor, distanceToSource + graph[node].to[neighbor])}
    ensures ExpandStage(graph, info, visited, node, distanceToSource, rest - {neighbor},
                        updated[neighbor := Info(Finite(distanceToSource + graph[node].to[neighbor]), Some(node))], heap0, heap1)
  {
    var entry := PQ.Entry(neighbor, distanceToSource + graph[node].to[neighbor]);
    assert entry in multiset(heap1);
    forall e | e in heap
      ensures e in heap1
    {
      assert e in multiset(heap);
      assert e in multiset(heap1);
    }
    forall e | e in heap1
      ensures e in heap || e == entry
    {
      assert e in multiset(heap1);
    }
  }

  /** Settling `x` at distance `d` and relaxing its edges keeps the three invariants. */
  lemma ExpandKeepsShape<V(!new)>(graph: map<V, Adjacency<V, nat>>, source: V, x: V, d: nat, info: map<V, Info<V>>, visited: set<V>,
                                  updated: map<V, Info<V>>)
    requires InfoShape(graph, source, info) && x in info && info[x].distanceToSource == Finite(d)
    requires (forall v :: v in info && info[v].parent.Some? ==> info[v].parent.value in visited)
    requires Expanded(graph, info, visited + {x}, x, d, updated)
    ensures InfoShape(graph, source, updated)
  {
    forall v | v in updated && updated[v].parent.Some?
      ensures v != source && ParentEdge(graph, updated, v)
    {
      if updated[v] == info[v] {
        assert ParentEdge(graph, info, v);
        assert updated[info[v].parent.value] == info[info[v].parent.value];
      }
    }
  }

  lemma ExpandKeepsOrder<V(!new)>(graph: map<V, Adjacency<V, nat>>, source: V, x: V, d: nat, info: map<V, Info<V>>, visited: set<V>,
                                  order: map<V, nat>, step: nat, updated: map<V, Info<V>>)
    requires info.Keys == graph.Keys && Settled(graph, source, info, visited, order, step) && x in info && x !in visited
    requires visited == {} ==> x == source
    requires Expanded(graph, info, visited + {x}, x, d, updated)
    ensures SettledOrder(graph, source, updated, visited + {x}, order[x := step], step + 1)
  {
    var order1 := order[x := step];
    forall v | v in updated && updated[v].parent.Some?
      ensures updated[v].parent.value in visited + {x} && order1[updated[v].parent.value] < Rank(order1, step + 1, v)
    {
      if updated[v] == info[v] {
        var u := info[v].parent.value;
        assert u in visited && order[u] < Rank(order, step, v);
        assert order1[u] == order[u];
      } else {
        assert updated[v].parent.value == x && v !in visited + {x};
      }
    }
  }

  lemma ExpandKeepsRelaxed<V(!new)>(graph: map<V, Adjacency<V, nat>>, source: V, x: V, d: nat, info: map<V, Info<V>>, visited: set<V>,
                                    order: map<V, nat>, step: nat, updated: map<V, Info<V>>)
    requires info.Keys == graph.Keys && Settled(graph, source, info, visited, order, step)
    requires x in info && x !in visited && info[x].distanceToSource == Finite(d)
    requires Expanded(graph, info, visited + {x}, x, d, updated)
    ensures forall a :: a in visited + {x} ==>
      updated[a] == info[a] && EdgesRelaxed(graph, updated, visited + {x}, a, info[a].distanceToSource.n)
  {
    forall a | a in visited + {x}
      ensures updated[a] == info[a] && EdgesRelaxed(graph, updated, visited + {x}, a, info[a].distanceToSource.n)
    {
      assert updated[a] == info[a];
      if a != x {
        var n := info[a].distanceToSource.n;
        assert EdgesRelaxed(graph, info, visited, a, n);
        forall b | b in graph[a].to && b !in visited + {x}
          ensures b in updated && updated[b].distanceToSource.Finite? && updated[b].distanceToSource.n <= n + graph[a].to[b]
        {
          assert updated[b] == info[b] || Shorter(d + graph[x].to[b], info[b].distanceToSource);
        }
      }
    }
  }

  lemma ExpandKeepsSettled<V(!new)>(graph: map<V, Adjacency<V, nat>>, source: V, x: V, d: nat, info: map<V, Info<V>>, visited: set<V>,
                                    order: map<V, nat>, step: nat, updated: map<V, Info<V>>)
    requires info.Keys == graph.Keys && Settled(graph, source, info, visited, order, step)
    requires x in info && x !in visited && info[x].distanceToSource == Finite(d) && ShortestBound(graph, source, x, d)
    requires visited == {} ==> x == source
    requires Expanded(graph, info, visited + {x}, x, d, updated)
    ensures Settled(graph, source, updated, visited + {x}, order[x := step], step + 1)
  {
    ExpandKeepsOrder(graph, source, x, d, info, visited, order, step, updated);
    ExpandKeepsDistances(graph, source, x, d, info, visited, order, step, updated);
  }

  lemma ExpandKeepsDistances<V(!new)>(graph: map<V, Adjacency<V, nat>>, source: V, x: V, d: nat, info: map<V, Info<V>>, visited: set<V>,
                                      order: map<V, nat>, step: nat, updated: map<V, Info<V>>)
    requires info.Keys == graph.Keys && Settled(graph, source, info, visited, order, step)
    requires x in info && x !in visited && info[x].distanceToSource == Finite(d) && ShortestBound(graph, source, x, d)
    requires Expanded(graph, info, visited + {x}, x, d, updated)
    ensures SettledDistances(graph, source, updated, visited + {x})
  {
    ExpandKeepsRelaxed(graph, source, x, d, info, visited, order, step, updated);
    forall a | a in visited + {x}
      ensures updated[a].distanceToSource.Finite? && ShortestBound(graph, source, a, updated[a].distanceToSource.n)
    {
      assert updated[a] == info[a];
    }
  }

  lemma ExpandKeepsFrontier<V(!new)>(graph: map<V, Adjacency<V, nat>>, source: V, x: V, d: nat, info: map<V, Info<V>>, visited: set<V>,
                                     updated: map<V, Info<V>>, heap: seq<PQ.Entry<V>>, heap1: seq<PQ.Entry<V>>)
    requires info.Keys == graph.Keys && x in graph
    requires Frontier(graph, info, visited + {x}, heap)
    requires ExpandStage(graph, info, visited + {x}, x, d, {}, updated, heap, heap1)
    ensures Frontier(graph, updated, visited + {x}, heap1)
  {
    forall e | e in heap
      ensures e in heap1
    {
      assert e in multiset(heap);
    }
  }

  /** A path along edges never leaves a set closed under edges. */
  lemma {:induction false} PathStaysIn<V(!new)>(graph: map<V, Adjacency<V, nat>>, s: set<V>, p: seq<V>)
    requires s <= graph.Keys && EdgeClosed(graph, s)
    requires IsPath(graph, p) && p[0] in s
    ensures p[|p| - 1] in s
    decreases |p|
  {
    if |p| > 1 {
      PrefixIsPath(graph, p);
      PathStaysIn(graph, s, p[..|p| - 1]);
      assert p[|p| - 1] in graph[p[|p| - 2]].to;
    }
  }

  /** No edge leaves `s`. */
  ghost predicate EdgeClosed<V(!new)>(graph: map<V, Adjacency<V, nat>>, s: set<V>)
    requires s <= graph.Keys
  {
    forall a, b :: a in s && b in graph[a].to ==> b in s
  }

  /** When the queue runs dry, no edge leaves the settled vertices: the head
      of such an edge would have been reached and so would still have an entry. */
  lemma ExhaustedIsClosed<V(!new)>(graph: map<V, Adjacency<V, nat>>, source: V, info: map<V, Info<V>>, visited: set<V>, order: map<V, nat>, step: nat)
    requires info.Keys == graph.Keys && Settled(graph, source, info, visited, order, step)
    requires Frontier(graph, info, visited, [])
    ensures EdgeClosed(graph, visited)
  {
    forall a | a in visited
      ensures forall b :: b in graph[a].to ==> b in visited
    {
      assert EdgesRelaxed(graph, info, visited, a, info[a].distanceToSource.n);
    }
  }

  /** A target outside a settled set that contains the source and that no edge
      leaves cannot be reached. */
  lemma NoPathLeft<V(!new)>(graph: map<V, Adjacency<V, nat>>, source: V, target: V, visited: set<V>)
    requires visited <= graph.Keys && EdgeClosed(graph, visited)
    requires source in visited && target !in visited
    ensures !Reachable(graph, source, target) && source != target
  {
    forall p | IsPath(graph, p) && p[0] == source
      ensures p[|p| - 1] != target
    {
      PathStaysIn(graph, visited, p);
    }
  }

  /** The parent chain from the source weighs exactly the distance recorded for its last vertex. */
  lemma {:induction false} ChainWeight<V(!new)>(graph: map<V, Adjacency<V, nat>>, source: V, info: map<V, Info<V>>, path: seq<V>)
    requires InfoShape(graph, source, info)
    requires |path| >= 1 && path[0] == source && (forall i :: 0 <= i < |path| ==> path[i] in info)
    requires forall i :: 0 < i < |path| ==> info[path[i]].parent == Some(path[i - 1])
    ensures IsPath(graph, path)
    ensures info[path[|path| - 1]].distanceToSource == Finite(Weight(graph, path))
    decreases |path|
  {
    if |path| > 1 {
      var n := |path|;
      ChainWeight(graph, source, info, path[..n - 1]);
      assert ParentEdge(graph, info, path[n - 1]);
      assert IsPath(graph, path);
      PrefixIsPath(graph, path);
    }
  }

  /** The path rebuilt for a target whose distance is the shortest is a shortest path from the source. */
  lemma ResultIsShortestPath<V(!new)>(graph: map<V, Adjacency<V, nat>>, source: V, target: V, info: map<V, Info<V>>, k: nat, path: seq<V>)
    requires InfoShape(graph, source, info)
    requires target in info && info[target].distanceToSource == Finite(k) && ShortestBound(graph, source, target, k)
    requires |path| >= 1 && path[|path| - 1] == target && (forall i :: 0 <= i < |path| ==> path[i] in info)
    requires info[path[0]].parent == None
    requires forall i :: 0 < i < |path| ==> info[path[i]].parent == Some(path[i - 1])
    ensures IsPath(graph, path) && path[0] == source
    ensures ShortestBound(graph, source, target, Weight(graph, path))
  {
    if |path| > 1 {
      assert ParentEdge(graph, info, path[1]);
    }
    ChainWeight(graph, source, info, path);
  }

  /** The loop invariant of dijkstrasAlgorithm. */
  ghost predicate Invariant<V(!new)>(graph: map<V, Adjacency<V, nat>>, source: V, target: V, info: map<V, Info<V>>, visited: set<V>,
                                     order: map<V, nat>, step: nat, heap: seq<PQ.Entry<V>>)
  {
    && InfoShape(graph, source, info)
    && Settled(graph, source, info, visited, order, step)
    && Frontier(graph, info, visited, heap)
    && target !in visited
    && (visited == {} ==> heap == [PQ.Entry(source, 0)])
  }

  lemma InitialInvariant<V(!new)>(graph: map<V, Adjacency<V, nat>>, source: V, target: V, info: map<V, Info<V>>, heap: seq<PQ.Entry<V>>)
    requires source in graph
    requires info.Keys == graph.Keys && forall v :: v in info ==> info[v] == Info(if v == source then Finite(0) else Infinity, None)
    requires multiset(heap) == multiset{PQ.Entry(source, 0)}
    ensures Invariant(graph, source, target, info, {}, map[], 0, heap)
  {
    assert |heap| == 1 && heap[0] in multiset(heap);
  }

  /** Every queued key is a distance, hence not negative. */
  lemma QueuedKey<V(!new)>(graph: map<V, Adjacency<V, nat>>, source: V, target: V, info: map<V, Info<V>>, visited: set<V>,
                           order: map<V, nat>, step: nat, heap: seq<PQ.Entry<V>>, e: PQ.Entry<V>)
    requires Invariant(graph, source, target, info, visited, order, step, heap) && e in heap
    ensures e.key >= 0
  {
  }

  lemma StaleEntry<V(!new)>(graph: map<V, Adjacency<V, nat>>, source: V, target: V, info: map<V, Info<V>>, visited: set<V>,
                            order: map<V, nat>, step: nat, heap: seq<PQ.Entry<V>>, rest: seq<PQ.Entry<V>>, e: PQ.Entry<V>)
    requires Invariant(graph, source, target, info, visited, order, step, heap)
    requires multiset(rest) == multiset(heap) - multiset{e} && e.value in visited
    ensures Invariant(graph, source, target, info, visited, order, step, rest)
  {
    DropSettledEntry(graph, info, visited, visited, heap, rest, e);
  }

  lemma FoundTarget<V(!new)>(graph: map<V, Adjacency<V, nat>>, source: V, target: V, info: map<V, Info<V>>, visited: set<V>,
                             order: map<V, nat>, step: nat, heap: seq<PQ.Entry<V>>, e: PQ.Entry<V>)
    requires Invariant(graph, source, target, info, visited, order, step, heap)
    requires e in heap && (forall f :: f in heap ==> e.key <= f.key) && e.value == target
    ensures target in info && info[target].distanceToSource == Finite(e.key) && ShortestBound(graph, source, target, e.key)
    ensures forall v :: v in info ==> v in RankMap(info, order, step)
    ensures forall v :: v in info && info[v].parent.Some? ==>
      info[v].parent.value in info && RankMap(info, order, step)[info[v].parent.value] < RankMap(info, order, step)[v]
  {
    SettleFacts(graph, source, info, visited, order, step, heap, e);
  }

  /** The rank of every vertex, settled or not. */
  ghost function RankMap<V(!new)>(info: map<V, Info<V>>, order: map<V, nat>, step: nat): map<V, nat> {
    map v | v in info :: Rank(order, step, v)
  }

  lemma ReturnedPath<V(!new)>(graph: map<V, Adjacency<V, nat>>, source: V, target: V, info: map<V, Info<V>>, k: nat, path: seq<V>)
    requires InfoShape(graph, source, info)
    requires target in info && info[target].distanceToSource == Finite(k) && ShortestBound(graph, source, target, k)
    requires |path| >= 1 && path[|path| - 1] == target && (forall i :: 0 <= i < |path| ==> path[i] in info)
    requires info[path[0]].parent == None
    requires forall i :: 0 < i < |path| ==> info[path[i]].parent == Some(path[i - 1])
    requires info[target].parent == None ==> path == [target]
    ensures path == [] <==> !Reachable(graph, source, target)
    ensures path != [] ==> IsPath(graph, path) && path[0] == source && path[|path| - 1] == target
    ensures path != [] ==> ShortestBound(graph, source, target, Weight(graph, path))
    ensures source == target ==> path == [source]
  {
    ResultIsShortestPath(graph, source, target, info, k, path);
  }

  /** Settling `x`: the pulled entry carries its shortest distance. */
  lemma SettleStart<V(!new)>(graph: map<V, Adjacency<V, nat>>, source: V, target: V, info: map<V, Info<V>>, visited: set<V>,
                             order: map<V, nat>, step: nat, heap: seq<PQ.Entry<V>>, rest: seq<PQ.Entry<V>>, e: PQ.Entry<V>)
    requires Invariant(graph, source, target, info, visited, order, step, heap)
    requires e in heap && (forall f :: f in heap ==> e.key <= f.key) && e.value !in visited
    requires multiset(rest) == multiset(heap) - multiset{e}
    ensures e.value in info && info[e.value].distanceToSource == Finite(e.key) && ShortestBound(graph, source, e.value, e.key)
    ensures Frontier(graph, info, visited + {e.value}, rest)
    ensures visited == {} ==> e.value == source
    ensures |graph.Keys - (visited + {e.value})| < |graph.Keys - visited|
  {
    SettleFacts(graph, source, info, visited, order, step, heap, e);
    DropSettledEntry(graph, info, visited, visited + {e.value}, heap, rest, e);
    assert graph.Keys - (visited + {e.value}) == (graph.Keys - visited) - {e.value};
  }

  /** Settling `x` and relaxing its edges re-establishes the loop invariant. */
  lemma SettleFinish<V(!new)>(graph: map<V, Adjacency<V, nat>>, source: V, target: V, x: V, d: nat, info: map<V, Info<V>>, visited: set<V>,
                              order: map<V, nat>, step: nat, updated: map<V, Info<V>>, heap: seq<PQ.Entry<V>>, heap1: seq<PQ.Entry<V>>)
    requires ClosedUnderEdges(graph) && InfoShape(graph, source, info) && Settled(graph, source, info, visited, order, step)
    requires target !in visited && x != target
    requires x in info && x !in visited && info[x].distanceToSource == Finite(d) && ShortestBound(graph, source, x, d)
    requires visited == {} ==> x == source
    requires Frontier(graph, info, visited + {x}, heap)
    requires ExpandStage(graph, info, visited + {x}, x, d, {}, updated, heap, heap1)
    ensures Invariant(graph, source, target, updated, visited + {x}, order[x := step], step + 1, heap1)
  {
    assert Expanded(graph, info, visited + {x}, x, d, updated);
    ExpandKeepsShape(graph, source, x, d, info, visited, updated);
    ExpandKeepsSettled(graph, source, x, d, info, visited, order, step, updated);
    ExpandKeepsFrontier(graph, source, x, d, info, visited, updated, heap, heap1);
  }

  // ---------------------------------------------------------------------------
  // The algorithm

  /** The `neighbors.forEach` of dijkstrasAlgorithm: relaxes every edge out of
      `node` whose head is not settled. */
  method ExpandNeighbors<V(==,!new)>(graph: map<V, Adjacency<V, nat>>, pq: PQ.PriorityQueue<V>, info: map<V, Info<V>>, visited: set<V>, node: V, distanceToSource: nat)
    returns (updated: map<V, Info<V>>)
    requires pq.Valid() && node in graph && ClosedUnderEdges(graph) && info.Keys == graph.Keys
    modifies pq
    ensures pq.Valid() && updated.Keys == info.Keys
    ensures forall v :: v in info ==> updated[v] == info[v] || Relaxed(graph, info, visited, node, distanceToSource, v, updated[v])
    ensures forall v :: v in graph[node].to && v !in visited ==>
      updated[v].distanceToSource.Finite? && updated[v].distanceToSource.n <= distanceToSource + graph[node].to[v]
    ensures multiset(old(pq.heap)) <= multiset(pq.heap)
    ensures forall e :: e in pq.heap ==> (e in old(pq.heap) ||
      (e.value in info && updated[e.value] != info[e.value] && updated[e.value].distanceToSource.Finite? && e.key == updated[e.value].distanceToSource.n))
    ensures forall v :: v in info && updated[v] != info[v] ==>
      updated[v].distanceToSource.Finite? && PQ.Entry(v, updated[v].distanceToSource.n as int) in pq.heap
  {
    var neighbors := graph[node].to;
    var rest := neighbors.Keys;
    updated := info;
    while rest != {}
      invariant pq.Valid()
      invariant ExpandStage(graph, info, visited, node, distanceToSource, rest, updated, old(pq.heap), pq.heap)
      decreases |rest|
    {
      var neighbor :| neighbor in rest;
      ghost var restBefore := rest;
      rest := rest - {neighbor};
      var weight := neighbors[neighbor];
      if neighbor in visited {
        SkipNeighbor(graph, info, visited, node, distanceToSource, restBefore, updated, old(pq.heap), pq.heap, neighbor);
        continue;
      }
      var newDistanceToSource := distanceToSource + weight;
      var oldDistanceToSource := updated[neighbor].distanceToSource;
      if Shorter(newDistanceToSource, oldDistanceToSource) {
        ghost var heapBefore := pq.heap;
        pq.Insert(PQ.Entry(neighbor, newDistanceToSource));
        RelaxNeighbor(graph, info, visited, node, distanceToSource, restBefore, updated, old(pq.heap), heapBefore, neighbor, pq.heap);
        updated := updated[neighbor := Info(Finite(newDistanceToSource), Some(node))];
      } else {
        SkipNeighbor(graph, info, visited, node, distanceToSource, restBefore, updated, old(pq.heap), pq.heap, neighbor);
      }
    }
  }

  /** Walks the parent links back from `target` and reverses the walk. */
  method ConstructPath<V(!new)>(info: map<V, Info<V>>, target: V, ghost rank: map<V, nat>) returns (path: seq<V>)
    requires target in info && (forall v :: v in info ==> v in rank)
    requires forall v :: v in info && info[v].parent.Some? ==>
      info[v].parent.value in info && rank[info[v].parent.value] < rank[v]
    ensures |path| >= 1 && path[|path| - 1] == target && (forall i :: 0 <= i < |path| ==> path[i] in info)
    ensures info[path[0]].parent == None
    ensures forall i :: 0 < i < |path| ==> info[path[i]].parent == Some(path[i - 1])
    ensures info[target].parent == None ==> path == [target]
  {
    var walk: seq<V> := [];
    var node: Option<V> := Some(target);
    while node.Some?
      invariant node.Some? ==> node.value in info
      invariant forall i :: 0 <= i < |walk| ==> walk[i] in info
      invariant walk == [] ==> node == Some(target)
      invariant walk != [] ==> walk[0] == target && node == info[walk[|walk| - 1]].parent
      invariant walk != [] && info[target].parent == None ==> walk == [target]
      invariant forall i :: 0 < i < |walk| ==> info[walk[i - 1]].parent == Some(walk[i])
      decreases if node.Some? then rank[node.value] + 1 else 0
    {
      walk := walk + [node.value];
      node := info[node.value].parent;
    }
    path := Reverse(walk);
  }

  /** Lines `visited.add(node)` to the end of the loop body of dijkstrasAlgorithm:
      settles `node` and relaxes the edges out of it. */
  method Settle<V(==,!new)>(graph: map<V, Adjacency<V, nat>>, pq: PQ.PriorityQueue<V>, info: map<V, Info<V>>, visited: set<V>,
                            node: V, distanceToSource: nat, ghost source: V, ghost target: V, ghost order: map<V, nat>, ghost step: nat,
                            ghost heapBefore: seq<PQ.Entry<V>>)
    returns (updated: map<V, Info<V>>, visitedAfter: set<V>)
    requires pq.Valid() && ClosedUnderEdges(graph)
    requires Invariant(graph, source, target, info, visited, order, step, heapBefore)
    requires PQ.Entry(node, distanceToSource) in heapBefore && (forall f :: f in heapBefore ==> distanceToSource <= f.key)
    requires multiset(pq.heap) == multiset(heapBefore) - multiset{PQ.Entry(node, distanceToSource)}
    requires node !in visited && node != target
    modifies pq
    ensures pq.Valid() && visitedAfter == visited + {node}
    ensures |graph.Keys - visitedAfter| < |graph.Keys - visited|
    ensures Invariant(graph, source, target, updated, visitedAfter, order[node := step], step + 1, pq.heap)
  {
    SettleStart(graph, source, target, info, visited, order, step, heapBefore, pq.heap, PQ.Entry(node, distanceToSource));
    visitedAfter := visited + {node};
    updated := ExpandNeighbors(graph, pq, info, visitedAfter, node, distanceToSource);
    assert ExpandStage(graph, info, visitedAfter, node, distanceToSource, {}, updated, old(pq.heap), pq.heap);
    SettleFinish(graph, source, target, node, distanceToSource, info, visited, order, step, updated, old(pq.heap), pq.heap);
  }

  /** The `graph.forEach` of dijkstrasAlgorithm: one record per vertex, the source
      at distance 0 and every other vertex at infinity, none with a parent. */
  method InitialInfo<V(==,!new)>(graph: map<V, Adjacency<V, nat>>, source: V) returns (info: map<V, Info<V>>)
    ensures info.Keys == graph.Keys
    ensures forall v :: v in info ==> info[v] == Info(if v == source then Finite(0) else Infinity, None)
  {
    info := map[];
    var rest := graph.Keys;
    while rest != {}
      invariant rest <= graph.Keys && info.Keys == graph.Keys - rest
      invariant forall v :: v in info ==> info[v] == Info(if v == source then Finite(0) else Infinity, None)
      decreases |rest|
    {
      var node :| node in rest;
      var distanceToSource := if node == source then Finite(0) else Infinity;
      info := info[node := Info(distanceToSource, None)];
      rest := rest - {node};
    }
  }

  /** Shortest path from `source` to `target` in `graph`, or `[]` when there is none. */
  method DijkstrasAlgorithm<V(==,!new)>(graph: map<V, Adjacency<V, nat>>, source: V, target: V) returns (path: seq<V>)
    requires source in graph && ClosedUnderEdges(graph)
    ensures path == [] <==> !Reachable(graph, source, target)
    ensures path != [] ==> IsPath(graph, path) && path[0] == source && path[|path| - 1] == target
    ensures path != [] ==> ShortestBound(graph, source, target, Weight(graph, path))
    ensures source == target ==> path == [source]
  {
    var info := InitialInfo(graph, source);
    var pq := new PQ.PriorityQueue<V>();
    pq.Insert(PQ.Entry(source, 0));
    var visited: set<V> := {};
    ghost var order: map<V, nat> := map[];
    ghost var step: nat := 0;
    InitialInvariant(graph, source, target, info, pq.heap);
    while |pq.heap| > 0
      invariant pq.Valid()
      invariant Invariant(graph, source, target, info, visited, order, step, pq.heap)
      decreases |graph.Keys - visited|, |pq.heap|
    {
      ghost var heapBefore := pq.heap;
      var pulled := pq.Pull();
      ghost var entry := pulled.value;
      QueuedKey(graph, source, target, info, visited, order, step, heapBefore, entry);
      var node := pulled.value.value;
      var distanceToSource: nat := pulled.value.key;

      if node == target {
        FoundTarget(graph, source, target, info, visited, order, step, heapBefore, entry);
        path := ConstructPath(info, target, RankMap(info, order, step));
        ReturnedPath(graph, source, target, info, distanceToSource, path);
        return;
      }

      if node in visited {
        StaleEntry(graph, source, target, info, visited, order, step, heapBefore, pq.heap, entry);
        continue;
      }

      info, visited := Settle(graph, pq, info, visited, node, distanceToSource, source, target, order, step, heapBefore);
      order := order[node := step];
      step := step + 1;
    }
    ExhaustedIsClosed(graph, source, info, visited, order, step);
    NoPathLeft(graph, source, target, visited);
    path := [];
  }
}
