/**
 * The weighted directed graph of data-structures/Graph.js.
 *
 * `nodes` maps every vertex to its record: `to`, the weight of each outgoing
 * edge keyed by its head, and `from`, the set of vertices with an edge into it.
 * The records are generic in the weight type `W`, since the graph only stores
 * weights. The class stores any finite JavaScript number, as a `real`.
 */
module Graph {

  datatype Adjacency<V, W> = Adjacency(to: map<V, W>, from: set<V>)

  /** The outgoing weights of `u`, empty for a vertex that is not in the graph. */
  function Out<V, W>(nodes: map<V, Adjacency<V, W>>, u: V): map<V, W> {
    if u in nodes then nodes[u].to else map[]
  }

  /** The predecessors of `u`, empty for a vertex that is not in the graph. */
  function In<V, W>(nodes: map<V, Adjacency<V, W>>, u: V): set<V> {
    if u in nodes then nodes[u].from else {}
  }

  /** Every head of an outgoing edge is itself a vertex. */
  ghost predicate ClosedUnderEdges<V, W>(nodes: map<V, Adjacency<V, W>>) {
    forall a, b :: a in nodes && b in nodes[a].to ==> b in nodes
  }

  /** The two indices agree (b is a key of a.to exactly when a is in b.from) and
      mention only vertices of the graph. */
  ghost predicate Consistent<V, W>(nodes: map<V, Adjacency<V, W>>) {
    && (forall a, b :: a in nodes && b in nodes[a].to ==> b in nodes && a in nodes[b].from)
    && (forall a, b :: a in nodes && b in nodes[a].from ==> b in nodes && a in nodes[b].to)
  }

  lemma ConsistentIsClosed<V, W>(nodes: map<V, Adjacency<V, W>>)
    requires Consistent(nodes)
    ensures ClosedUnderEdges(nodes)
  {
  }

  /** `nodes` with `v` added, with no edges, when it is not already a vertex. */
  function WithVertex<V, W>(nodes: map<V, Adjacency<V, W>>, v: V): (r: map<V, Adjacency<V, W>>)
    ensures r.Keys == nodes.Keys + {v}
    ensures forall u :: u in r ==> Out(r, u) == Out(nodes, u) && In(r, u) == In(nodes, u)
  {
    if v in nodes then nodes else nodes[v := Adjacency(map[], {})]
  }

  lemma WithVertexKeepsConsistent<V, W>(nodes: map<V, Adjacency<V, W>>, v: V)
    requires Consistent(nodes)
    ensures Consistent(WithVertex(nodes, v))
  {
  }

  /** The two record updates of `addEdge`: the weight into `a.to`, then `a` into `b.from`. */
  function Link<V, W>(nodes: map<V, Adjacency<V, W>>, a: V, b: V, weight: W): (r: map<V, Adjacency<V, W>>)
    requires a in nodes && b in nodes
    ensures r.Keys == nodes.Keys
  {
    var n1 := nodes[a := nodes[a].(to := nodes[a].to[b := weight])];
    n1[b := n1[b].(from := n1[b].from + {a})]
  }

  /** The two record updates of `removeEdge`. */
  function Unlink<V, W>(nodes: map<V, Adjacency<V, W>>, a: V, b: V): (r: map<V, Adjacency<V, W>>)
    requires a in nodes && b in nodes
    ensures r.Keys == nodes.Keys
  {
    var n1 := nodes[a := nodes[a].(to := nodes[a].to - {b})];
    n1[b := n1[b].(from := n1[b].from - {a})]
  }

  lemma LinkKeepsConsistent<V, W>(nodes: map<V, Adjacency<V, W>>, a: V, b: V, weight: W)
    requires Consistent(nodes) && a in nodes && b in nodes
    ensures Consistent(Link(nodes, a, b, weight))
    ensures forall u :: Out(Link(nodes, a, b, weight), u) == if u == a then Out(nodes, a)[b := weight] else Out(nodes, u)
    ensures forall u :: In(Link(nodes, a, b, weight), u) == if u == b then In(nodes, b) + {a} else In(nodes, u)
  {
    var r := Link(nodes, a, b, weight);
    assert forall u :: u in r ==> r[u].to == if u == a then nodes[a].to[b := weight] else nodes[u].to;
    assert forall u :: u in r ==> r[u].from == if u == b then nodes[b].from + {a} else nodes[u].from;
  }

  /** Adding the endpoints and then linking them changes exactly the two records. */
  lemma AddEdgeEffect<V, W>(nodes: map<V, Adjacency<V, W>>, a: V, b: V, weight: W, r: map<V, Adjacency<V, W>>)
    requires Consistent(nodes)
    requires r == Link(WithVertex(WithVertex(nodes, a), b), a, b, weight)
    ensures Consistent(r)
    ensures forall u :: Out(r, u) == if u == a then Out(nodes, a)[b := weight] else Out(nodes, u)
    ensures forall u :: In(r, u) == if u == b then In(nodes, b) + {a} else In(nodes, u)
  {
    var withAB := WithVertex(WithVertex(nodes, a), b);
    WithVerticesKeepEdges(nodes, a, b);
    LinkKeepsConsistent(withAB, a, b, weight);
  }

  /** Adding two vertices keeps the graph consistent and leaves every edge as it was. */
  lemma WithVerticesKeepEdges<V, W>(nodes: map<V, Adjacency<V, W>>, a: V, b: V)
    requires Consistent(nodes)
    ensures Consistent(WithVertex(WithVertex(nodes, a), b))
    ensures forall u :: Out(WithVertex(WithVertex(nodes, a), b), u) == Out(nodes, u)
    ensures forall u :: In(WithVertex(WithVertex(nodes, a), b), u) == In(nodes, u)
  {
    var withA := WithVertex(nodes, a);
    WithVertexKeepsConsistent(nodes, a);
    WithVertexKeepsConsistent(withA, b);
  }

  lemma UnlinkKeepsConsistent<V, W>(nodes: map<V, Adjacency<V, W>>, a: V, b: V)
    requires Consistent(nodes) && a in nodes && b in nodes
    ensures Consistent(Unlink(nodes, a, b))
    ensures forall u :: Out(Unlink(nodes, a, b), u) == if u == a then Out(nodes, a) - {b} else Out(nodes, u)
    ensures forall u :: In(Unlink(nodes, a, b), u) == if u == b then In(nodes, b) - {a} else In(nodes, u)
  {
    var r := Unlink(nodes, a, b);
    assert forall u :: u in r ==> r[u].to == if u == a then nodes[a].to - {b} else nodes[u].to;
    assert forall u :: u in r ==> r[u].from == if u == b then nodes[b].from - {a} else nodes[u].from;
  }

  /** What the first loop of `removeNode` keeps: only edges into `v` have been
      deleted, those from the predecessors no longer in `v.from`. */
  ghost predicate IncomingStage<V, W>(before: map<V, Adjacency<V, W>>, nodes: map<V, Adjacency<V, W>>, v: V) {
    && Consistent(nodes) && v in nodes && nodes.Keys == before.Keys
    && In(nodes, v) <= In(before, v)
    && (forall u :: u in nodes && u != v ==> In(nodes, u) == In(before, u))
    && (forall u :: u in nodes ==> Out(nodes, u) == if u in In(nodes, v) then Out(before, u) else Out(before, u) - {v})
  }

  /** What the second loop keeps: no edge into `v` is left, and the edges out of
      `v` to the successors no longer in `v.to` have been deleted. */
  ghost predicate OutgoingStage<V, W>(before: map<V, Adjacency<V, W>>, nodes: map<V, Adjacency<V, W>>, v: V) {
    && Consistent(nodes) && v in nodes && nodes.Keys == before.Keys
    && In(nodes, v) == {}
    && (forall u :: u in nodes && u != v ==> Out(nodes, u) == Out(before, u) - {v})
    && (forall u :: u in nodes && u != v ==> In(nodes, u) == if u in Out(nodes, v) then In(before, u) else In(before, u) - {v})
  }

  lemma IncomingStart<V, W>(nodes: map<V, Adjacency<V, W>>, v: V)
    requires Consistent(nodes) && v in nodes
    ensures IncomingStage(nodes, nodes, v)
  {
    forall u | u in nodes && u !in In(nodes, v)
      ensures Out(nodes, u) == Out(nodes, u) - {v}
    {
      assert v !in Out(nodes, u);
    }
  }

  lemma IncomingStep<V, W>(before: map<V, Adjacency<V, W>>, nodes: map<V, Adjacency<V, W>>, v: V, p: V)
    requires IncomingStage(before, nodes, v) && p in nodes[v].from
    ensures p in nodes
    ensures IncomingStage(before, Unlink(nodes, p, v), v)
    ensures Unlink(nodes, p, v)[v].from == nodes[v].from - {p}
  {
    UnlinkKeepsConsistent(nodes, p, v);
  }

  lemma IncomingDone<V, W>(before: map<V, Adjacency<V, W>>, nodes: map<V, Adjacency<V, W>>, v: V)
    requires Consistent(before) && IncomingStage(before, nodes, v) && nodes[v].from == {}
    ensures OutgoingStage(before, nodes, v)
  {
    forall u | u in nodes && u != v
      ensures Out(nodes, u) == Out(before, u) - {v}
    {
      if v in Out(before, u) {
        assert u in In(before, v);
      }
    }
  }

  lemma OutgoingStep<V, W>(before: map<V, Adjacency<V, W>>, nodes: map<V, Adjacency<V, W>>, v: V, s: V)
    requires OutgoingStage(before, nodes, v) && s in nodes[v].to
    ensures s in nodes && s != v
    ensures OutgoingStage(before, Unlink(nodes, v, s), v)
    ensures Unlink(nodes, v, s)[v].to.Keys == nodes[v].to.Keys - {s}
  {
    UnlinkKeepsConsistent(nodes, v, s);
  }

  lemma OutgoingDone<V, W>(before: map<V, Adjacency<V, W>>, nodes: map<V, Adjacency<V, W>>, v: V)
    requires OutgoingStage(before, nodes, v) && nodes[v].to == map[]
    ensures Consistent(nodes - {v})
    ensures forall u :: u in nodes - {v} ==> nodes[u].to == before[u].to - {v} && nodes[u].from == before[u].from - {v}
  {
  }

  class Graph<V(==)> {
    var nodes: map<V, Adjacency<V, real>>

    ghost predicate Valid()
      reads this
    {
      Consistent(nodes)
    }

    constructor ()
      ensures Valid() && nodes == map[]
    {
      nodes := map[];
    }

    /** Adds `node` with no edges; a vertex already present keeps its edges. */
    method AddNode(node: V)
      requires Valid()
      modifies this
      ensures Valid()
      ensures nodes == WithVertex(old(nodes), node)
    {
      if node in nodes {
        return;
      }
      nodes := nodes[node := Adjacency(map[], {})];
    }

    /** Adds both endpoints if absent, then sets the weight of `nodeA -> nodeB`
        (overwriting an earlier one) and records `nodeA` as a predecessor of `nodeB`. */
    method AddEdge(nodeA: V, nodeB: V, weight: real := 1.0)
      requires Valid()
      modifies this
      ensures Valid()
      ensures nodes.Keys == old(nodes).Keys + {nodeA, nodeB}
      ensures forall u :: Out(nodes, u) == if u == nodeA then Out(old(nodes), nodeA)[nodeB := weight] else Out(old(nodes), u)
      ensures forall u :: In(nodes, u) == if u == nodeB then In(old(nodes), nodeB) + {nodeA} else In(old(nodes), u)
    {
      AddNode(nodeA);
      AddNode(nodeB);
      nodes := Link(nodes, nodeA, nodeB, weight);
      AddEdgeEffect(old(nodes), nodeA, nodeB, weight, nodes);
    }

    /** Deletes the edge `nodeA -> nodeB` from both indices; does nothing when
        either endpoint is missing. */
    method RemoveEdge(nodeA: V, nodeB: V)
      requires Valid()
      modifies this
      ensures Valid()
      ensures nodeA !in old(nodes) || nodeB !in old(nodes) ==> nodes == old(nodes)
      ensures nodeA in old(nodes) && nodeB in old(nodes) ==> nodes == Unlink(old(nodes), nodeA, nodeB)
      ensures nodes.Keys == old(nodes).Keys
      ensures forall u :: Out(nodes, u) == if u == nodeA && nodeB in old(nodes) then Out(old(nodes), nodeA) - {nodeB} else Out(old(nodes), u)
      ensures forall u :: In(nodes, u) == if u == nodeB && nodeA in old(nodes) then In(old(nodes), nodeB) - {nodeA} else In(old(nodes), u)
    {
      if nodeA !in nodes || nodeB !in nodes {
        return;
      }
      UnlinkKeepsConsistent(nodes, nodeA, nodeB);
      nodes := Unlink(nodes, nodeA, nodeB);
    }

    /** Deletes every edge into and out of `node`, then `node` itself; does
        nothing when `node` is missing. */
    method RemoveNode(node: V)
      requires Valid()
      modifies this
      ensures Valid()
      ensures node !in old(nodes) ==> nodes == old(nodes)
      ensures nodes.Keys == old(nodes).Keys - {node}
      ensures forall u :: u in nodes ==> nodes[u].to == old(nodes)[u].to - {node}
      ensures forall u :: u in nodes ==> nodes[u].from == old(nodes)[u].from - {node}
    {
      if node !in nodes {
        return;
      }
      ghost var before := nodes;
      RemoveIncomingEdges(node);
      RemoveOutgoingEdges(node, before);
      OutgoingDone(before, nodes, node);
      nodes := nodes - {node};
    }

    /** The first loop of `removeNode`: removes the edge from every predecessor
        of `node`, one at a time. */
    method RemoveIncomingEdges(node: V)
      requires Valid() && node in nodes
      modifies this
      ensures OutgoingStage(old(nodes), nodes, node)
    {
      ghost var before := nodes;
      IncomingStart(nodes, node);
      while nodes[node].from != {}
        invariant IncomingStage(before, nodes, node)
        decreases |nodes[node].from|
      {
        var incomingVertex :| incomingVertex in nodes[node].from;
        IncomingStep(before, nodes, node, incomingVertex);
        RemoveEdge(incomingVertex, node);
      }
      IncomingDone(before, nodes, node);
    }

    /** The second loop of `removeNode`: removes the edge to every successor of
        `node`, one at a time. */
    method RemoveOutgoingEdges(node: V, ghost before: map<V, Adjacency<V, real>>)
      requires OutgoingStage(before, nodes, node)
      modifies this
      ensures OutgoingStage(before, nodes, node) && nodes[node].to == map[]
    {
      while nodes[node].to != map[]
        invariant OutgoingStage(before, nodes, node)
        decreases |nodes[node].to.Keys|
      {
        var outgoingVertex :| outgoingVertex in nodes[node].to;
        OutgoingStep(before, nodes, node, outgoingVertex);
        RemoveEdge(node, outgoingVertex);
      }
    }
  }
}
