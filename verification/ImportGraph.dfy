/** The import graph of `scripts/dgv.py`: a node set, an edge set, and the two
    adjacency dictionaries that are kept beside it. */
module ImportGraph {
  import opened Reachability

  datatype Outcome = Added | SelfEdgeIgnored | KeyError

  /** Edges leaving a node of `s`. */
  ghost function EdgesFrom<T>(es: set<Edge<T>>, s: set<T>): set<Edge<T>> {
    set e | e in es && e.source in s
  }

  ghost function EdgesInto<T>(es: set<Edge<T>>, s: set<T>): set<Edge<T>> {
    set e | e in es && e.target in s
  }

  /** Sum of the sizes of the adjacency sets of the nodes in `s`. */
  ghost function TotalDegree<T>(s: set<T>, adj: map<T, set<T>>): nat
    requires s <= adj.Keys
  {
    if s == {} then 0
    else
      var x :| x in s;
      |adj[x]| + TotalDegree(s - {x}, adj)
  }

  class DependencyGraph<T(==, !new)> {
    var nodes: set<T>
    var edges: set<Edge<T>>
    var adj: map<T, set<T>>
    var revAdj: map<T, set<T>>

    /** `edges`, `adj` and `revAdj` are the same relation over `nodes`, without self-edges. */
    ghost predicate Valid()
      reads this
    {
      && adj.Keys == nodes
      && revAdj.Keys == nodes
      && (forall e <- edges :: e.source in nodes && e.target in nodes && e.source != e.target)
      && (forall u, v :: u in nodes ==> (v in adj[u] <==> Edge(u, v) in edges))
      && (forall u, v :: v in nodes ==> (u in revAdj[v] <==> Edge(u, v) in edges))
    }

    constructor ()
      ensures Valid() && nodes == {} && edges == {}
    {
      nodes, edges, adj, revAdj := {}, {}, map[], map[];
    }

    method AddNode(m: T)
      requires Valid()
      modifies this
      ensures Valid()
      ensures nodes == old(nodes) + {m} && edges == old(edges)
    {
      nodes := nodes + {m};
      if m !in adj { adj := adj[m := {}]; }
      if m !in revAdj { revAdj := revAdj[m := {}]; }
    }

    /** Registering an edge with an unknown end fails only after the edge set has grown, and for an
        unknown target after the adjacency of the source has, too; every other call keeps the three
        relations equal. */
    method AddEdge(source: T, target: T) returns (r: Outcome)
      requires Valid()
      modifies this
      ensures nodes == old(nodes)
      ensures r.SelfEdgeIgnored? <==> source == target
      ensures r.KeyError? <==> source != target && (source !in nodes || target !in nodes)
      ensures edges == if source == target then old(edges) else old(edges) + {Edge(source, target)}
      ensures adj == if source != target && source in old(adj) then old(adj)[source := old(adj)[source] + {target}]
                     else old(adj)
      ensures revAdj == if source != target && source in old(adj) && target in old(revAdj)
                        then old(revAdj)[target := old(revAdj)[target] + {source}] else old(revAdj)
      ensures Valid() <==> !r.KeyError?
    {
      if source == target {
        return SelfEdgeIgnored;
      }
      edges := edges + {Edge(source, target)};
      if source !in adj {
        assert Edge(source, target) in edges;
        return KeyError;
      }
      adj := adj[source := adj[source] + {target}];
      if target !in revAdj {
        assert Edge(source, target) in edges;
        return KeyError;
      }
      revAdj := revAdj[target := revAdj[target] + {source}];
      return Added;
    }

    method Successors(node: T) returns (s: set<T>)
      requires Valid()
      ensures forall v :: v in s <==> Edge(node, v) in edges
    {
      s := if node in adj then adj[node] else {};
    }

    method Predecessors(node: T) returns (s: set<T>)
      requires Valid()
      ensures forall u :: u in s <==> Edge(u, node) in edges
    {
      s := if node in revAdj then revAdj[node] else {};
    }

    method FanOut(node: T) returns (n: nat)
      requires Valid()
      ensures n == |EdgesFrom(edges, {node})|
    {
      n := if node in adj then |adj[node]| else 0;
      if node in adj {
        FanOutCounts(edges, node, adj[node]);
      } else {
        assert EdgesFrom(edges, {node}) == {};
      }
    }

    method FanIn(node: T) returns (n: nat)
      requires Valid()
      ensures n == |EdgesInto(edges, {node})|
    {
      n := if node in revAdj then |revAdj[node]| else 0;
      if node in revAdj {
        FanInCounts(edges, node, revAdj[node]);
      } else {
        assert EdgesInto(edges, {node}) == {};
      }
    }

    /** Handshake: fan-outs and fan-ins both add up to the number of edges. */
    lemma DegreesSumToEdges()
      requires Valid()
      ensures TotalDegree(nodes, adj) == |edges| == TotalDegree(nodes, revAdj)
    {
      OutDegreesSum(edges, adj, nodes);
      assert EdgesFrom(edges, nodes) == edges;
      InDegreesSum(edges, revAdj, nodes);
      assert EdgesInto(edges, nodes) == edges;
    }
  }

  lemma {:induction false} FanOutCounts<T>(es: set<Edge<T>>, u: T, targets: set<T>)
    requires forall v :: v in targets <==> Edge(u, v) in es
    ensures |EdgesFrom(es, {u})| == |targets|
    decreases targets
  {
    if targets == {} {
      assert EdgesFrom(es, {u}) == {};
    } else {
      var v :| v in targets;
      var es' := es - {Edge(u, v)};
      FanOutCounts(es', u, targets - {v});
      assert EdgesFrom(es, {u}) == EdgesFrom(es', {u}) + {Edge(u, v)};
    }
  }

  lemma {:induction false} FanInCounts<T>(es: set<Edge<T>>, v: T, sources: set<T>)
    requires forall u :: u in sources <==> Edge(u, v) in es
    ensures |EdgesInto(es, {v})| == |sources|
    decreases sources
  {
    if sources == {} {
      assert EdgesInto(es, {v}) == {};
    } else {
      var u :| u in sources;
      var es' := es - {Edge(u, v)};
      FanInCounts(es', v, sources - {u});
      assert EdgesInto(es, {v}) == EdgesInto(es', {v}) + {Edge(u, v)};
    }
  }

  lemma {:induction false} OutDegreesSum<T(!new)>(es: set<Edge<T>>, adj: map<T, set<T>>, s: set<T>)
    requires s <= adj.Keys
    requires forall u, v :: u in s ==> (v in adj[u] <==> Edge(u, v) in es)
    ensures TotalDegree(s, adj) == |EdgesFrom(es, s)|
    decreases s
  {
    if s == {} {
      assert EdgesFrom(es, s) == {};
    } else {
      var x :| x in s && TotalDegree(s, adj) == |adj[x]| + TotalDegree(s - {x}, adj);
      OutDegreesSum(es, adj, s - {x});
      FanOutCounts(es, x, adj[x]);
      assert EdgesFrom(es, s) == EdgesFrom(es, {x}) + EdgesFrom(es, s - {x});
      assert EdgesFrom(es, {x}) !! EdgesFrom(es, s - {x});
    }
  }

  lemma {:induction false} InDegreesSum<T(!new)>(es: set<Edge<T>>, adj: map<T, set<T>>, s: set<T>)
    requires s <= adj.Keys
    requires forall u, v :: v in s ==> (u in adj[v] <==> Edge(u, v) in es)
    ensures TotalDegree(s, adj) == |EdgesInto(es, s)|
    decreases s
  {
    if s == {} {
      assert EdgesInto(es, s) == {};
    } else {
      var x :| x in s && TotalDegree(s, adj) == |adj[x]| + TotalDegree(s - {x}, adj);
      InDegreesSum(es, adj, s - {x});
      FanInCounts(es, x, adj[x]);
      assert EdgesInto(es, s) == EdgesInto(es, {x}) + EdgesInto(es, s - {x});
      assert EdgesInto(es, {x}) !! EdgesInto(es, s - {x});
    }
  }
}
