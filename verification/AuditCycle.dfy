/** `ArchitectureAudit._find_cycle`: recursive depth-first search for an import cycle. */
module AuditCycle {
  import opened Basics
  import opened Reachability

  /** The edges the search follows: only those between known modules. */
  ghost function KnownEdges<T>(graph: map<T, set<T>>): set<Edge<T>> {
    set u, v | u in graph && v in graph[u] && v in graph :: Edge(u, v)
  }

  lemma KnownEdge<T>(graph: map<T, set<T>>, u: T, v: T)
    requires u in graph && v in graph && v in graph[u]
    ensures Edge(u, v) in KnownEdges(graph)
  {
  }

  /** A walk along `es` that ends where it starts and repeats nothing else. */
  ghost predicate IsCyclePath<T(!new)>(es: set<Edge<T>>, p: seq<T>) {
    && |p| >= 2
    && p[|p| - 1] == p[0]
    && Distinct(p[..|p| - 1])
    && forall i :: 0 <= i < |p| - 1 ==> Edge(p[i], p[i + 1]) in es
  }

  lemma {:induction false} PathWalk<T(!new)>(es: set<Edge<T>>, p: seq<T>, i: nat, j: nat)
    requires i <= j < |p| && forall k :: 0 <= k < |p| - 1 ==> Edge(p[k], p[k + 1]) in es
    ensures Reach(es, p[i], p[j])
    decreases j
  {
    if i == j {
      ReachRefl(es, p[i]);
    } else {
      PathWalk(es, p, i, j - 1);
      ReachStep(es, p[i], p[j - 1], p[j]);
    }
  }

  /** A reported path is the proof of a cycle, through each of its nodes. */
  lemma CyclePathSound<T(!new)>(es: set<Edge<T>>, p: seq<T>, k: nat)
    requires IsCyclePath(es, p) && k < |p| - 1
    ensures OnCycle(es, p[k])
  {
    PathWalk(es, p, k + 1, |p| - 1);
    PathWalk(es, p, 0, k);
    ReachTrans(es, p[k + 1], p[|p| - 1], p[k]);
  }

  /** The variables shared by the calls of the nested function `dfs`. */
  class CycleSearch<T(==, !new)> {
    const graph: map<T, set<T>>
    var visited: set<T>
    var stack: seq<T>
    var inStack: set<T>
    ghost var finished: seq<T>   // completed nodes, in the order they were left

    /** The stack is a path; completed nodes point to earlier completed nodes only. */
    ghost predicate Valid()
      reads this
    {
      && Distinct(stack) && inStack == Elements(stack)
      && Distinct(finished) && visited == inStack + Elements(finished) && inStack !! Elements(finished)
      && visited <= graph.Keys
      && (forall i :: 0 <= i < |stack| - 1 ==> Edge(stack[i], stack[i + 1]) in KnownEdges(graph))
      && (forall i, v :: 0 <= i < |finished| && Edge(finished[i], v) in KnownEdges(graph) ==> v in finished[..i])
    }

    constructor (graph: map<T, set<T>>)
      ensures this.graph == graph && Valid() && visited == {} && stack == []
    {
      this.graph := graph;
      visited, stack, inStack, finished := {}, [], {}, [];
    }

    /** Open nodes are on the stack; the other visited nodes are completed. */
    lemma Colour(x: T)
      requires Valid()
      ensures x in inStack <==> x in stack
      ensures x in visited <==> x in inStack || x in finished
    {
    }

    lemma ClosingEdge(idx: nat)
      requires Valid() && idx < |stack|
      requires Edge(stack[|stack| - 1], stack[idx]) in KnownEdges(graph)
      ensures IsCyclePath(KnownEdges(graph), stack[idx..] + [stack[idx]])
    {
      ClosingPath(KnownEdges(graph), stack, idx);
    }

    method Enter(node: T)
      requires Valid() && node in graph && node !in visited
      requires stack != [] ==> Edge(stack[|stack| - 1], node) in KnownEdges(graph)
      modifies this
      ensures Valid() && stack == old(stack) + [node] && visited == old(visited) + {node}
      ensures finished == old(finished)
    {
      visited := visited + {node};
      stack := stack + [node];
      inStack := inStack + {node};
      assert Elements(stack) == old(Elements(stack)) + {node};
    }

    method Leave(node: T)
      requires Valid() && stack != [] && stack[|stack| - 1] == node
      requires forall v :: v in graph[node] && v in graph ==> v in finished
      modifies this
      ensures Valid() && stack == old(stack[..|stack| - 1]) && visited == old(visited)
      ensures finished == old(finished) + [node]
    {
      LeaveNode(stack, finished, node);
      stack := stack[..|stack| - 1];
      inStack := inStack - {node};
      finished := finished + [node];
      forall i, v | 0 <= i < |finished| && Edge(finished[i], v) in KnownEdges(graph)
        ensures v in finished[..i]
      {
        assert finished[..i] == old(finished)[..i];
        assert old(finished)[..|finished| - 1] == old(finished);
      }
    }

    method Dfs(node: T) returns (cycle: Option<seq<T>>)
      requires Valid() && node in graph && node !in visited
      requires stack != [] ==> Edge(stack[|stack| - 1], node) in KnownEdges(graph)
      modifies this
      ensures cycle.Some? ==> IsCyclePath(KnownEdges(graph), cycle.value)
      ensures cycle.None? ==> Valid() && stack == old(stack)
      ensures cycle.None? ==> old(visited) + {node} <= visited && node in finished && old(finished) <= finished
      decreases graph.Keys - visited
    {
      hide IsCyclePath, KnownEdges, Valid;
      Enter(node);
      ghost var here := stack;
      var neighbors := graph[node];
      while neighbors != {}
        invariant Valid() && stack == here && old(visited) + {node} <= visited && old(finished) <= finished
        invariant neighbors <= graph[node]
        invariant forall v :: v in graph[node] - neighbors && v in graph ==> v in finished
        decreases neighbors
      {
        var neighbor :| neighbor in neighbors;
        if neighbor in graph {
          KnownEdge(graph, node, neighbor);
          Colour(neighbor);
          if neighbor in inStack {
            var idx := IndexOf(stack, neighbor);
            ClosingEdge(idx);
            return Some(stack[idx..] + [neighbor]);
          }
          if neighbor !in visited {
            cycle := Dfs(neighbor);
            if cycle.Some? {
              return cycle;
            }
          }
        }
        neighbors := neighbors - {neighbor};
      }
      Leave(node);
      return None;
    }
  }

  lemma LeaveNode<T(!new)>(here: seq<T>, finished: seq<T>, node: T)
    requires Distinct(here) && here != [] && here[|here| - 1] == node
    requires Distinct(finished) && Elements(here) !! Elements(finished)
    ensures Elements(here[..|here| - 1]) == Elements(here) - {node}
    ensures Elements(finished + [node]) == Elements(finished) + {node}
    ensures Distinct(finished + [node])
  {
    assert here == here[..|here| - 1] + [node];
    forall x | x in finished ensures x != node {
      assert x in Elements(finished) && node in Elements(here);
    }
  }

  method IndexOf<T(==)>(s: seq<T>, x: T) returns (i: nat)
    requires x in s
    ensures i < |s| && s[i] == x && x !in s[..i]
  {
    i := 0;
    while s[i] != x
      invariant i < |s| && x !in s[..i]
      invariant x in s[i..]
      decreases |s| - i
    {
      i := i + 1;
    }
  }

  lemma ClosingPath<T(!new)>(es: set<Edge<T>>, stack: seq<T>, idx: nat)
    requires idx < |stack| && Distinct(stack)
    requires forall i :: 0 <= i < |stack| - 1 ==> Edge(stack[i], stack[i + 1]) in es
    requires Edge(stack[|stack| - 1], stack[idx]) in es
    ensures IsCyclePath(es, stack[idx..] + [stack[idx]])
  {
    var p := stack[idx..] + [stack[idx]];
    assert p[..|p| - 1] == stack[idx..];
    forall i | 0 <= i < |p| - 1 ensures Edge(p[i], p[i + 1]) in es {
      assert p[i] == stack[idx + i];
    }
  }

  /** The search returns a cycle path exactly when the graph of known modules has a cycle. */
  method FindCycle<T(==, !new)>(graph: map<T, set<T>>) returns (cycle: Option<seq<T>>)
    ensures cycle.Some? ==> IsCyclePath(KnownEdges(graph), cycle.value)
    ensures cycle.Some? <==> HasCycle(KnownEdges(graph))
  {
    var search := new CycleSearch(graph);
    var todo := graph.Keys;
    while todo != {}
      invariant search.Valid() && search.graph == graph && search.stack == [] && fresh(search)
      invariant todo <= graph.Keys && graph.Keys - todo <= search.visited
      decreases todo
    {
      var node :| node in todo;
      if node !in search.visited {
        cycle := search.Dfs(node);
        if cycle.Some? {
          CyclePathSound(KnownEdges(graph), cycle.value, 0);
          return;
        }
      }
      todo := todo - {node};
    }
    forall e | e in KnownEdges(graph) ensures e.source in search.finished {
      assert e.source in search.visited;
    }
    TopologicalOrderAcyclic(KnownEdges(graph), search.finished);
    return None;
  }
}
