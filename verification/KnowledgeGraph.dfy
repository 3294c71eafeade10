/** The in-memory entity graph of `core/memory/knowledge_graph.py` and its FIFO traversal. */
module KnowledgeGraph {
  import opened Basics
  import opened Reachability

  datatype Relation<N> = Relation(source: N, target: N, relType: string)
  datatype Entity = Entity(kind: string, properties: map<string, string>)

  /** Relations read in both directions. */
  ghost function Links<N>(rs: set<Relation<N>>): set<Edge<N>> {
    Arrows(rs) + set r | r in rs :: Edge(r.target, r.source)
  }

  ghost function Arrows<N>(rs: set<Relation<N>>): set<Edge<N>> {
    set r | r in rs :: Edge(r.source, r.target)
  }

  ghost function Incident<N>(rs: set<Relation<N>>, n: N): set<Relation<N>> {
    set r | r in rs && (r.source == n || r.target == n)
  }

  lemma IncidentAdd<N>(seen: set<Relation<N>>, r: Relation<N>, n: N)
    requires r !in seen
    ensures |Incident(seen + {r}, n)| == |Incident(seen, n)| + if r.source == n || r.target == n then 1 else 0
  {
    assert Incident(seen + {r}, n) == Incident(seen, n) + if r.source == n || r.target == n then {r} else {};
  }

  lemma IncidentNone<N>(n: N)
    ensures Incident({}, n) == {}
  {
  }

  // ----- the queue of the traversal

  /** The queue holds walks from the start in order of length, over at most two lengths. */
  ghost predicate EntriesOk<N(!new)>(es: set<Edge<N>>, start: N, queue: seq<(N, int)>) {
    && (forall i, j :: 0 <= i < j < |queue| ==> queue[i].1 <= queue[j].1 <= queue[0].1 + 1)
    && (forall i :: 0 <= i < |queue| ==> queue[i].1 >= 0 && Walk(es, start, queue[i].0, queue[i].1))
  }

  /** The start and every link out of a visited node are followed, waiting or too deep. */
  ghost predicate Covered<N(!new)>(es: set<Edge<N>>, start: N, maxDepth: int, queue: seq<(N, int)>, dist: map<N, nat>) {
    && (start in dist || (start, 0) in queue || maxDepth < 0)
    && (forall e :: e in es && e.source in dist ==>
          e.target in dist || dist[e.source] + 1 > maxDepth || (e.target, dist[e.source] + 1) in queue)
  }

  ghost predicate QueueOk<N(!new)>(es: set<Edge<N>>, start: N, maxDepth: int, queue: seq<(N, int)>, dist: map<N, nat>) {
    && EntriesOk(es, start, queue)
    && (forall v :: v in dist ==> dist[v] <= maxDepth && IsDistance(es, start, v, dist[v]))
    && (forall v :: v in dist && queue != [] ==> dist[v] <= queue[0].1)
    && Covered(es, start, maxDepth, queue, dist)
  }

  /** Everything closer than the head of the queue has been visited. */
  lemma {:induction false} NearerVisited<N(!new)>(es: set<Edge<N>>, start: N, maxDepth: int, queue: seq<(N, int)>,
                                                  dist: map<N, nat>, v: N, n: nat)
    requires QueueOk(es, start, maxDepth, queue, dist)
    requires Walk(es, start, v, n) && n <= maxDepth && (queue == [] || n < queue[0].1)
    ensures v in dist
    decreases n
  {
    if n == 0 {
    } else {
      var m :| Walk(es, start, m, n - 1) && Edge(m, v) in es;
      NearerVisited(es, start, maxDepth, queue, dist, m, n - 1);
      assert dist[m] <= n - 1;
      assert Edge(m, v).source == m && Edge(m, v).target == v;
    }
  }

  /** Dropping a stale or too deep head. */
  lemma SkipHead<N(!new)>(es: set<Edge<N>>, start: N, maxDepth: int, queue: seq<(N, int)>, dist: map<N, nat>)
    requires QueueOk(es, start, maxDepth, queue, dist) && queue != []
    requires queue[0].0 in dist || queue[0].1 > maxDepth
    ensures QueueOk(es, start, maxDepth, queue[1..], dist)
  {
    hide Walk, IsDistance;
    assert queue == [queue[0]] + queue[1..];
    assert forall x :: x in queue <==> x == queue[0] || x in queue[1..];
  }

  /** Visiting the head: it is at the distance it was queued with. */
  lemma HeadDistance<N(!new)>(es: set<Edge<N>>, start: N, maxDepth: int, queue: seq<(N, int)>, dist: map<N, nat>)
    requires QueueOk(es, start, maxDepth, queue, dist) && queue != []
    requires queue[0].0 !in dist && queue[0].1 <= maxDepth
    ensures queue[0].1 >= 0 && IsDistance(es, start, queue[0].0, queue[0].1)
  {
    hide Walk;
    forall m: nat | Walk(es, start, queue[0].0, m) ensures queue[0].1 <= m {
      if m < queue[0].1 {
        NearerVisited(es, start, maxDepth, queue, dist, queue[0].0, m);
        assert false;
      }
    }
  }

  lemma VisitHead<N(!new)>(es: set<Edge<N>>, start: N, maxDepth: int, queue: seq<(N, int)>, dist: map<N, nat>,
                           added: seq<(N, int)>)
    requires QueueOk(es, start, maxDepth, queue, dist) && queue != []
    requires queue[0].0 !in dist && 0 <= queue[0].1 <= maxDepth
    requires forall i :: 0 <= i < |added| ==> added[i].1 == queue[0].1 + 1 && Edge(queue[0].0, added[i].0) in es
    requires forall v :: Edge(queue[0].0, v) in es ==>
               v in dist || v == queue[0].0 || (v, queue[0].1 + 1) in added
    ensures QueueOk(es, start, maxDepth, queue[1..] + added, dist[queue[0].0 := queue[0].1])
  {
    hide Walk, IsDistance, EntriesOk, Covered;
    HeadDistance(es, start, maxDepth, queue, dist);
    VisitEntries(es, start, queue, added);
    VisitCovered(es, start, maxDepth, queue, dist, added);
  }

  lemma VisitEntries<N(!new)>(es: set<Edge<N>>, start: N, queue: seq<(N, int)>, added: seq<(N, int)>)
    requires EntriesOk(es, start, queue) && queue != [] && queue[0].1 >= 0
    requires forall i :: 0 <= i < |added| ==> added[i].1 == queue[0].1 + 1 && Edge(queue[0].0, added[i].0) in es
    ensures EntriesOk(es, start, queue[1..] + added)
    ensures queue[1..] + added != [] ==> (queue[1..] + added)[0].1 >= queue[0].1
  {
    hide Walk;
    forall i | 0 <= i < |added| ensures Walk(es, start, added[i].0, added[i].1) {
      WalkStep(es, start, queue[0].0, added[i].0, queue[0].1);
    }
  }

  lemma VisitCovered<N(!new)>(es: set<Edge<N>>, start: N, maxDepth: int, queue: seq<(N, int)>, dist: map<N, nat>,
                              added: seq<(N, int)>)
    requires Covered(es, start, maxDepth, queue, dist) && queue != [] && queue[0].0 !in dist && queue[0].1 >= 0
    requires forall v :: Edge(queue[0].0, v) in es ==>
               v in dist || v == queue[0].0 || (v, queue[0].1 + 1) in added
    ensures Covered(es, start, maxDepth, queue[1..] + added, dist[queue[0].0 := queue[0].1])
  {
    var u, d := queue[0].0, queue[0].1;
    assert queue == [queue[0]] + queue[1..];
    assert forall x :: x in queue ==> x == queue[0] || x in queue[1..] + added;
    forall e | e in es && e.source == u
        ensures e.target in dist || e.target == u || (e.target, d + 1) in queue[1..] + added {
      assert e == Edge(u, e.target);
    }
  }

  ghost function Universe<N>(es: set<Edge<N>>, start: N): set<N> {
    {start} + set e | e in es :: e.target
  }

  class KnowledgeGraph<N(==, !new)> {
    var nodes: map<N, Entity>
    var relations: set<Relation<N>>

    constructor ()
      ensures nodes == map[] && relations == {}
    {
      nodes, relations := map[], {};
    }

    method AddEntity(name: N, kind: string, properties: map<string, string>)
      modifies this
      ensures nodes == old(nodes)[name := Entity(kind, properties)] && relations == old(relations)
    {
      nodes := nodes[name := Entity(kind, properties)];
    }

    method AddRelation(source: N, target: N, relType: string)
      modifies this
      ensures relations == old(relations) + {Relation(source, target, relType)} && nodes == old(nodes)
    {
      relations := relations + {Relation(source, target, relType)};
    }

    /** One entry for every relation that touches the entity, naming its other end. */
    method GetNeighbors(name: N) returns (neighbors: seq<(N, string)>)
      ensures |neighbors| == |Incident(relations, name)|
      ensures forall v, t :: (v, t) in neighbors <==>
                Relation(name, v, t) in relations || Relation(v, name, t) in relations
    {
      hide Incident;
      neighbors := [];
      IncidentNone(name);
      var todo := relations;
      ghost var seen: set<Relation<N>> := {};
      while todo != {}
        invariant seen + todo == relations && seen !! todo
        invariant |neighbors| == |Incident(seen, name)|
        invariant forall v, t :: (v, t) in neighbors <==>
                    Relation(name, v, t) in seen || Relation(v, name, t) in seen
        decreases todo
      {
        var r :| r in todo;
        IncidentAdd(seen, r, name);
        if r.source == name {
          neighbors := neighbors + [(r.target, r.relType)];
        } else if r.target == name {
          neighbors := neighbors + [(r.source, r.relType)];
        }
        todo, seen := todo - {r}, seen + {r};
      }
      assert seen == relations;
    }

    /** The queue entries for the neighbors of `node` that are not visited yet. */
    method Waiting(node: N, depth: int, visited: set<N>) returns (added: seq<(N, int)>)
      ensures forall k :: 0 <= k < |added| ==> added[k].1 == depth && Edge(node, added[k].0) in Links(relations)
      ensures forall v :: Edge(node, v) in Links(relations) ==> v in visited || (v, depth) in added
    {
      hide Links;
      var neighbors := GetNeighbors(node);
      added := [];
      for i := 0 to |neighbors|
        invariant forall k :: 0 <= k < |added| ==> added[k].1 == depth && Edge(node, added[k].0) in Links(relations)
        invariant forall k :: 0 <= k < i ==> neighbors[k].0 in visited || (neighbors[k].0, depth) in added
      {
        var (neighbor, relType) := neighbors[i];
        assert (neighbor, relType) in neighbors;
        NeighborIsLinked(relations, node, neighbor, relType);
        if neighbor !in visited {
          added := added + [(neighbor, depth)];
        }
      }
      forall v | Edge(node, v) in Links(relations) ensures v in visited || (v, depth) in added {
        var t := LinkIsNeighbor(relations, node, v);
        assert (v, t) in neighbors;
      }
    }

    /** Exactly the entities within `maxDepth` links of the start, each once, nearest first. */
    method Traverse(start: N, maxDepth: int) returns (result: seq<N>, ghost dist: map<N, nat>)
      ensures Distinct(result)
      ensures forall v :: v in result <==> Within(Links(relations), start, v, maxDepth)
      ensures dist.Keys == Elements(result)
      ensures forall v :: v in result ==> IsDistance(Links(relations), start, v, dist[v])
      ensures forall i, j :: 0 <= i < j < |result| ==>
                result[i] in dist && result[j] in dist && dist[result[i]] <= dist[result[j]]
    {
      hide Walk, IsDistance, QueueOk, Within;
      var visited: set<N> := {};
      var queue: seq<(N, int)> := [(start, 0)];
      result, dist := [], map[];
      ghost var es := Links(relations);
      QueueInit(es, start, maxDepth);
      while queue != []
        invariant QueueOk(es, start, maxDepth, queue, dist)
        invariant visited == dist.Keys == Elements(result) && Distinct(result)
        invariant visited <= Universe(es, start)
        invariant Ordered(result, dist)
        decreases Universe(es, start) - visited, |queue|
      {
        var (node, depth) := queue[0];
        if node in visited || depth > maxDepth {
          SkipHead(es, start, maxDepth, queue, dist);
          queue := queue[1..];
        } else {
          HeadFacts(es, start, maxDepth, queue, dist);
          visited := visited + {node};
          assert forall v :: v in result + [node] <==> v in result || v == node;
          result := result + [node];
          var added := Waiting(node, depth + 1, visited);
          VisitHead(es, start, maxDepth, queue, dist, added);
          dist := dist[node := depth];
          queue := queue[1..] + added;
        }
      }
      TraverseDone(es, start, maxDepth, dist);
    }
  }

  ghost predicate Ordered<N(!new)>(result: seq<N>, dist: map<N, nat>) {
    forall i, j :: 0 <= i < j < |result| ==>
        result[i] in dist && result[j] in dist && dist[result[i]] <= dist[result[j]]
  }

  lemma QueueInit<N(!new)>(es: set<Edge<N>>, start: N, maxDepth: int)
    ensures QueueOk(es, start, maxDepth, [(start, 0)], map[])
  {
    assert Walk(es, start, start, 0);
  }

  lemma HeadFacts<N(!new)>(es: set<Edge<N>>, start: N, maxDepth: int, queue: seq<(N, int)>, dist: map<N, nat>)
    requires QueueOk(es, start, maxDepth, queue, dist) && queue != []
    ensures queue[0].1 >= 0 && queue[0].0 in Universe(es, start)
    ensures forall v :: v in dist ==> dist[v] <= queue[0].1
  {
    WalkStaysIn(es, Universe(es, start), start, queue[0].0, queue[0].1);
  }

  lemma NeighborIsLinked<N>(rs: set<Relation<N>>, u: N, v: N, t: string)
    requires Relation(u, v, t) in rs || Relation(v, u, t) in rs
    ensures Edge(u, v) in Links(rs)
  {
    if Relation(u, v, t) in rs {
      assert Edge(Relation(u, v, t).source, Relation(u, v, t).target) in Links(rs);
    } else {
      assert Edge(Relation(v, u, t).target, Relation(v, u, t).source) in Links(rs);
    }
  }

  lemma LinkIsNeighbor<N>(rs: set<Relation<N>>, u: N, v: N) returns (t: string)
    requires Edge(u, v) in Links(rs)
    ensures Relation(u, v, t) in rs || Relation(v, u, t) in rs
  {
    var r :| r in rs && (Edge(r.source, r.target) == Edge(u, v) || Edge(r.target, r.source) == Edge(u, v));
    t := r.relType;
    assert r == Relation(r.source, r.target, t);
  }

  lemma TraverseDone<N(!new)>(es: set<Edge<N>>, start: N, maxDepth: int, dist: map<N, nat>)
    requires QueueOk(es, start, maxDepth, [], dist)
    ensures forall v :: v in dist <==> Within(es, start, v, maxDepth)
    ensures forall v :: v in dist ==> IsDistance(es, start, v, dist[v])
  {
    forall v | Within(es, start, v, maxDepth) ensures v in dist {
      var n: nat :| n <= maxDepth && Walk(es, start, v, n);
      NearerVisited(es, start, maxDepth, [], dist, v, n);
    }
  }
}
