/** `PostgresKnowledgeGraphRepository.traverse` over a node table and an edge table, and its
    agreement with the in-memory traversal. */
module GraphRepository {
  import opened Basics
  import opened Reachability
  import KG = KnowledgeGraph

  /** After `k` rounds: the visited ids are the ball of radius `k`, and only those of the current
      layer may still have unseen targets. */
  ghost predicate LayerOk<Id(!new)>(es: set<Edge<Id>>, start: Id, k: nat, visited: set<Id>, layer: set<Id>) {
    && layer <= visited
    && (forall v :: v in visited <==> Within(es, start, v, k))
    && (forall e :: e in es && e.source in visited && e.source !in layer ==> e.target in visited)
  }

  lemma LayerInit<Id(!new)>(es: set<Edge<Id>>, start: Id)
    ensures LayerOk(es, start, 0, {start}, {start})
  {
    assert Walk(es, start, start, 0);
  }

  lemma NextLayer<Id(!new)>(es: set<Edge<Id>>, start: Id, k: nat, visited: set<Id>, layer: set<Id>, next: set<Id>)
    requires LayerOk(es, start, k, visited, layer)
    requires forall v :: v in next <==> v !in visited && exists u :: u in layer && Edge(u, v) in es
    ensures LayerOk(es, start, k + 1, visited + next, next)
  {
    hide Within;
    forall v ensures v in visited + next <==> Within(es, start, v, k + 1) {
      WithinStep(es, start, v, k);
      if m :| Within(es, start, m, k) && Edge(m, v) in es {
        assert Edge(m, v).source == m && Edge(m, v).target == v;
        assert m in visited;
        assert v in visited + next;
      }
      if v in next {
        var u :| u in layer && Edge(u, v) in es;
        assert Within(es, start, u, k);
      }
    }
    forall e | e in es && e.source in visited && e.source !in next ensures e.target in visited + next {
      assert e == Edge(e.source, e.target);
    }
  }

  /** Once a layer has no new successors the ball has stopped growing. */
  lemma LayersDone<Id(!new)>(es: set<Edge<Id>>, start: Id, k: nat, d: nat, visited: set<Id>, layer: set<Id>)
    requires LayerOk(es, start, k, visited, layer) && k <= d
    requires k == d || forall u, v :: u in layer && Edge(u, v) in es ==> v in visited
    ensures forall v :: v in visited <==> Within(es, start, v, d)
  {
    if k < d {
      forall v | Within(es, start, v, d) ensures v in visited {
        var n: nat :| n <= d && Walk(es, start, v, n);
        assert start in visited by {
          assert Walk(es, start, start, 0);
          assert Within(es, start, start, k);
        }
        forall e | e in es && e.source in visited ensures e.target in visited {
          assert e == Edge(e.source, e.target);
        }
        WalkStaysIn(es, visited, start, v, n);
      }
      forall v | v in visited ensures Within(es, start, v, d) {
        assert Within(es, start, v, k);
        var n: nat :| n <= k && Walk(es, start, v, n);
      }
    }
  }

  /** What the layer traversal returns from a stored start, by its contract. */
  ghost predicate IsLayerResult<N(!new), Node>(rows: set<KG.Relation<N>>, nodes: map<N, Node>, start: N, d: int,
                                               result: seq<N>) {
    forall v :: v in result <==> v in nodes && Within(KG.Arrows(rows), start, v, if d < 0 then 0 else d)
  }

  class GraphRepository<Id(==, !new), Node> {
    var nodes: map<Id, Node>
    var edges: set<KG.Relation<Id>>            // the rows of the edge table

    /** The targets of the edge rows that leave the layer and have not been visited. */
    method Expand(layer: set<Id>, visited: set<Id>) returns (next: set<Id>, visited': set<Id>)
      ensures visited' == visited + next
      ensures forall v :: v in next <==> v !in visited && exists u :: u in layer && Edge(u, v) in KG.Arrows(edges)
      ensures forall v :: v in next <==> v !in visited && exists r :: r in edges && r.source in layer && r.target == v
    {
      visited' := visited;
      next := {};
      var todo := set r | r in edges && r.source in layer;
      ghost var all := todo;
      while todo != {}
        invariant todo <= all && visited' == visited + next
        invariant forall v :: v in next <==> v !in visited && IsTarget(all - todo, v)
        decreases todo
      {
        var edge :| edge in todo;
        if edge.target !in visited' {
          next := next + {edge.target};
          visited' := visited' + {edge.target};
        }
        todo := todo - {edge};
      }
      assert all - todo == all;
      forall v ensures IsTarget(all, v) <==> exists u :: u in layer && Edge(u, v) in KG.Arrows(edges) {
        RowsAreEdges(edges, layer, v);
      }
    }

    /** The nodes stored under the ids of `layer`, in the order the query lists them. */
    method FetchRows(layer: set<Id>, result: seq<Id>) returns (result': seq<Id>)
      requires Distinct(result) && layer !! Elements(result)
      ensures Distinct(result') && result <= result'
      ensures forall v :: v in result' <==> v in result || (v in layer && v in nodes)
    {
      result' := result;
      var todo := set id | id in layer && id in nodes;
      ghost var all := todo;
      while todo != {}
        invariant todo <= all && Distinct(result') && result <= result'
        invariant forall v :: v in result' <==> v in result || v in all - todo
        decreases todo
      {
        var id :| id in todo;
        result' := result' + [id];
        todo := todo - {id};
      }
    }

    /** The stored nodes within `maxDepth` outgoing edges of a stored start, each once; with a
        negative depth the start alone. Ids stand for the rows they key. Nothing else writes to the
        tables between the queries, which are the calls of `Expand` and `FetchRows`. */
    method Traverse(start: Id, maxDepth: int) returns (result: seq<Id>)
      ensures start !in nodes ==> result == []
      ensures start in nodes ==> Distinct(result) && result != [] && result[0] == start
      ensures start in nodes ==> IsLayerResult(edges, nodes, start, maxDepth, result)
    {
      hide Within, Walk, LayerOk, KG.Arrows;
      if start !in nodes {
        return [];
      }
      ghost var es := KG.Arrows(edges);
      ghost var depth: nat := if maxDepth < 0 then 0 else maxDepth;
      var visited, current := {start}, {start};
      result := [start];
      var k := 0;
      LayerInit(es, start);
      while k < maxDepth
        invariant 0 <= k <= depth
        invariant LayerOk(es, start, k, visited, current)
        invariant Distinct(result) && result != [] && result[0] == start
        invariant forall v :: v in result <==> v in visited && v in nodes
        decreases maxDepth - k
      {
        if current == {} {
          break;
        }
        var next, visited' := Expand(current, visited);
        if next == {} {
          break;
        }
        NextLayer(es, start, k, visited, current, next);
        result := FetchRows(next, result);
        visited, current := visited', next;
        k := k + 1;
      }
      LayersDone(es, start, k, depth, visited, current);
    }
  }

  ghost predicate IsTarget<Id(!new)>(rows: set<KG.Relation<Id>>, v: Id) {
    exists r :: r in rows && r.target == v
  }

  lemma RowsAreEdges<Id(!new)>(rows: set<KG.Relation<Id>>, layer: set<Id>, v: Id)
    ensures IsTarget((set r | r in rows && r.source in layer), v) <==>
              exists u :: u in layer && Edge(u, v) in KG.Arrows(rows)
  {
    if r :| r in rows && r.source in layer && r.target == v {
      assert Edge(r.source, v) in KG.Arrows(rows);
    }
    if u :| u in layer && Edge(u, v) in KG.Arrows(rows) {
      var r :| r in rows && Edge(r.source, r.target) == Edge(u, v);
      assert r.source in layer && r.target == v;
    }
  }

  // ----- the two traversals compared

  ghost predicate Symmetric<N(!new)>(es: set<Edge<N>>) {
    forall e <- es :: Edge(e.target, e.source) in es
  }

  /** Following links both ways never sees less than following them forwards, and on a symmetric
      relation both see the same at every depth. */
  lemma BallsCompared<N(!new)>(rs: set<KG.Relation<N>>, start: N, v: N, d: int)
    ensures Within(KG.Arrows(rs), start, v, d) ==> Within(KG.Links(rs), start, v, d)
    ensures Symmetric(KG.Arrows(rs)) ==> (Within(KG.Arrows(rs), start, v, d) <==> Within(KG.Links(rs), start, v, d))
  {
    if Within(KG.Arrows(rs), start, v, d) {
      var n: nat :| n <= d && Walk(KG.Arrows(rs), start, v, n);
      WalkMonotone(KG.Arrows(rs), KG.Links(rs), start, v, n);
    }
    if Symmetric(KG.Arrows(rs)) {
      forall r | r in rs ensures Edge(r.target, r.source) in KG.Arrows(rs) {
        assert Edge(r.source, r.target) in KG.Arrows(rs);
      }
      assert KG.Links(rs) == KG.Arrows(rs);
    }
  }

  /** What the FIFO traversal returns, by its contract. */
  ghost predicate IsFifoResult<N(!new)>(rs: set<KG.Relation<N>>, start: N, d: int, result: seq<N>) {
    forall v :: v in result <==> Within(KG.Links(rs), start, v, d)
  }

  /** The two traversals over the same relations, from a stored start: the layer traversal never
      returns more than the other, except the start for a negative depth; on symmetric relations
      they return the same entities iff the depth is not negative and every entity in reach has a row. */
  lemma TraversalsCompared<N(!new), Node>(rows: set<KG.Relation<N>>, rs: set<KG.Relation<N>>, nodes: map<N, Node>,
                                          start: N, d: int, fifo: seq<N>, layers: seq<N>)
    requires KG.Arrows(rows) == KG.Arrows(rs) && start in nodes
    requires IsFifoResult(rs, start, d, fifo) && IsLayerResult(rows, nodes, start, d, layers)
    ensures d >= 0 ==> Elements(layers) <= Elements(fifo)
    ensures d < 0 ==> Elements(fifo) == {} && Elements(layers) == {start}
    ensures Symmetric(KG.Arrows(rs)) ==>
              (Elements(fifo) == Elements(layers) <==>
                  d >= 0 && forall v :: Within(KG.Links(rs), start, v, d) ==> v in nodes)
  {
    hide Within, KG.Arrows, KG.Links, Symmetric;
    var all, forwards, radius := KG.Links(rs), KG.Arrows(rows), if d < 0 then 0 else d;
    forall v
      ensures v in fifo <==> Within(all, start, v, d)
      ensures v in layers <==> v in nodes && Within(forwards, start, v, radius)
      ensures d >= 0 && Within(forwards, start, v, d) ==> Within(all, start, v, d)
      ensures Symmetric(forwards) ==> (Within(forwards, start, v, d) <==> Within(all, start, v, d))
      ensures d < 0 ==> !Within(all, start, v, d) && (Within(forwards, start, v, radius) <==> v == start) {
      BallsCompared(rs, start, v, d);
      WithinNegative(all, start, v, d);
      WithinZero(forwards, start, v);
    }
    assert Elements(fifo) == Elements(layers) <==> forall v :: v in fifo <==> v in layers by {
      SameElements(fifo, layers);
    }
    if d < 0 {
      assert start in layers;
    }
  }

  lemma SameElements<T(!new)>(a: seq<T>, b: seq<T>)
    ensures Elements(a) == Elements(b) <==> forall v :: v in a <==> v in b
  {
    if Elements(a) == Elements(b) {
      forall v ensures v in a <==> v in b {
        assert v in Elements(a) <==> v in Elements(b);
      }
    }
  }

  lemma WithinNegative<N(!new)>(es: set<Edge<N>>, start: N, v: N, d: int)
    ensures d < 0 ==> !Within(es, start, v, d)
  {
  }

  lemma WithinZero<N(!new)>(es: set<Edge<N>>, start: N, v: N)
    ensures Within(es, start, v, 0) <==> v == start
  {
    assert Walk(es, start, start, 0);
  }
}
