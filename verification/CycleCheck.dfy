/** `_find_cycles` and `DependencyGraphValidator._check_cycles`: which modules are reported. */
module CycleCheck {
  import opened Basics
  import opened Reachability
  import opened ImportGraph
  import opened TarjanSearch
  import opened Tarjan
  import opened AuditCycle

  /** A CYCLE-1 violation: the module blamed and the component printed with it. */
  datatype Violation<T> = Violation(sourceModule: T, cycle: seq<T>)

  /** The nodes of a component lie on a cycle exactly when there are two of them. */
  lemma SccOnCycle<T(!new)>(es: set<Edge<T>>, c: seq<T>, v: T)
    requires IsScc(es, c) && v in c && forall e <- es :: e.source != e.target
    ensures OnCycle(es, v) <==> |c| >= 2
  {
    hide Reach;
    if OnCycle(es, v) {
      var w :| Edge(v, w) in es && Reach(es, w, v);
      ReachEdge(es, v, w);
      assert Mutual(es, v, w);
    }
    if |c| >= 2 {
      var y := if c[0] == v then c[1] else c[0];
      MutualOnCycle(es, v, y);
    }
  }

  lemma IsSccPermuted<T(!new)>(es: set<Edge<T>>, c: seq<T>, d: seq<T>)
    requires IsScc(es, c) && multiset(d) == multiset(c)
    ensures IsScc(es, d) && Elements(d) == Elements(c)
  {
    hide Mutual;
    DistinctMultiset(c);
    assert |multiset(d)| == |d|;
    assert forall x :: x in d <==> x in multiset(d);
    forall i, j | 0 <= i < j < |d| ensures d[i] != d[j] {
      assert d == d[..j] + [d[j]] + d[j + 1..];
      assert d[i] in d[..j] && multiset(d[..j])[d[i]] >= 1;
      assert multiset(d) == multiset(d[..j]) + multiset{d[j]} + multiset(d[j + 1..]);
      assert multiset(d)[d[j]] == multiset(c)[d[j]] <= 1;
    }
  }

  /** The cyclic components: every module on a cycle is in exactly one of them, no other is. */
  method FindCycles<T(==, !new)>(graph: DependencyGraph<T>, sorted: seq<T> -> seq<T>) returns (cycles: seq<seq<T>>)
    requires graph.Valid() && forall s :: multiset(sorted(s)) == multiset(s)
    ensures forall i :: 0 <= i < |cycles| ==> IsScc(graph.edges, cycles[i])
    ensures PairwiseDisjoint(cycles)
    ensures forall v :: v in Emitted(cycles) <==> OnCycle(graph.edges, v)
  {
    hide OnCycle, Mutual;
    var sccs, visits, scans := TarjanScc(graph);
    cycles := [];
    for i := 0 to |sccs|
      invariant forall j :: 0 <= j < |cycles| ==> IsScc(graph.edges, cycles[j])
      invariant PairwiseDisjoint(cycles)
      invariant forall v :: v in Emitted(cycles) <==> v in Emitted(sccs[..i]) && OnCycle(graph.edges, v)
    {
      var scc := sccs[i];
      assert sccs[..i + 1] == sccs[..i] + [scc];
      EmittedAppend(sccs[..i], scc);
      forall v | v in scc ensures OnCycle(graph.edges, v) <==> |scc| >= 2 {
        SccOnCycle(graph.edges, scc, v);
      }
      NotYetEmitted(sccs, i);
      if |scc| >= 2 {
        IsSccPermuted(graph.edges, scc, sorted(scc));
        DisjointAppend(cycles, sorted(scc));
        EmittedAppend(cycles, sorted(scc));
        cycles := cycles + [sorted(scc)];
      } else if |scc| == 1 {
        var node := scc[0];
        var successors := graph.Successors(node);
        if node in successors {
          cycles := cycles + [[node]];
        }
      }
    }
    assert sccs[..|sccs|] == sccs;
    OnlyNodesOnCycles(graph.nodes, graph.edges);
  }

  lemma NotYetEmitted<T(!new)>(sccs: seq<seq<T>>, i: nat)
    requires PairwiseDisjoint(sccs) && i < |sccs|
    ensures forall x :: x in sccs[i] ==> x !in Emitted(sccs[..i])
  {
  }

  lemma DisjointAppend<T(!new)>(sccs: seq<seq<T>>, c: seq<T>)
    requires PairwiseDisjoint(sccs) && forall x :: x in c ==> x !in Emitted(sccs)
    ensures PairwiseDisjoint(sccs + [c])
  {
    var sccs' := sccs + [c];
    forall i, j, x | 0 <= i < j < |sccs'| && x in sccs'[i] ensures x !in sccs'[j] {
      if j == |sccs| {
        assert sccs[i] in sccs;
      }
    }
  }

  lemma OnlyNodesOnCycles<T(!new)>(ns: set<T>, es: set<Edge<T>>)
    requires forall e <- es :: e.source in ns
    ensures forall v :: OnCycle(es, v) ==> v in ns
  {
  }

  /** A module gets a CYCLE-1 violation iff it lies on a directed cycle, and then exactly one, which
      names the modules that it is mutually reachable with. */
  method CheckCycles<T(==, !new)>(graph: DependencyGraph<T>, sorted: seq<T> -> seq<T>) returns (vs: seq<Violation<T>>)
    requires graph.Valid() && forall s :: multiset(sorted(s)) == multiset(s)
    ensures forall m :: OnCycle(graph.edges, m) <==> exists i :: 0 <= i < |vs| && vs[i].sourceModule == m
    ensures forall i, j :: 0 <= i < j < |vs| ==> vs[i].sourceModule != vs[j].sourceModule
    ensures forall i, m :: 0 <= i < |vs| ==> (m in vs[i].cycle <==> Mutual(graph.edges, vs[i].sourceModule, m))
    ensures vs == [] <==> !HasCycle(graph.edges)
  {
    hide Reach;
    var cycles := FindCycles(graph, sorted);
    vs := [];
    for i := 0 to |cycles|
      invariant Blamed(vs) == Emitted(cycles[..i])
      invariant DistinctBlame(vs)
      invariant forall k, m :: 0 <= k < |vs| ==> (m in vs[k].cycle <==> Mutual(graph.edges, vs[k].sourceModule, m))
    {
      var cycle := cycles[i];
      assert cycles[..i + 1] == cycles[..i] + [cycle];
      EmittedAppend(cycles[..i], cycle);
      NotYetEmitted(cycles, i);
      for j := 0 to |cycle|
        invariant Blamed(vs) == Emitted(cycles[..i]) + Elements(cycle[..j])
        invariant DistinctBlame(vs)
        invariant forall k, m :: 0 <= k < |vs| ==> (m in vs[k].cycle <==> Mutual(graph.edges, vs[k].sourceModule, m))
      {
        assert cycle[..j + 1] == cycle[..j] + [cycle[j]];
        BlameAppend(vs, Violation(cycle[j], cycle));
        vs := vs + [Violation(cycle[j], cycle)];
      }
      assert cycle[..|cycle|] == cycle;
    }
    assert cycles[..|cycles|] == cycles;
    forall m ensures OnCycle(graph.edges, m) <==> exists i :: 0 <= i < |vs| && vs[i].sourceModule == m {
      assert OnCycle(graph.edges, m) <==> m in Blamed(vs);
    }
    if vs != [] {
      assert OnCycle(graph.edges, vs[0].sourceModule);
    }
  }

  ghost function Blamed<T>(vs: seq<Violation<T>>): set<T> {
    set v | v in vs :: v.sourceModule
  }

  ghost predicate DistinctBlame<T(!new)>(vs: seq<Violation<T>>) {
    forall i, j :: 0 <= i < j < |vs| ==> vs[i].sourceModule != vs[j].sourceModule
  }

  lemma BlameAppend<T(!new)>(vs: seq<Violation<T>>, v: Violation<T>)
    requires DistinctBlame(vs) && v.sourceModule !in Blamed(vs)
    ensures DistinctBlame(vs + [v]) && Blamed(vs + [v]) == Blamed(vs) + {v.sourceModule}
  {
    assert forall w :: w in vs + [v] <==> w in vs || w == v;
    assert forall i :: 0 <= i < |vs| ==> vs[i] in vs;
  }

  // ----- the two cycle checks of the repository compared

  ghost function WithoutSelfEdges<T>(es: set<Edge<T>>): set<Edge<T>> {
    set e | e in es && e.source != e.target
  }

  lemma {:induction false} WalkSkipsSelfEdges<T(!new)>(es: set<Edge<T>>, u: T, v: T, n: nat)
    requires Walk(es, u, v, n)
    ensures Reach(WithoutSelfEdges(es), u, v)
    decreases n
  {
    if n == 0 {
      ReachRefl(WithoutSelfEdges(es), u);
    } else {
      var m :| Walk(es, u, m, n - 1) && Edge(m, v) in es;
      WalkSkipsSelfEdges(es, u, m, n - 1);
      if m != v {
        ReachStep(WithoutSelfEdges(es), u, m, v);
      }
    }
  }

  /** The architecture audit follows self-imports and the dependency validator drops them: on the
      same imports their verdicts differ exactly when self-imports are the only cycles. */
  lemma AuditVersusValidator<T(!new)>(ns: set<T>, es: set<Edge<T>>, sccs: seq<seq<T>>)
    requires IsSccPartition(ns, WithoutSelfEdges(es), sccs)
    requires forall e <- es :: e.source in ns && e.target in ns
    ensures HasCycle(es) <==> (exists v :: Edge(v, v) in es) || exists i :: 0 <= i < |sccs| && |sccs[i]| >= 2
  {
    var fs := WithoutSelfEdges(es);
    if v :| OnCycle(es, v) {
      var w :| Edge(v, w) in es && Reach(es, w, v);
      if v != w {
        var n: nat :| Walk(es, w, v, n);
        WalkSkipsSelfEdges(es, w, v, n);
        assert OnCycle(fs, v);
        assert v in Emitted(sccs);
        var c :| c in sccs && v in c;
        SccOnCycle(fs, c, v);
      }
    }
    if v :| Edge(v, v) in es {
      ReachRefl(es, v);
      assert OnCycle(es, v);
    }
    if i :| 0 <= i < |sccs| && |sccs[i]| >= 2 {
      var v := sccs[i][0];
      SccOnCycle(fs, sccs[i], v);
      var w :| Edge(v, w) in fs && Reach(fs, w, v);
      var n: nat :| Walk(fs, w, v, n);
      WalkMonotone(fs, es, w, v, n);
      assert OnCycle(es, v);
    }
  }

  /** A module that imports only itself: the audit reports it, the validator does not. */
  method SelfImportExample<T(==, !new)>(m: T, sorted: seq<T> -> seq<T>)
    returns (vs: seq<Violation<T>>, cycle: Option<seq<T>>)
    requires forall s :: multiset(sorted(s)) == multiset(s)
    ensures vs == [] && cycle.Some?
  {
    hide IsCyclePath, Reach;
    var graph := new DependencyGraph();
    graph.AddNode(m);
    var _ := graph.AddEdge(m, m);
    vs := CheckCycles(graph, sorted);
    assert !HasCycle(graph.edges);
    var imports := map[m := {m}];
    KnownEdge(imports, m, m);
    ReachRefl(KnownEdges(imports), m);
    assert OnCycle(KnownEdges(imports), m);
    cycle := FindCycle(imports);
  }
}
