/** `_tarjan_scc` and `_find_cycles`. */
module Tarjan {
  import opened Basics
  import opened Reachability
  import opened ImportGraph
  import opened TarjanView
  import opened TarjanSearch

  /** The variables shared by the calls of the nested function `strongconnect`. */
  class SccSearch<T(==, !new)> {
    const graph: DependencyGraph<T>
    var counter: nat
    var stack: seq<T>
    var index: map<T, nat>
    var lowlink: map<T, nat>
    var onStack: map<T, bool>
    var sccs: seq<seq<T>>
    ghost var owner: map<T, T>
    ghost var visits: seq<T>
    ghost var scans: seq<Edge<T>>

    ghost function State(): Search<T>
      reads this
    {
      Search(counter, stack, index, lowlink, onStack, sccs, owner, visits, scans)
    }

    ghost predicate Valid(work: seq<Frame<T>>)
      reads this, graph
    {
      graph.Valid() && Consistent(graph.nodes, graph.edges, State(), work)
    }

    constructor (graph: DependencyGraph<T>)
      requires graph.Valid()
      ensures this.graph == graph && Valid([]) && index == map[]
    {
      hide Consistent;
      this.graph := graph;
      counter, stack, index, lowlink, onStack, sccs := 0, [], map[], map[], map[], [];
      owner, visits, scans := map[], [], [];
      new;
      InitConsistent(graph.nodes, graph.edges);
    }

    /** First sight of a node: number it and put it on the stack. */
    method Enter(v: T)
      modifies this
      ensures State() == Number(old(State()), v)
    {
      index := index[v := counter];
      lowlink := lowlink[v := counter];
      counter := counter + 1;
      stack := stack + [v];
      onStack := onStack[v := true];
      owner := owner[v := v];
      visits := visits + [v];
    }

    /** Pop the stack down to and including `node`. */
    method PopComponent(node: T, ghost k: nat) returns (component: seq<T>)
      requires k < |stack| && stack[k] == node && Distinct(stack)
      requires forall x :: x in stack ==> x in onStack
      modifies `stack, `onStack
      ensures stack == old(stack[..k])
      ensures Popped(old(State()), k, onStack, component)
    {
      hide Distinct;
      component := [];
      ghost var s0 := stack;
      StopsAt(s0, k);
      while true
        invariant k < |stack| <= |s0| && stack == s0[..|stack|]
        invariant |component| == |s0| - |stack|
        invariant forall i :: 0 <= i < |component| ==> component[i] == s0[|s0| - 1 - i]
        invariant onStack.Keys == old(onStack.Keys)
        invariant forall y :: y in onStack ==> (onStack[y] <==> old(onStack)[y] && y !in s0[|stack|..])
        decreases |stack|
      {
        var w := stack[|stack| - 1];
        assert s0[|stack| - 1..] == [w] + s0[|stack|..];
        stack := stack[..|stack| - 1];
        onStack := onStack[w := false];
        component := component + [w];
        if w == node {
          break;
        }
      }
      ReversedTop(s0, k, component);
    }

    /** Visit everything reachable from `v` that has no number yet. */
    method StrongConnect(v: T)
      requires Valid([]) && v in graph.nodes && v !in index
      modifies this
      ensures Valid([]) && v in index && old(index.Keys) <= index.Keys
    {
      hide Consistent;
      var pending := graph.Successors(v);
      DiscoverStep(graph.nodes, graph.edges, State(), [], v, pending);
      Enter(v);
      var work := [Frame(v, pending)];
      assert [] + work == work;
      while work != []
        invariant Valid(work) && v in index && old(index.Keys) <= index.Keys
        decreases graph.nodes - index.Keys, graph.edges - Elements(scans), |work|
      {
        var top := work[|work| - 1];
        TopFrameFacts(graph.nodes, graph.edges, State(), work);
        if top.pending == {} {
          work := Close(work);
        } else {
          var w :| w in top.pending;
          work := Follow(work, w);
        }
      }
    }

    /** The iterator of the top frame is exhausted. */
    method Close(work: seq<Frame<T>>) returns (rest: seq<Frame<T>>)
      requires Valid(work) && work != [] && work[|work| - 1].pending == {}
      modifies `stack, `onStack, `sccs, `lowlink, `owner
      ensures Valid(rest) && |rest| < |work|
    {
      hide Consistent;
      TopFrameFacts(graph.nodes, graph.edges, State(), work);
      var node := work[|work| - 1].node;
      if lowlink[node] == index[node] {
        EmitComponent(work);
      } else {
        Retreat(work);
      }
      rest := work[..|work| - 1];
    }

    /** The top frame roots a component: pop it, which leaves the parent's lowlink as it was. */
    method EmitComponent(work: seq<Frame<T>>)
      requires Valid(work) && work != [] && work[|work| - 1].pending == {}
      requires work[|work| - 1].node in lowlink && work[|work| - 1].node in index
      requires lowlink[work[|work| - 1].node] == index[work[|work| - 1].node]
      modifies `stack, `onStack, `sccs, `lowlink, `owner
      ensures Valid(work[..|work| - 1]) && lowlink == old(lowlink)
    {
      hide Consistent, Popped, Distinct;
      var node := work[|work| - 1].node;
      ghost var s := State();
      TopFrameFacts(graph.nodes, graph.edges, s, work);
      ghost var k := TopOnStack(graph.nodes, graph.edges, s, work);
      var component := PopComponent(node, k);
      sccs := sccs + [component];
      owner := owner - Elements(s.stack[k..]);
      EmitStep(graph.nodes, graph.edges, s, work, k, onStack, component);
      assert State() == PopTo(s, k, onStack, component);
      if |work| >= 2 {
        ParentLowlinkKept(graph.nodes, graph.edges, s, work);
        LowerToParent(work[|work| - 2].node, node);
      }
    }

    /** The top frame belongs to an open component: hand its lowlink to the parent, which must exist. */
    method Retreat(work: seq<Frame<T>>)
      requires Valid(work) && work != [] && work[|work| - 1].pending == {}
      requires work[|work| - 1].node in lowlink && work[|work| - 1].node in index
      requires lowlink[work[|work| - 1].node] < index[work[|work| - 1].node]
      modifies `lowlink, `owner
      ensures |work| >= 2 && Valid(work[..|work| - 1])
    {
      hide Consistent;
      var node := work[|work| - 1].node;
      ghost var s := State();
      RetreatStep(graph.nodes, graph.edges, s, work);
      var parent := work[|work| - 2].node;
      owner := map y | y in Elements(stack) :: if owner[y] == node then parent else owner[y];
      LowerToParent(parent, node);
      assert State() == HandOver(s, node, parent);
    }

    method LowerToParent(parent: T, node: T)
      requires parent in lowlink && node in lowlink
      modifies `lowlink
      ensures lowlink == old(lowlink)[parent := Min(old(lowlink)[parent], old(lowlink)[node])]
      ensures old(lowlink)[parent] <= old(lowlink)[node] ==> lowlink == old(lowlink)
    {
      lowlink := lowlink[parent := Min(lowlink[parent], lowlink[node])];
    }

    /** The iterator of the top frame produces `w`. */
    method Follow(work: seq<Frame<T>>, w: T) returns (work': seq<Frame<T>>)
      requires Valid(work) && work != [] && w in work[|work| - 1].pending
      modifies this
      ensures Valid(work') && old(index.Keys) <= index.Keys
      ensures (w in graph.nodes - old(index.Keys) && w in index)
           || (index == old(index) && graph.edges - Elements(scans) < graph.edges - old(Elements(scans)))
    {
      hide Consistent;
      TopFrameFacts(graph.nodes, graph.edges, State(), work);
      var top := work[|work| - 1];
      ghost var edge := Edge(top.node, w);
      assert edge in graph.edges && edge !in scans;
      work' := work[|work| - 1 := Frame(top.node, top.pending - {w})];
      if w !in index {
        var pending := graph.Successors(w);
        TreeStep(graph.nodes, graph.edges, State(), work, w, pending);
        scans := scans + [Edge(top.node, w)];
        Enter(w);
        work' := work' + [Frame(w, pending)];
      } else if onStack[w] {
        BackStep(graph.nodes, graph.edges, State(), work, w);
        scans := scans + [Edge(top.node, w)];
        lowlink := lowlink[top.node := Min(lowlink[top.node], index[w])];
      } else {
        SkipStep(graph.nodes, graph.edges, State(), work, w);
        scans := scans + [Edge(top.node, w)];
      }
      assert scans == old(scans) + [edge];
      ElementsAppend(old(scans), edge);
      assert edge in graph.edges - old(Elements(scans)) && edge !in graph.edges - Elements(scans);
    }
  }

  lemma StopsAt<T(!new)>(stack: seq<T>, k: nat)
    requires k < |stack| && Distinct(stack)
    ensures forall i :: 0 <= i < |stack| && stack[i] == stack[k] ==> i == k
  {
  }

  /** The popped nodes in pop order are exactly the top of the stack. */
  lemma ReversedTop<T(!new)>(stack: seq<T>, k: nat, component: seq<T>)
    requires k < |stack| && Distinct(stack) && |component| == |stack| - k
    requires forall i :: 0 <= i < |component| ==> component[i] == stack[|stack| - 1 - i]
    ensures component != [] && Distinct(component)
    ensures forall y :: y in component <==> y in stack[k..]
  {
    forall y ensures y in component <==> y in stack[k..] {
      if y in component {
        var i :| 0 <= i < |component| && component[i] == y;
        assert stack[k..][|stack| - 1 - i - k] == y;
      }
      if y in stack[k..] {
        var i :| 0 <= i < |stack| - k && stack[k..][i] == y;
        assert component[|stack| - 1 - k - i] == y;
      }
    }
  }

  lemma ElementsAppend<T>(s: seq<T>, x: T)
    ensures Elements(s + [x]) == Elements(s) + {x}
  {
  }

  /** What the loop body reads of its top frame. */
  lemma TopFrameFacts<T(!new)>(ns: set<T>, es: set<Edge<T>>, s: Search<T>, work: seq<Frame<T>>)
    requires Consistent(ns, es, s, work) && work != []
    ensures work[|work| - 1].node in s.index && s.lowlink.Keys == s.index.Keys == s.onStack.Keys
    ensures Distinct(s.stack) && forall x :: x in s.stack ==> x in s.index
    ensures forall x :: x in s.index ==> (s.onStack[x] <==> x in s.stack)
    ensures forall w :: w in work[|work| - 1].pending ==>
              && w in ns && Edge(work[|work| - 1].node, w) in es
              && Edge(work[|work| - 1].node, w) !in s.scans
    ensures |work| > 1 ==> work[|work| - 2].node in s.index
    ensures s.lowlink[work[|work| - 1].node] <= s.index[work[|work| - 1].node]
  {
    hide Connected, LowWitness, LowBounds, OwnersLatest, Injective, ScanOk, ComponentsOk;
    OpenFrame(s, work, |work| - 1);
  }

  lemma TopOnStack<T(!new)>(ns: set<T>, es: set<Edge<T>>, s: Search<T>, work: seq<Frame<T>>) returns (k: nat)
    requires Consistent(ns, es, s, work) && work != []
    ensures k < |s.stack| && s.stack[k] == work[|work| - 1].node
  {
    hide Connected, LowlinksOk, OwnersLatest, Injective, ScanOk, ComponentsOk;
    OpenFrame(s, work, |work| - 1);
    assert work[|work| - 1].node in s.stack;
    k :| 0 <= k < |s.stack| && s.stack[k] == work[|work| - 1].node;
  }

  /** The list is the partition of `ns` into strongly connected components. */
  ghost predicate IsSccPartition<T(!new)>(ns: set<T>, es: set<Edge<T>>, sccs: seq<seq<T>>) {
    && Emitted(sccs) == ns
    && PairwiseDisjoint(sccs)
    && forall i :: 0 <= i < |sccs| ==> IsScc(es, sccs[i])
  }

  lemma SearchResult<T(!new)>(ns: set<T>, es: set<Edge<T>>, s: Search<T>)
    requires Consistent(ns, es, s, []) && s.index.Keys == ns
    ensures IsSccPartition(ns, es, s.sccs) && ReverseTopological(es, s.sccs)
    ensures Distinct(s.visits) && Elements(s.visits) == ns
    ensures Distinct(s.scans) && Elements(s.scans) == es
  {
    hide Connected, LowlinksOk, OwnersLatest, Injective, Mutual;
    var v := ViewOf(s, []);
    assert Nodes<T>([]) == {};
    assert v.onStack == {};
  }

  /** The components in the order they are emitted. The ghost results list the nodes in the order
      they were pushed and the edges in the order they were consumed: each exactly once. */
  method TarjanScc<T(==, !new)>(graph: DependencyGraph<T>)
    returns (sccs: seq<seq<T>>, ghost visits: seq<T>, ghost scans: seq<Edge<T>>)
    requires graph.Valid()
    ensures IsSccPartition(graph.nodes, graph.edges, sccs)
    ensures ReverseTopological(graph.edges, sccs)
    ensures Distinct(visits) && Elements(visits) == graph.nodes
    ensures Distinct(scans) && Elements(scans) == graph.edges
  {
    hide Consistent;
    var search := new SccSearch(graph);
    var todo := graph.nodes;
    while todo != {}
      invariant search.Valid([]) && search.graph == graph && fresh(search)
      invariant todo <= graph.nodes && graph.nodes - todo <= search.index.Keys
      decreases todo
    {
      var node :| node in todo;
      if node !in search.index {
        search.StrongConnect(node);
      }
      todo := todo - {node};
    }
    KeysInNodes(graph.nodes, graph.edges, search.State());
    SearchResult(graph.nodes, graph.edges, search.State());
    sccs, visits, scans := search.sccs, search.visits, search.scans;
  }

  lemma KeysInNodes<T(!new)>(ns: set<T>, es: set<Edge<T>>, s: Search<T>)
    requires Consistent(ns, es, s, [])
    ensures s.index.Keys <= ns
  {
    hide Connected, LowlinksOk, OwnersLatest, Injective, ScanOk, ComponentsOk;
  }

  /** Two partitions of one graph have the same components, whatever order they were found in. */
  lemma PartitionUnique<T(!new)>(ns: set<T>, es: set<Edge<T>>, a: seq<seq<T>>, b: seq<seq<T>>, i: nat) returns (j: nat)
    requires IsSccPartition(ns, es, a) && IsSccPartition(ns, es, b) && i < |a|
    ensures j < |b| && multiset(a[i]) == multiset(b[j])
  {
    hide Mutual;
    var x := a[i][0];
    assert a[i] in a && x in a[i];
    assert x in Emitted(b);
    var c :| c in b && x in c;
    j :| 0 <= j < |b| && b[j] == c;
    assert forall y :: y in a[i] <==> y in b[j];
    DistinctMultiset(a[i]);
    DistinctMultiset(b[j]);
  }

  lemma {:induction false} DistinctMultiset<T>(s: seq<T>)
    requires Distinct(s)
    ensures forall x :: multiset(s)[x] == if x in s then 1 else 0
  {
    if s == [] {
    } else {
      var n := |s| - 1;
      assert s == s[..n] + [s[n]];
      DistinctMultiset(s[..n]);
    }
  }
}
