/** The concrete state of `_tarjan_scc`: node stack, work stack of suspended iterators, number
    and lowlink dictionaries and emitted components, tied to the view of `TarjanView`. */
module TarjanSearch {
  import opened Basics
  import opened Reachability
  import opened TarjanView

  /** A suspended visit: the node, and the successors its iterator has not produced yet. */
  datatype Frame<T> = Frame(node: T, pending: set<T>)

  datatype Search<T> = Search(
    counter: nat,
    stack: seq<T>,
    index: map<T, nat>,
    lowlink: map<T, nat>,
    onStack: map<T, bool>,
    sccs: seq<seq<T>>,
    owner: map<T, T>,      // proof only
    visits: seq<T>,        // proof only: the nodes in the order they were numbered
    scans: seq<Edge<T>>)   // proof only: the edges in the order the iterators produced them

  ghost function Nodes<T>(work: seq<Frame<T>>): set<T> {
    set f | f in work :: f.node
  }

  ghost function ViewOf<T>(s: Search<T>, work: seq<Frame<T>>): View<T> {
    View(s.index, s.lowlink, Elements(s.stack), Nodes(work), s.owner, Elements(s.scans))
  }

  ghost predicate SortedBy<T(!new)>(index: map<T, nat>, xs: seq<T>) {
    && (forall x :: x in xs ==> x in index)
    && (forall i, j :: 0 <= i < j < |xs| ==> xs[i] in index && xs[j] in index && index[xs[i]] < index[xs[j]])
  }

  ghost predicate Bookkeeping<T(!new)>(s: Search<T>) {
    && s.onStack.Keys == s.index.Keys
    && (forall x :: x in s.index ==> s.index[x] < s.counter && (s.onStack[x] <==> x in s.stack))
    && SortedBy(s.index, s.stack)
    && Distinct(s.visits) && Elements(s.visits) == s.index.Keys
    && Distinct(s.scans)
  }

  /** The open visits are sorted, and their iterators hold exactly the unscanned edges. */
  ghost predicate WorkOk<T(!new)>(es: set<Edge<T>>, s: Search<T>, work: seq<Frame<T>>) {
    && (forall i :: 0 <= i < |work| ==> work[i].node in s.index)
    && (forall i, j :: 0 <= i < j < |work| ==>
          work[i].node in s.index && work[j].node in s.index && s.index[work[i].node] < s.index[work[j].node])
    && (forall i, y :: 0 <= i < |work| ==>
          (y in work[i].pending <==> Edge(work[i].node, y) in es && Edge(work[i].node, y) !in s.scans))
  }

  /** A whole strongly connected component, each node listed once. */
  ghost predicate IsScc<T(!new)>(es: set<Edge<T>>, c: seq<T>) {
    && c != []
    && Distinct(c)
    && forall x, y :: x in c ==> (y in c <==> Mutual(es, x, y))
  }

  ghost function Emitted<T>(sccs: seq<seq<T>>): set<T> {
    set c, x | c in sccs && x in c :: x
  }

  ghost predicate PairwiseDisjoint<T(!new)>(sccs: seq<seq<T>>) {
    forall i, j, x :: 0 <= i < j < |sccs| && x in sccs[i] ==> x !in sccs[j]
  }

  /** Edges leaving the `i`-th component end in it or in an earlier one. */
  ghost predicate ReverseTopological<T(!new)>(es: set<Edge<T>>, sccs: seq<seq<T>>) {
    forall i, e :: 0 <= i < |sccs| && e in es && e.source in sccs[i] ==> e.target in Emitted(sccs[..i + 1])
  }

  ghost predicate ComponentsOk<T(!new)>(es: set<Edge<T>>, sccs: seq<seq<T>>) {
    && (forall i :: 0 <= i < |sccs| ==> IsScc(es, sccs[i]))
    && PairwiseDisjoint(sccs)
    && ReverseTopological(es, sccs)
  }

  ghost predicate Consistent<T(!new)>(ns: set<T>, es: set<Edge<T>>, s: Search<T>, work: seq<Frame<T>>) {
    && Inv(ns, es, ViewOf(s, work))
    && Bookkeeping(s)
    && WorkOk(es, s, work)
    && Emitted(s.sccs) == ViewOf(s, work).Done()
    && ComponentsOk(es, s.sccs)
  }

  lemma InitConsistent<T(!new)>(ns: set<T>, es: set<Edge<T>>)
    requires forall e <- es :: e.source in ns && e.target in ns
    ensures Consistent(ns, es, Search(0, [], map[], map[], map[], [], map[], [], []), [])
  {
  }

  // ----- numbering a node

  ghost function Number<T>(s: Search<T>, x: T): Search<T> {
    s.(counter := s.counter + 1, stack := s.stack + [x], index := s.index[x := s.counter],
       lowlink := s.lowlink[x := s.counter], onStack := s.onStack[x := true],
       owner := s.owner[x := x], visits := s.visits + [x])
  }

  lemma NumberBookkeeping<T(!new)>(s: Search<T>, x: T)
    requires Bookkeeping(s) && x !in s.index
    ensures Bookkeeping(Number(s, x))
  {
    var s' := Number(s, x);
    assert forall y :: y in s'.stack <==> y in s.stack || y == x;
    assert Elements(s'.visits) == Elements(s.visits) + {x};
  }

  lemma NumberWork<T(!new)>(es: set<Edge<T>>, s: Search<T>, work: seq<Frame<T>>, x: T, pending: set<T>)
    requires Bookkeeping(s) && WorkOk(es, s, work) && x !in s.index
    requires forall y :: y in pending <==> Edge(x, y) in es
    requires forall e :: e in s.scans ==> e.source in s.index
    ensures WorkOk(es, Number(s, x), work + [Frame(x, pending)])
  {
  }

  lemma NumberView<T(!new)>(s: Search<T>, work: seq<Frame<T>>, x: T, pending: set<T>)
    ensures ViewOf(Number(s, x), work + [Frame(x, pending)]) == Discover(ViewOf(s, work), x, s.counter)
  {
    var s', work' := Number(s, x), work + [Frame(x, pending)];
    assert forall y :: y in s'.stack <==> y in s.stack || y == x;
    assert Elements(s'.stack) == Elements(s.stack) + {x};
    assert forall f :: f in work' <==> f in work || f == Frame(x, pending);
    assert Nodes(work') == Nodes(work) + {x};
  }

  /** `p` is the node of the top frame. */
  ghost predicate IsTop<T>(work: seq<Frame<T>>, p: T) {
    work != [] && work[|work| - 1].node == p
  }

  lemma TopIsLast<T(!new)>(ns: set<T>, es: set<Edge<T>>, s: Search<T>, work: seq<Frame<T>>, p: T)
    requires Shape(ns, ViewOf(s, work)) && WorkOk(es, s, work) && IsTop(work, p)
    ensures IsLast(ns, ViewOf(s, work), p)
  {
    assert work[|work| - 1] in work;
    forall g | g in Nodes(work) ensures s.index[g] <= s.index[p] {
      var f :| f in work && f.node == g;
      var i :| 0 <= i < |work| && work[i] == f;
    }
  }

  lemma DiscoverStep<T(!new)>(ns: set<T>, es: set<Edge<T>>, s: Search<T>, work: seq<Frame<T>>, x: T, pending: set<T>)
    requires Consistent(ns, es, s, work) && x in ns && x !in s.index
    requires forall y :: y in pending <==> Edge(x, y) in es
    requires work != [] ==> Edge(work[|work| - 1].node, x) in es
    ensures Consistent(ns, es, Number(s, x), work + [Frame(x, pending)])
  {
    hide Inv, Bookkeeping, WorkOk, ComponentsOk;
    InvParts(ns, es, ViewOf(s, work));
    NumberBookkeeping(s, x);
    NumberWork(es, s, work, x, pending);
    NumberView(s, work, x, pending);
    FreshNumber(ns, s, work, x);
    var p := if work == [] then x else work[|work| - 1].node;
    if work != [] {
      TopIsLast(ns, es, s, work, p);
    }
    DiscoverInv(ns, es, ViewOf(s, work), x, s.counter, p);
    assert Discover(ViewOf(s, work), x, s.counter).Done() == ViewOf(s, work).Done();
  }

  lemma FreshNumber<T(!new)>(ns: set<T>, s: Search<T>, work: seq<Frame<T>>, x: T)
    requires Bookkeeping(s) && x in ns && x !in s.index
    ensures Fresh(ns, ViewOf(s, work), x, s.counter)
  {
  }

  lemma InvParts<T(!new)>(ns: set<T>, es: set<Edge<T>>, v: View<T>)
    requires Inv(ns, es, v)
    ensures Shape(ns, v)
    ensures forall e :: e in v.scanned ==> e in es && e.source in v.index && e.target in v.index
  {
  }

  // ----- producing a successor

  /** The iterator of frame `k` produces `w`. */
  ghost function Produce<T>(work: seq<Frame<T>>, k: nat, w: T): seq<Frame<T>>
    requires k < |work|
  {
    work[k := Frame(work[k].node, work[k].pending - {w})]
  }

  ghost function LogScan<T>(s: Search<T>, e: Edge<T>): Search<T> {
    s.(scans := s.scans + [e])
  }

  lemma SameNodes<T>(work: seq<Frame<T>>, work': seq<Frame<T>>)
    requires |work| == |work'| && forall i :: 0 <= i < |work| ==> work[i].node == work'[i].node
    ensures Nodes(work) == Nodes(work')
  {
    forall f | f in work ensures f.node in Nodes(work') {
      var i :| 0 <= i < |work| && work[i] == f;
      assert work'[i] in work';
    }
    forall f | f in work' ensures f.node in Nodes(work) {
      var i :| 0 <= i < |work'| && work'[i] == f;
      assert work[i] in work;
    }
  }

  lemma ProduceView<T>(s: Search<T>, work: seq<Frame<T>>, k: nat, w: T)
    requires k < |work|
    ensures ViewOf(LogScan(s, Edge(work[k].node, w)), Produce(work, k, w))
         == Scan(ViewOf(s, work), Edge(work[k].node, w))
  {
    SameNodes(work, Produce(work, k, w));
    var e := Edge(work[k].node, w);
    assert forall f :: f in LogScan(s, e).scans <==> f in s.scans || f == e;
    assert Elements(LogScan(s, e).scans) == Elements(s.scans) + {e};
  }

  lemma ProduceWork<T(!new)>(es: set<Edge<T>>, s: Search<T>, work: seq<Frame<T>>, k: nat, w: T)
    requires k < |work| && w in work[k].pending && WorkOk(es, s, work) && Bookkeeping(s)
    ensures Edge(work[k].node, w) in es && Edge(work[k].node, w) !in s.scans
    ensures WorkOk(es, LogScan(s, Edge(work[k].node, w)), Produce(work, k, w))
    ensures Bookkeeping(LogScan(s, Edge(work[k].node, w)))
  {
    var e := Edge(work[k].node, w);
    var s', work' := LogScan(s, e), Produce(work, k, w);
    assert forall f :: f in s'.scans <==> f in s.scans || f == e;
    forall i, y | 0 <= i < |work'|
      ensures y in work'[i].pending <==> Edge(work'[i].node, y) in es && Edge(work'[i].node, y) !in s'.scans
    {
      assert i != k ==> work[i].node != work[k].node;
    }
  }

  lemma OpenFrame<T>(s: Search<T>, work: seq<Frame<T>>, k: nat)
    requires k < |work|
    ensures work[k].node in ViewOf(s, work).open
  {
    assert work[k] in work;
  }

  /** Following an edge to a node seen for the first time. */
  lemma TreeStep<T(!new)>(ns: set<T>, es: set<Edge<T>>, s: Search<T>, work: seq<Frame<T>>, w: T, pending: set<T>)
    requires Consistent(ns, es, s, work) && work != []
    requires w in work[|work| - 1].pending && w !in s.index
    requires forall y :: y in pending <==> Edge(w, y) in es
    ensures Consistent(ns, es, Number(LogScan(s, Edge(work[|work| - 1].node, w)), w),
                       Produce(work, |work| - 1, w) + [Frame(w, pending)])
  {
    hide Inv, Bookkeeping, ComponentsOk;
    var k, p := |work| - 1, work[|work| - 1].node;
    InvParts(ns, es, ViewOf(s, work));
    EdgeInNodes(ns, es, ViewOf(s, work), Edge(p, w));
    DiscoverStep(ns, es, s, work, w, pending);
    var s1, work1 := Number(s, w), work + [Frame(w, pending)];
    ProduceView(s1, work1, k, w);
    ProduceWork(es, s1, work1, k, w);
    OpenFrame(s1, work1, k);
    CounterIsFresh(s, p);
    ScanTreeEdge(ns, es, ViewOf(s1, work1), p, w);
    assert Produce(work, k, w) + [Frame(w, pending)] == Produce(work1, k, w);
    assert Number(LogScan(s, Edge(p, w)), w) == LogScan(s1, Edge(p, w));
  }

  lemma CounterIsFresh<T(!new)>(s: Search<T>, p: T)
    requires Bookkeeping(s) && p in s.index
    ensures s.index[p] < s.counter
  {
  }

  lemma EdgeInNodes<T(!new)>(ns: set<T>, es: set<Edge<T>>, v: View<T>, e: Edge<T>)
    requires Inv(ns, es, v) && e in es
    ensures e.source in ns && e.target in ns
  {
  }

  ghost function LowerNode<T>(s: Search<T>, p: T, k: nat): Search<T>
    requires p in s.lowlink
  {
    s.(lowlink := s.lowlink[p := Min(s.lowlink[p], k)])
  }

  /** An edge to a node that is still on the stack. */
  lemma BackStep<T(!new)>(ns: set<T>, es: set<Edge<T>>, s: Search<T>, work: seq<Frame<T>>, w: T)
    requires Consistent(ns, es, s, work) && work != []
    requires w in work[|work| - 1].pending && w in s.stack && w in s.index && work[|work| - 1].node in s.lowlink
    ensures Consistent(ns, es,
              LowerNode(LogScan(s, Edge(work[|work| - 1].node, w)), work[|work| - 1].node, s.index[w]),
              Produce(work, |work| - 1, w))
  {
    hide Inv, ComponentsOk;
    var k, p := |work| - 1, work[|work| - 1].node;
    ProduceView(s, work, k, w);
    ProduceWork(es, s, work, k, w);
    OpenFrame(s, work, k);
    ScanBackEdge(ns, es, ViewOf(s, work), p, w);
  }

  /** An edge to a node of a finished component. */
  lemma SkipStep<T(!new)>(ns: set<T>, es: set<Edge<T>>, s: Search<T>, work: seq<Frame<T>>, w: T)
    requires Consistent(ns, es, s, work) && work != []
    requires w in work[|work| - 1].pending && w in s.index && w !in s.stack
    ensures Consistent(ns, es, LogScan(s, Edge(work[|work| - 1].node, w)), Produce(work, |work| - 1, w))
  {
    hide Inv, ComponentsOk;
    var k, p := |work| - 1, work[|work| - 1].node;
    ProduceView(s, work, k, w);
    ProduceWork(es, s, work, k, w);
    OpenFrame(s, work, k);
    ScanTreeEdge(ns, es, ViewOf(s, work), p, w);
  }

  // ----- an exhausted iterator

  lemma ExhaustedMeansScanned<T(!new)>(es: set<Edge<T>>, s: Search<T>, work: seq<Frame<T>>)
    requires WorkOk(es, s, work) && work != [] && work[|work| - 1].pending == {}
    ensures NothingLeft(es, ViewOf(s, work), work[|work| - 1].node)
  {
    forall e | e in es && e.source == work[|work| - 1].node ensures e in s.scans {
      assert e == Edge(work[|work| - 1].node, e.target);
      assert e.target !in work[|work| - 1].pending;
    }
  }

  lemma DropTop<T(!new)>(es: set<Edge<T>>, s: Search<T>, work: seq<Frame<T>>)
    requires WorkOk(es, s, work) && work != []
    ensures WorkOk(es, s, work[..|work| - 1])
    ensures Nodes(work[..|work| - 1]) == Nodes(work) - {work[|work| - 1].node}
  {
    assert forall i :: 0 <= i < |work| - 1 ==> work[i].node != work[|work| - 1].node;
    NodesButLast(work);
  }

  lemma NodesButLast<T>(work: seq<Frame<T>>)
    requires work != [] && forall i :: 0 <= i < |work| - 1 ==> work[i].node != work[|work| - 1].node
    ensures Nodes(work[..|work| - 1]) == Nodes(work) - {work[|work| - 1].node}
  {
    var x, rest := work[|work| - 1].node, work[..|work| - 1];
    forall f | f in work && f.node != x ensures f.node in Nodes(rest) {
      var i :| 0 <= i < |work| && work[i] == f;
      assert rest[i] in rest;
    }
    forall f | f in rest ensures f.node in Nodes(work) && f.node != x {
      var i :| 0 <= i < |rest| && rest[i] == f;
      assert work[i] in work;
    }
  }

  /** The owners that `x` leaves to its parent `p`. */
  ghost function HandOver<T>(s: Search<T>, x: T, p: T): Search<T>
    requires s.owner.Keys == Elements(s.stack) && x in s.lowlink && p in s.lowlink
  {
    LowerNode(s.(owner := map y | y in Elements(s.stack) :: if s.owner[y] == x then p else s.owner[y]),
              p, s.lowlink[x])
  }

  /** The frame under the top one belongs to the second-last open node. */
  lemma ParentIsSecondLast<T(!new)>(ns: set<T>, es: set<Edge<T>>, s: Search<T>, work: seq<Frame<T>>)
    requires Shape(ns, ViewOf(s, work)) && WorkOk(es, s, work) && |work| >= 2
    ensures SecondLast(ns, ViewOf(s, work), work[|work| - 1].node, work[|work| - 2].node)
  {
    var x, p := work[|work| - 1].node, work[|work| - 2].node;
    TopIsLast(ns, es, s, work, x);
    OpenFrame(s, work, |work| - 2);
    forall g | g in Nodes(work) && g != x ensures s.index[g] <= s.index[p] {
      var f :| f in work && f.node == g;
      var i :| 0 <= i < |work| && work[i] == f;
    }
  }

  lemma HasParent<T(!new)>(ns: set<T>, es: set<Edge<T>>, s: Search<T>, work: seq<Frame<T>>)
    requires Consistent(ns, es, s, work) && work != []
    requires work[|work| - 1].node in s.lowlink && work[|work| - 1].node in s.index
    requires s.lowlink[work[|work| - 1].node] < s.index[work[|work| - 1].node]
    ensures |work| >= 2
  {
    hide Inv, Bookkeeping, ComponentsOk, LowWitness;
    var x, v := work[|work| - 1].node, ViewOf(s, work);
    InvParts(ns, es, v);
    TopIsLast(ns, es, s, work, x);
    var g := ReachesOlder(ns, es, v, x);
    var f :| f in work && f.node == g;
    var i :| 0 <= i < |work| && work[i] == f;
  }

  lemma HandOverView<T(!new)>(s: Search<T>, work: seq<Frame<T>>, x: T, p: T)
    requires s.owner.Keys == Elements(s.stack) && x in s.lowlink && p in s.lowlink
    requires IsTop(work, x) && Nodes(work[..|work| - 1]) == Nodes(work) - {x}
    ensures ViewOf(HandOver(s, x, p), work[..|work| - 1]) == Retreat(ViewOf(s, work), x, p)
  {
    hide Elements;
  }

  /** A visit that ends below its own number has a parent frame, to which its nodes pass. */
  lemma RetreatStep<T(!new)>(ns: set<T>, es: set<Edge<T>>, s: Search<T>, work: seq<Frame<T>>)
    requires Consistent(ns, es, s, work) && work != [] && work[|work| - 1].pending == {}
    requires work[|work| - 1].node in s.lowlink && work[|work| - 1].node in s.index
    requires s.lowlink[work[|work| - 1].node] < s.index[work[|work| - 1].node]
    ensures |work| >= 2 && work[|work| - 2].node in s.lowlink && s.owner.Keys == Elements(s.stack)
    ensures Consistent(ns, es, HandOver(s, work[|work| - 1].node, work[|work| - 2].node), work[..|work| - 1])
  {
    hide Inv, WorkOk, ComponentsOk, Elements, Emitted, Nodes;
    var x, v := work[|work| - 1].node, ViewOf(s, work);
    HasParent(ns, es, s, work);
    InvParts(ns, es, v);
    ParentIsSecondLast(ns, es, s, work);
    var p := work[|work| - 2].node;
    ExhaustedMeansScanned(es, s, work);
    RetreatInv(ns, es, v, x, p);
    DropTop(es, s, work);
    HandOverView(s, work, x, p);
    HandOverWork(es, s, work[..|work| - 1], x, p);
    RetreatShape(ns, v, x, p);
  }

  lemma HandOverWork<T(!new)>(es: set<Edge<T>>, s: Search<T>, work: seq<Frame<T>>, x: T, p: T)
    requires WorkOk(es, s, work) && s.owner.Keys == Elements(s.stack) && x in s.lowlink && p in s.lowlink
    ensures WorkOk(es, HandOver(s, x, p), work)
  {
  }

  // ----- emitting a component

  /** Pop the stack down to position `k` into the component `c`. */
  ghost function PopTo<T>(s: Search<T>, k: nat, onStack: map<T, bool>, c: seq<T>): Search<T>
    requires k <= |s.stack|
  {
    s.(stack := s.stack[..k], onStack := onStack, sccs := s.sccs + [c], owner := s.owner - Elements(s.stack[k..]))
  }

  /** `c` lists what is popped, and the flags of exactly those nodes are cleared. */
  ghost predicate Popped<T(!new)>(s: Search<T>, k: nat, onStack: map<T, bool>, c: seq<T>) {
    && k < |s.stack|
    && c != [] && Distinct(c)
    && (forall y :: y in c <==> y in s.stack[k..])
    && onStack.Keys == s.onStack.Keys
    && (forall y :: y in s.onStack ==> (onStack[y] <==> s.onStack[y] && y !in s.stack[k..]))
  }

  lemma PoppedBookkeeping<T(!new)>(s: Search<T>, k: nat, onStack: map<T, bool>, c: seq<T>)
    requires Bookkeeping(s) && Popped(s, k, onStack, c)
    ensures Bookkeeping(PopTo(s, k, onStack, c))
    ensures forall y :: y in s.stack ==> (y in s.stack[k..] <==> y !in s.stack[..k])
    ensures forall y :: y in s.stack && y in s.index ==> (y in s.stack[k..] <==> s.index[s.stack[k]] <= s.index[y])
  {
    assert s.stack == s.stack[..k] + s.stack[k..];
    forall y | y in s.stack && y in s.index
      ensures y in s.stack[k..] <==> s.index[s.stack[k]] <= s.index[y]
      ensures y in s.stack[k..] <==> y !in s.stack[..k]
    {
      var i :| 0 <= i < |s.stack| && s.stack[i] == y;
      if k <= i {
        assert s.stack[k..][i - k] == y;
      } else {
        assert s.stack[..k][i] == y;
      }
    }
  }

  lemma EmittedAppend<T(!new)>(sccs: seq<seq<T>>, c: seq<T>)
    ensures Emitted(sccs + [c]) == Emitted(sccs) + Elements(c)
  {
    assert forall d :: d in sccs + [c] <==> d in sccs || d == c;
  }

  /** A component whose edges stay inside it or enter earlier ones extends the list. */
  lemma ComponentsAppend<T(!new)>(es: set<Edge<T>>, sccs: seq<seq<T>>, c: seq<T>)
    requires ComponentsOk(es, sccs) && IsScc(es, c)
    requires forall x :: x in c ==> x !in Emitted(sccs)
    requires forall e :: e in es && e.source in c ==> e.target in c || e.target in Emitted(sccs)
    ensures ComponentsOk(es, sccs + [c])
  {
    hide Mutual;
    var sccs' := sccs + [c];
    EmittedAppend(sccs, c);
    forall i, e | 0 <= i < |sccs'| && e in es && e.source in sccs'[i]
      ensures e.target in Emitted(sccs'[..i + 1])
    {
      if i == |sccs| {
        assert sccs'[..i + 1] == sccs';
      } else {
        assert sccs'[..i + 1] == sccs[..i + 1];
      }
    }
    forall i, j, x | 0 <= i < j < |sccs'| && x in sccs'[i] ensures x !in sccs'[j] {
      if j == |sccs| {
        assert sccs[i] in sccs;
      }
    }
  }

  lemma PoppedIsOwned<T(!new)>(ns: set<T>, es: set<Edge<T>>, s: Search<T>, work: seq<Frame<T>>, k: nat,
                               onStack: map<T, bool>, c: seq<T>)
    requires Consistent(ns, es, s, work) && work != []
    requires Popped(s, k, onStack, c) && s.stack[k] == work[|work| - 1].node
    ensures Shape(ns, ViewOf(s, work)) && Elements(c) == Owned(ViewOf(s, work), work[|work| - 1].node)
    ensures IsLast(ns, ViewOf(s, work), work[|work| - 1].node)
  {
    hide Connected, LowlinksOk, ScanOk, ComponentsOk, OwnersLatest, Injective, Bookkeeping, WorkOk;
    var x, v := work[|work| - 1].node, ViewOf(s, work);
    TopIsLast(ns, es, s, work, x);
    OwnedIsTop(ns, v, x);
    PoppedBookkeeping(s, k, onStack, c);
    assert forall y :: y in s.stack[k..] ==> y in s.stack;
  }

  lemma PopToView<T(!new)>(es: set<Edge<T>>, s: Search<T>, work: seq<Frame<T>>, k: nat,
                           onStack: map<T, bool>, c: seq<T>)
    requires Bookkeeping(s) && Popped(s, k, onStack, c) && s.owner.Keys == Elements(s.stack)
    requires work != [] && Elements(c) == Owned(ViewOf(s, work), work[|work| - 1].node)
    requires Nodes(work[..|work| - 1]) == Nodes(work) - {work[|work| - 1].node}
    ensures ViewOf(PopTo(s, k, onStack, c), work[..|work| - 1]) == Emit(ViewOf(s, work), work[|work| - 1].node)
  {
    hide Bookkeeping, Nodes;
    PoppedBookkeeping(s, k, onStack, c);
    assert forall y :: y in c <==> y in Elements(c);
    assert Elements(s.stack[k..]) == Elements(c);
    assert s.stack == s.stack[..k] + s.stack[k..];
    assert Elements(s.stack[..k]) == Elements(s.stack) - Elements(c);
  }

  /** What is popped is a strongly connected component whose edges stay in it or in earlier ones. */
  lemma PoppedIsScc<T(!new)>(ns: set<T>, es: set<Edge<T>>, s: Search<T>, work: seq<Frame<T>>, k: nat,
                             onStack: map<T, bool>, c: seq<T>)
    requires Consistent(ns, es, s, work) && work != [] && work[|work| - 1].pending == {}
    requires work[|work| - 1].node in s.lowlink && work[|work| - 1].node in s.index
    requires s.lowlink[work[|work| - 1].node] == s.index[work[|work| - 1].node]
    requires Popped(s, k, onStack, c) && s.stack[k] == work[|work| - 1].node
    ensures ComponentsOk(es, s.sccs + [c])
  {
    hide Inv, Bookkeeping, WorkOk, ComponentsOk, Shape, IsLast, NothingLeft, Mutual, Emitted;
    var x, v := work[|work| - 1].node, ViewOf(s, work);
    PoppedIsOwned(ns, es, s, work, k, onStack, c);
    ExhaustedMeansScanned(es, s, work);
    OwnedEdgesStay(ns, es, v, x);
    assert forall y :: y in c <==> y in Elements(c);
    forall a, b | a in c ensures b in c <==> Mutual(es, a, b) {
      OwnedIsComponent(ns, es, v, x, a, b);
    }
    ComponentsAppend(es, s.sccs, c);
  }

  /** A visit that ends at its own number emits one whole component. */
  lemma EmitStep<T(!new)>(ns: set<T>, es: set<Edge<T>>, s: Search<T>, work: seq<Frame<T>>, k: nat,
                          onStack: map<T, bool>, c: seq<T>)
    requires Consistent(ns, es, s, work) && work != [] && work[|work| - 1].pending == {}
    requires work[|work| - 1].node in s.lowlink && work[|work| - 1].node in s.index
    requires s.lowlink[work[|work| - 1].node] == s.index[work[|work| - 1].node]
    requires Popped(s, k, onStack, c) && s.stack[k] == work[|work| - 1].node
    ensures Consistent(ns, es, PopTo(s, k, onStack, c), work[..|work| - 1])
  {
    hide Inv, Bookkeeping, WorkOk, ComponentsOk, Elements, Nodes, Emitted;
    var x, v := work[|work| - 1].node, ViewOf(s, work);
    InvParts(ns, es, v);
    PoppedIsOwned(ns, es, s, work, k, onStack, c);
    PoppedIsScc(ns, es, s, work, k, onStack, c);
    ExhaustedMeansScanned(es, s, work);
    EmitInv(ns, es, v, x);
    EmitDone(ns, es, v, x);
    PoppedBookkeeping(s, k, onStack, c);
    DropTop(es, s, work);
    PopToView(es, s, work, k, onStack, c);
    EmittedAppend(s.sccs, c);
    PopToWork(es, s, work[..|work| - 1], k, onStack, c);
  }

  lemma EmitDone<T(!new)>(ns: set<T>, es: set<Edge<T>>, v: View<T>, x: T)
    requires Inv(ns, es, v) && IsLast(ns, v, x)
    ensures Emit(v, x).Done() == v.Done() + Owned(v, x)
  {
    hide Connected, LowlinksOk, ScanOk, Injective;
    EmitShape(ns, v, x);
  }

  lemma PopToWork<T(!new)>(es: set<Edge<T>>, s: Search<T>, work: seq<Frame<T>>, k: nat,
                           onStack: map<T, bool>, c: seq<T>)
    requires WorkOk(es, s, work) && k <= |s.stack|
    ensures WorkOk(es, PopTo(s, k, onStack, c), work)
  {
  }

  lemma ParentLowlinkKept<T(!new)>(ns: set<T>, es: set<Edge<T>>, s: Search<T>, work: seq<Frame<T>>)
    requires Consistent(ns, es, s, work) && |work| >= 2
    requires work[|work| - 1].node in s.lowlink && work[|work| - 1].node in s.index
    requires s.lowlink[work[|work| - 1].node] == s.index[work[|work| - 1].node]
    ensures work[|work| - 2].node in s.lowlink
    ensures s.lowlink[work[|work| - 2].node] <= s.lowlink[work[|work| - 1].node]
  {
    hide Connected, ScanOk, LowWitness;
    OpenFrame(s, work, |work| - 2);
  }
}
