/** The search state of `_tarjan_scc` seen through sets and maps, its invariant, and what each
    step of the work-stack loop does to it.

    A visited node is *open* while its frame is on the work stack. Each node still on the node
    stack has an *owner*: the last open node numbered no later than it. */
module TarjanView {
  import opened Reachability

  datatype View<T> = View(
    index: map<T, nat>,
    lowlink: map<T, nat>,
    onStack: set<T>,
    open: set<T>,
    owner: map<T, T>,
    scanned: set<Edge<T>>)
  {
    ghost function Done(): set<T> { index.Keys - onStack }
  }

  /** Numbers, stack, open nodes and owners fit together. */
  ghost predicate Shape<T(!new)>(ns: set<T>, v: View<T>) {
    && v.index.Keys <= ns
    && v.lowlink.Keys == v.index.Keys
    && v.onStack <= v.index.Keys
    && v.open <= v.onStack
    && v.owner.Keys == v.onStack
    && (forall x :: x in v.onStack ==> v.owner[x] in v.open && v.index[v.owner[x]] <= v.index[x])
    && (forall g :: g in v.open ==> v.owner[g] == g)
  }

  ghost predicate Injective<T(!new)>(index: map<T, nat>) {
    forall x, y :: x in index && y in index && index[x] == index[y] ==> x == y
  }

  /** An owner is the last open node numbered no later than the node. */
  ghost predicate OwnersLatest<T(!new)>(ns: set<T>, v: View<T>)
    requires Shape(ns, v)
  {
    forall g, x :: g in v.open && x in v.onStack && v.index[g] <= v.index[x]
      ==> v.index[g] <= v.index[v.owner[x]]
  }

  /** Stack nodes and their owners reach each other; an open node reaches those opened after it. */
  ghost predicate Connected<T(!new)>(ns: set<T>, es: set<Edge<T>>, v: View<T>)
    requires Shape(ns, v)
  {
    && (forall x :: x in v.onStack ==> Mutual(es, x, v.owner[x]))
    && (forall g, h :: g in v.open && h in v.open && v.index[g] <= v.index[h] ==> Reach(es, g, h))
  }

  ghost predicate LowWitness<T(!new)>(ns: set<T>, es: set<Edge<T>>, v: View<T>, g: T)
    requires Shape(ns, v) && g in v.open
  {
    exists y :: y in v.onStack && v.index[y] == v.lowlink[g] && Reach(es, g, y)
  }

  /** A lowlink is the number of a reachable stack node, and a lower bound for the scanned edges
      out of the nodes owned. */
  ghost predicate LowlinksOk<T(!new)>(ns: set<T>, es: set<Edge<T>>, v: View<T>)
    requires Shape(ns, v)
  {
    && (forall g :: g in v.open ==> v.lowlink[g] <= v.index[g])
    && (forall g {:trigger LowWitness(ns, es, v, g)} :: g in v.open ==> LowWitness(ns, es, v, g))
    && LowBounds(ns, v)
  }

  ghost predicate LowBounds<T(!new)>(ns: set<T>, v: View<T>)
    requires Shape(ns, v)
  {
    forall e :: e in v.scanned && e.source in v.onStack && e.target in v.onStack
      ==> v.lowlink[v.owner[e.source]] <= v.index[e.target]
  }

  /** Scanned edges join visited nodes; only open nodes have edges left to scan. */
  ghost predicate ScanOk<T(!new)>(es: set<Edge<T>>, v: View<T>) {
    && v.scanned <= es
    && (forall e :: e in v.scanned ==> e.source in v.index && e.target in v.index)
    && (forall e :: e in es && e.source in v.index && e.source !in v.open ==> e in v.scanned)
  }

  ghost predicate Inv<T(!new)>(ns: set<T>, es: set<Edge<T>>, v: View<T>) {
    && (forall e <- es :: e.source in ns && e.target in ns)
    && Shape(ns, v)
    && Injective(v.index)
    && OwnersLatest(ns, v)
    && Connected(ns, es, v)
    && LowlinksOk(ns, es, v)
    && ScanOk(es, v)
    && Closed(es, v.Done())
  }

  lemma WitnessElim<T(!new)>(ns: set<T>, es: set<Edge<T>>, v: View<T>, g: T) returns (y: T)
    requires Shape(ns, v) && g in v.open && LowWitness(ns, es, v, g)
    ensures y in v.onStack && v.index[y] == v.lowlink[g] && Reach(es, g, y)
  {
    y :| y in v.onStack && v.index[y] == v.lowlink[g] && Reach(es, g, y);
  }

  lemma WitnessIntro<T(!new)>(ns: set<T>, es: set<Edge<T>>, v: View<T>, g: T, y: T)
    requires Shape(ns, v) && g in v.open
    requires y in v.onStack && v.index[y] == v.lowlink[g] && Reach(es, g, y)
    ensures LowWitness(ns, es, v, g)
  {
  }

  // ----- discovering a node

  ghost function Discover<T>(v: View<T>, x: T, n: nat): View<T> {
    View(v.index[x := n], v.lowlink[x := n], v.onStack + {x}, v.open + {x}, v.owner[x := x], v.scanned)
  }

  ghost predicate IsLast<T(!new)>(ns: set<T>, v: View<T>, p: T)
    requires Shape(ns, v)
  {
    p in v.open && forall g :: g in v.open ==> v.index[g] <= v.index[p]
  }

  ghost predicate Fresh<T(!new)>(ns: set<T>, v: View<T>, x: T, n: nat) {
    x in ns && x !in v.index && forall y :: y in v.index ==> v.index[y] < n
  }

  lemma DiscoverShape<T(!new)>(ns: set<T>, v: View<T>, x: T, n: nat)
    requires Shape(ns, v) && x in ns && x !in v.index
    ensures Shape(ns, Discover(v, x, n))
    ensures Discover(v, x, n).Done() == v.Done()
  {
    var v' := Discover(v, x, n);
    assert v'.index.Keys == v.index.Keys + {x} == v'.lowlink.Keys;
    assert v'.owner.Keys == v'.onStack;
    assert forall y :: y in v.onStack ==> v'.owner[y] == v.owner[y] && v'.index[y] == v.index[y];
  }

  lemma DiscoverNumbers<T(!new)>(ns: set<T>, v: View<T>, x: T, n: nat)
    requires Shape(ns, v) && Injective(v.index) && OwnersLatest(ns, v) && Fresh(ns, v, x, n)
    ensures Injective(Discover(v, x, n).index)
    ensures Shape(ns, Discover(v, x, n)) && OwnersLatest(ns, Discover(v, x, n))
  {
    DiscoverShape(ns, v, x, n);
  }

  lemma DiscoverConnected<T(!new)>(ns: set<T>, es: set<Edge<T>>, v: View<T>, x: T, n: nat, p: T)
    requires Shape(ns, v) && Connected(ns, es, v) && Fresh(ns, v, x, n)
    requires v.open != {} ==> IsLast(ns, v, p) && Edge(p, x) in es
    ensures Shape(ns, Discover(v, x, n)) && Connected(ns, es, Discover(v, x, n))
  {
    hide Reach, LowWitness;
    DiscoverShape(ns, v, x, n);
    ReachRefl(es, x);
    forall g | g in v.open ensures Reach(es, g, x) {
      ReachStep(es, g, p, x);
    }
  }

  lemma DiscoverLowlinks<T(!new)>(ns: set<T>, es: set<Edge<T>>, v: View<T>, x: T, n: nat)
    requires Shape(ns, v) && LowlinksOk(ns, es, v) && ScanOk(es, v) && Fresh(ns, v, x, n)
    ensures Shape(ns, Discover(v, x, n)) && LowlinksOk(ns, es, Discover(v, x, n))
  {
    hide Reach, LowWitness;
    DiscoverShape(ns, v, x, n);
    ReachRefl(es, x);
    var v' := Discover(v, x, n);
    forall g | g in v'.open ensures LowWitness(ns, es, v', g) {
      var y := x;
      if g != x {
        y := WitnessElim(ns, es, v, g);
      }
      WitnessIntro(ns, es, v', g, y);
    }
  }

  /** Visiting a new node, either as a root or along an edge from the last open node. */
  lemma DiscoverInv<T(!new)>(ns: set<T>, es: set<Edge<T>>, v: View<T>, x: T, n: nat, p: T)
    requires Inv(ns, es, v) && Fresh(ns, v, x, n)
    requires v.open != {} ==> IsLast(ns, v, p) && Edge(p, x) in es
    ensures Inv(ns, es, Discover(v, x, n))
  {
    hide Reach, Shape, Injective, OwnersLatest, Connected, LowlinksOk;
    DiscoverShape(ns, v, x, n);
    DiscoverNumbers(ns, v, x, n);
    DiscoverConnected(ns, es, v, x, n, p);
    DiscoverLowlinks(ns, es, v, x, n);
  }

  // ----- scanning an edge between visited nodes

  ghost function Scan<T>(v: View<T>, e: Edge<T>): View<T> {
    v.(scanned := v.scanned + {e})
  }

  /** Scanning the tree edge just followed. */
  lemma ScanTreeEdge<T(!new)>(ns: set<T>, es: set<Edge<T>>, v: View<T>, p: T, x: T)
    requires Inv(ns, es, v) && Edge(p, x) in es
    requires p in v.open && x in v.index && (x in v.onStack ==> v.index[p] <= v.index[x])
    ensures Inv(ns, es, Scan(v, Edge(p, x)))
  {
    hide Reach, LowWitness, Injective;
    var v' := Scan(v, Edge(p, x));
    assert v'.Done() == v.Done();
    forall g | g in v'.open ensures LowWitness(ns, es, v', g) {
      var y := WitnessElim(ns, es, v, g);
      WitnessIntro(ns, es, v', g, y);
    }
  }

  function Min(a: nat, b: nat): nat { if a <= b then a else b }

  ghost function Lower<T>(v: View<T>, p: T, k: nat): View<T>
    requires p in v.lowlink
  {
    v.(lowlink := v.lowlink[p := Min(v.lowlink[p], k)])
  }

  lemma ScanBackLowlinks<T(!new)>(ns: set<T>, es: set<Edge<T>>, v: View<T>, p: T, w: T)
    requires Shape(ns, v) && LowlinksOk(ns, es, v)
    requires Edge(p, w) in es && p in v.open && w in v.onStack
    ensures Shape(ns, Lower(Scan(v, Edge(p, w)), p, v.index[w]))
    ensures LowlinksOk(ns, es, Lower(Scan(v, Edge(p, w)), p, v.index[w]))
  {
    hide Reach, LowWitness;
    var v' := Lower(Scan(v, Edge(p, w)), p, v.index[w]);
    ReachEdge(es, p, w);
    forall g | g in v'.open ensures LowWitness(ns, es, v', g) {
      var y := w;
      if g != p || v.lowlink[p] <= v.index[w] {
        y := WitnessElim(ns, es, v, g);
      }
      WitnessIntro(ns, es, v', g, y);
    }
  }

  /** Scanning an edge to a node that is still on the stack. */
  lemma ScanBackEdge<T(!new)>(ns: set<T>, es: set<Edge<T>>, v: View<T>, p: T, w: T)
    requires Inv(ns, es, v) && Edge(p, w) in es && p in v.open && w in v.onStack
    ensures Inv(ns, es, Lower(Scan(v, Edge(p, w)), p, v.index[w]))
  {
    hide Reach, LowlinksOk, Injective;
    ScanBackLowlinks(ns, es, v, p, w);
    assert Lower(Scan(v, Edge(p, w)), p, v.index[w]).Done() == v.Done();
  }

  // ----- closing the last open node

  ghost predicate NothingLeft<T(!new)>(es: set<Edge<T>>, v: View<T>, x: T) {
    forall e :: e in es && e.source == x ==> e in v.scanned
  }

  /** The last open node closes below its own number: its nodes pass to the open node before it. */
  ghost function Retreat<T>(v: View<T>, x: T, p: T): View<T>
    requires x in v.lowlink && p in v.lowlink && v.owner.Keys == v.onStack
  {
    View(v.index, v.lowlink[p := Min(v.lowlink[p], v.lowlink[x])], v.onStack, v.open - {x},
         map y | y in v.onStack :: if v.owner[y] == x then p else v.owner[y], v.scanned)
  }

  ghost predicate SecondLast<T(!new)>(ns: set<T>, v: View<T>, x: T, p: T)
    requires Shape(ns, v)
  {
    && IsLast(ns, v, x)
    && p in v.open && p != x
    && forall g :: g in v.open && g != x ==> v.index[g] <= v.index[p]
  }

  /** A node closing below its own number reaches an open node before it. */
  lemma ReachesOlder<T(!new)>(ns: set<T>, es: set<Edge<T>>, v: View<T>, x: T) returns (g: T)
    requires Inv(ns, es, v) && IsLast(ns, v, x) && v.lowlink[x] < v.index[x]
    ensures g in v.open && g != x && Reach(es, x, g)
  {
    hide Reach, LowWitness;
    var y := WitnessElim(ns, es, v, x);
    g := v.owner[y];
    ReachTrans(es, x, y, g);
  }

  lemma RetreatShape<T(!new)>(ns: set<T>, v: View<T>, x: T, p: T)
    requires Shape(ns, v) && SecondLast(ns, v, x, p)
    ensures Shape(ns, Retreat(v, x, p))
    ensures Retreat(v, x, p).Done() == v.Done()
  {
  }

  lemma RetreatNumbers<T(!new)>(ns: set<T>, v: View<T>, x: T, p: T)
    requires Shape(ns, v) && OwnersLatest(ns, v) && SecondLast(ns, v, x, p)
    ensures Shape(ns, Retreat(v, x, p)) && OwnersLatest(ns, Retreat(v, x, p))
  {
    RetreatShape(ns, v, x, p);
  }

  lemma RetreatConnected<T(!new)>(ns: set<T>, es: set<Edge<T>>, v: View<T>, x: T, p: T)
    requires Inv(ns, es, v) && SecondLast(ns, v, x, p) && v.lowlink[x] < v.index[x]
    ensures Shape(ns, Retreat(v, x, p)) && Connected(ns, es, Retreat(v, x, p))
  {
    hide Reach, LowWitness, Injective, OwnersLatest, LowlinksOk, ScanOk;
    RetreatShape(ns, v, x, p);
    var g := ReachesOlder(ns, es, v, x);
    ReachTrans(es, x, g, p);
    forall y | y in v.onStack && v.owner[y] == x ensures Mutual(es, y, p) {
      ReachTrans(es, y, x, p);
      ReachTrans(es, p, x, y);
    }
  }

  lemma RetreatBounds<T(!new)>(ns: set<T>, v: View<T>, x: T, p: T)
    requires Shape(ns, v) && LowBounds(ns, v) && SecondLast(ns, v, x, p)
    ensures Shape(ns, Retreat(v, x, p)) && LowBounds(ns, Retreat(v, x, p))
  {
    RetreatShape(ns, v, x, p);
    var v' := Retreat(v, x, p);
    forall e | e in v'.scanned && e.source in v'.onStack && e.target in v'.onStack
      ensures v'.lowlink[v'.owner[e.source]] <= v'.index[e.target]
    {
      assert v.lowlink[v.owner[e.source]] <= v.index[e.target];
    }
  }

  lemma RetreatLowlinks<T(!new)>(ns: set<T>, es: set<Edge<T>>, v: View<T>, x: T, p: T)
    requires Inv(ns, es, v) && SecondLast(ns, v, x, p)
    ensures Shape(ns, Retreat(v, x, p)) && LowlinksOk(ns, es, Retreat(v, x, p))
  {
    hide Reach, LowWitness, LowBounds, Injective, OwnersLatest;
    RetreatShape(ns, v, x, p);
    RetreatBounds(ns, v, x, p);
    var v' := Retreat(v, x, p);
    var z := WitnessElim(ns, es, v, x);
    ReachTrans(es, p, x, z);
    forall g | g in v'.open ensures LowWitness(ns, es, v', g) {
      var y := z;
      if g != p || v.lowlink[p] <= v.lowlink[x] {
        y := WitnessElim(ns, es, v, g);
      }
      WitnessIntro(ns, es, v', g, y);
    }
  }

  lemma RetreatInv<T(!new)>(ns: set<T>, es: set<Edge<T>>, v: View<T>, x: T, p: T)
    requires Inv(ns, es, v) && SecondLast(ns, v, x, p)
    requires v.lowlink[x] < v.index[x] && NothingLeft(es, v, x)
    ensures Inv(ns, es, Retreat(v, x, p))
  {
    hide Reach, Shape, Injective, OwnersLatest, Connected, LowlinksOk;
    RetreatShape(ns, v, x, p);
    RetreatNumbers(ns, v, x, p);
    RetreatConnected(ns, es, v, x, p);
    RetreatLowlinks(ns, es, v, x, p);
  }

  /** The last open node closes at its own number: its nodes leave the stack. */
  ghost function Owned<T>(v: View<T>, x: T): set<T>
    requires v.owner.Keys == v.onStack
  {
    set y | y in v.onStack && v.owner[y] == x
  }

  ghost function Emit<T>(v: View<T>, x: T): View<T>
    requires v.owner.Keys == v.onStack
  {
    View(v.index, v.lowlink, v.onStack - Owned(v, x), v.open - {x}, v.owner - Owned(v, x), v.scanned)
  }

  /** The nodes owned by the last open node are the top of the stack. */
  lemma OwnedIsTop<T(!new)>(ns: set<T>, v: View<T>, x: T)
    requires Shape(ns, v) && Injective(v.index) && OwnersLatest(ns, v) && IsLast(ns, v, x)
    ensures forall y :: y in v.onStack ==> (y in Owned(v, x) <==> v.index[x] <= v.index[y])
  {
  }

  /** Every edge out of the closing component stays in it or enters a finished one. */
  lemma OwnedEdgesStay<T(!new)>(ns: set<T>, es: set<Edge<T>>, v: View<T>, x: T)
    requires Inv(ns, es, v) && IsLast(ns, v, x) && v.lowlink[x] == v.index[x] && NothingLeft(es, v, x)
    ensures forall e :: e in es && e.source in Owned(v, x) ==> e.target in Owned(v, x) + v.Done()
  {
    hide Reach, LowWitness;
    OwnedIsTop(ns, v, x);
    forall e | e in es && e.source in Owned(v, x) ensures e.target in Owned(v, x) + v.Done() {
      assert e.source == x || e.source !in v.open;
      assert e in v.scanned;
    }
  }

  lemma EmitShape<T(!new)>(ns: set<T>, v: View<T>, x: T)
    requires Shape(ns, v) && OwnersLatest(ns, v) && IsLast(ns, v, x)
    ensures Shape(ns, Emit(v, x)) && Emit(v, x).Done() == v.Done() + Owned(v, x)
    ensures OwnersLatest(ns, Emit(v, x))
  {
  }

  lemma EmitLowlinks<T(!new)>(ns: set<T>, es: set<Edge<T>>, v: View<T>, x: T)
    requires Inv(ns, es, v) && IsLast(ns, v, x)
    ensures Shape(ns, Emit(v, x)) && LowlinksOk(ns, es, Emit(v, x))
  {
    hide Reach, LowWitness, Connected, Injective, OwnersLatest, ScanOk;
    EmitShape(ns, v, x);
    OwnedIsTop(ns, v, x);
    var v' := Emit(v, x);
    forall g | g in v'.open ensures LowWitness(ns, es, v', g) {
      var y := WitnessElim(ns, es, v, g);
      WitnessIntro(ns, es, v', g, y);
    }
  }

  lemma EmitInv<T(!new)>(ns: set<T>, es: set<Edge<T>>, v: View<T>, x: T)
    requires Inv(ns, es, v) && IsLast(ns, v, x)
    requires v.lowlink[x] == v.index[x] && NothingLeft(es, v, x)
    ensures Inv(ns, es, Emit(v, x))
  {
    hide Reach, LowWitness, LowlinksOk, Injective, OwnersLatest;
    EmitShape(ns, v, x);
    EmitLowlinks(ns, es, v, x);
    OwnedEdgesStay(ns, es, v, x);
  }

  /** The nodes leaving the stack are one whole strongly connected component. */
  lemma OwnedIsComponent<T(!new)>(ns: set<T>, es: set<Edge<T>>, v: View<T>, x: T, a: T, b: T)
    requires Inv(ns, es, v) && IsLast(ns, v, x)
    requires v.lowlink[x] == v.index[x] && NothingLeft(es, v, x)
    requires a in Owned(v, x)
    ensures b in Owned(v, x) <==> Mutual(es, a, b)
  {
    hide Reach, LowWitness;
    if b in Owned(v, x) {
      ReachTrans(es, a, x, b);
      ReachTrans(es, b, x, a);
    } else if Mutual(es, a, b) {
      EmitInv(ns, es, v, x);
      EmitShape(ns, v, x);
      ReachStaysIn(es, Emit(v, x).Done(), a, b);
      ReachStaysIn(es, v.Done(), b, a);
      assert false;
    }
  }
}
