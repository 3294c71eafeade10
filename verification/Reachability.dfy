/** Directed graphs as edge sets, and what it means to walk in them.
    Every graph algorithm of the project is specified against these definitions. */
module Reachability {
  import opened Basics

  datatype Edge<+T> = Edge(source: T, target: T)

  /** A walk of exactly `n` edges leads from `u` to `v`. */
  ghost predicate Walk<T(!new)>(es: set<Edge<T>>, u: T, v: T, n: nat) {
    if n == 0 then u == v
    else exists m :: Walk(es, u, m, n - 1) && Edge(m, v) in es
  }

  ghost predicate Reach<T(!new)>(es: set<Edge<T>>, u: T, v: T) {
    exists n: nat :: Walk(es, u, v, n)
  }

  /** `v` is at distance at most `d` from `u`; nothing is when `d` is negative. */
  ghost predicate Within<T(!new)>(es: set<Edge<T>>, u: T, v: T, d: int) {
    exists n: nat :: n <= d && Walk(es, u, v, n)
  }

  ghost predicate Mutual<T(!new)>(es: set<Edge<T>>, u: T, v: T) {
    Reach(es, u, v) && Reach(es, v, u)
  }

  /** `v` lies on a directed cycle, a self-loop included. */
  ghost predicate OnCycle<T(!new)>(es: set<Edge<T>>, v: T) {
    exists w :: Edge(v, w) in es && Reach(es, w, v)
  }

  ghost predicate HasCycle<T(!new)>(es: set<Edge<T>>) {
    exists v :: OnCycle(es, v)
  }

  /** No edge of `es` leaves `s`. */
  ghost predicate Closed<T(!new)>(es: set<Edge<T>>, s: set<T>) {
    forall e <- es :: e.source in s ==> e.target in s
  }

  lemma ReachRefl<T(!new)>(es: set<Edge<T>>, u: T)
    ensures Reach(es, u, u)
  {
    assert Walk(es, u, u, 0);
  }

  lemma ReachStep<T(!new)>(es: set<Edge<T>>, u: T, v: T, w: T)
    requires Reach(es, u, v) && Edge(v, w) in es
    ensures Reach(es, u, w)
  {
    var n: nat :| Walk(es, u, v, n);
    assert Walk(es, u, w, n + 1);
  }

  lemma WalkStep<T(!new)>(es: set<Edge<T>>, u: T, v: T, w: T, n: nat)
    requires Walk(es, u, v, n) && Edge(v, w) in es
    ensures Walk(es, u, w, n + 1)
  {
  }

  lemma ReachEdge<T(!new)>(es: set<Edge<T>>, u: T, v: T)
    requires Edge(u, v) in es
    ensures Reach(es, u, v)
  {
    ReachRefl(es, u);
    ReachStep(es, u, u, v);
  }

  lemma {:induction false} WalkConcat<T(!new)>(es: set<Edge<T>>, u: T, v: T, w: T, m: nat, n: nat)
    requires Walk(es, u, v, m) && Walk(es, v, w, n)
    ensures Walk(es, u, w, m + n)
    decreases n
  {
    if n == 0 {
    } else {
      var x :| Walk(es, v, x, n - 1) && Edge(x, w) in es;
      WalkConcat(es, u, v, x, m, n - 1);
      assert Walk(es, u, x, m + n - 1);
    }
  }

  lemma ReachTrans<T(!new)>(es: set<Edge<T>>, u: T, v: T, w: T)
    requires Reach(es, u, v) && Reach(es, v, w)
    ensures Reach(es, u, w)
  {
    var m: nat :| Walk(es, u, v, m);
    var n: nat :| Walk(es, v, w, n);
    WalkConcat(es, u, v, w, m, n);
  }

  lemma {:induction false} WalkStaysIn<T(!new)>(es: set<Edge<T>>, s: set<T>, u: T, v: T, n: nat)
    requires Closed(es, s) && u in s && Walk(es, u, v, n)
    ensures v in s
    decreases n
  {
    if n == 0 {
    } else {
      var m :| Walk(es, u, m, n - 1) && Edge(m, v) in es;
      WalkStaysIn(es, s, u, m, n - 1);
    }
  }

  lemma {:induction false} WalkMonotone<T(!new)>(es: set<Edge<T>>, fs: set<Edge<T>>, u: T, v: T, n: nat)
    requires es <= fs && Walk(es, u, v, n)
    ensures Walk(fs, u, v, n)
    decreases n
  {
    if n == 0 {
    } else {
      var m :| Walk(es, u, m, n - 1) && Edge(m, v) in es;
      WalkMonotone(es, fs, u, m, n - 1);
    }
  }

  /** What is reachable from a closed set lies inside it. */
  lemma ReachStaysIn<T(!new)>(es: set<Edge<T>>, s: set<T>, u: T, v: T)
    requires Closed(es, s) && u in s && Reach(es, u, v)
    ensures v in s
  {
    var n: nat :| Walk(es, u, v, n);
    WalkStaysIn(es, s, u, v, n);
  }

  /** A walk of more than one vertex leaves its source by some edge. */
  lemma {:induction false} FirstEdge<T(!new)>(es: set<Edge<T>>, u: T, v: T, n: nat) returns (w: T)
    requires n > 0 && Walk(es, u, v, n)
    ensures Edge(u, w) in es && Walk(es, w, v, n - 1)
    decreases n
  {
    var m :| Walk(es, u, m, n - 1) && Edge(m, v) in es;
    if n == 1 {
      w := v;
    } else {
      w := FirstEdge(es, u, m, n - 1);
    }
  }

  /** Two different mutually reachable nodes both lie on a cycle. */
  lemma MutualOnCycle<T(!new)>(es: set<Edge<T>>, u: T, v: T)
    requires u != v && Mutual(es, u, v)
    ensures OnCycle(es, u)
  {
    var n: nat :| Walk(es, u, v, n);
    var w := FirstEdge(es, u, v, n);
    ReachTrans(es, w, v, u);
  }

  /** `order` lists every source of an edge, and each edge points to an earlier entry. */
  ghost predicate TopologicalOrder<T(!new)>(es: set<Edge<T>>, order: seq<T>) {
    && Distinct(order)
    && (forall e <- es :: e.source in order)
    && (forall i, v :: 0 <= i < |order| && Edge(order[i], v) in es ==> v in order[..i])
  }

  lemma {:induction false} WalkDescends<T(!new)>(es: set<Edge<T>>, order: seq<T>, i: nat, v: T, n: nat)
    requires TopologicalOrder(es, order) && i < |order| && Walk(es, order[i], v, n)
    ensures v in order[..i + 1] && (n > 0 ==> v in order[..i])
    decreases n
  {
    if n == 0 {
      assert order[..i + 1][i] == v;
    } else {
      var m :| Walk(es, order[i], m, n - 1) && Edge(m, v) in es;
      WalkDescends(es, order, i, m, n - 1);
      var j :| 0 <= j <= i && order[j] == m;
      assert v in order[..j];
      assert order[..j] <= order[..i] <= order[..i + 1];
    }
  }

  /** A graph with a topological order has no cycle. */
  lemma TopologicalOrderAcyclic<T(!new)>(es: set<Edge<T>>, order: seq<T>)
    requires TopologicalOrder(es, order)
    ensures !HasCycle(es)
  {
    forall v | OnCycle(es, v) ensures false {
      var w :| Edge(v, w) in es && Reach(es, w, v);
      var i :| 0 <= i < |order| && order[i] == v;
      var j :| 0 <= j < i && order[j] == w;
      var n: nat :| Walk(es, w, v, n);
      WalkDescends(es, order, j, v, n);
    }
  }

  // ----- distances

  /** The shortest walk from `u` to `v` has `n` edges. */
  ghost predicate IsDistance<T(!new)>(es: set<Edge<T>>, u: T, v: T, n: nat) {
    Walk(es, u, v, n) && forall m: nat :: Walk(es, u, v, m) ==> n <= m
  }

  /** The ball of radius `k + 1` is the ball of radius `k` and what one more edge reaches. */
  lemma WithinStep<T(!new)>(es: set<Edge<T>>, u: T, v: T, k: nat)
    ensures Within(es, u, v, k + 1) <==>
              Within(es, u, v, k) || exists m :: Within(es, u, m, k) && Edge(m, v) in es
  {
    if Within(es, u, v, k + 1) {
      var n: nat :| n <= k + 1 && Walk(es, u, v, n);
      if n == k + 1 {
        var m :| Walk(es, u, m, k) && Edge(m, v) in es;
        assert Within(es, u, m, k);
      }
    }
    if m :| Within(es, u, m, k) && Edge(m, v) in es {
      var n: nat :| n <= k && Walk(es, u, m, n);
      assert Walk(es, u, v, n + 1);
    }
  }
}
