/** The LRU list of `MemoryEngine` as a function of its history of touches and deletions. */
module RecencyList {
  import opened Basics

  datatype Op<Id> = Touched(id: Id) | Deleted(id: Id)

  /** The last `n` entries. */
  function Last<Id>(l: seq<Id>, n: nat): seq<Id> {
    if |l| <= n then l else l[|l| - n..]
  }

  function Touch<Id(==)>(l: seq<Id>, x: Id, capacity: nat): seq<Id> {
    Last(Without(l, x) + [x], capacity)
  }

  function Step<Id(==)>(l: seq<Id>, op: Op<Id>, capacity: nat): seq<Id> {
    match op
    case Touched(x) => Touch(l, x, capacity)
    case Deleted(x) => Without(l, x)
  }

  function Run<Id(==)>(ops: seq<Op<Id>>, capacity: nat): seq<Id> {
    if ops == [] then []
    else Step(Run(ops[..|ops| - 1], capacity), ops[|ops| - 1], capacity)
  }

  ghost predicate IsSuffix<Id>(a: seq<Id>, b: seq<Id>) {
    |a| <= |b| && b[|b| - |a|..] == a
  }

  lemma {:induction false} WithoutFacts<Id>(l: seq<Id>, x: Id)
    requires Distinct(l)
    ensures Distinct(Without(l, x))
    ensures forall y :: y in Without(l, x) <==> y in l && y != x
    ensures |Without(l, x)| == |l| - if x in l then 1 else 0
  {
    if l == [] {
    } else {
      var w := Without(l[1..], x);
      assert l == [l[0]] + l[1..];
      WithoutFacts(l[1..], x);
      forall i | 0 <= i < |w| ensures w[i] != l[0] {
        assert w[i] in w;
      }
    }
  }

  lemma {:induction false} WithoutConcat<Id>(front: seq<Id>, a: seq<Id>, x: Id)
    ensures Without(front + a, x) == if x in front then Without(front, x) + a else front + Without(a, x)
  {
    if front == [] {
      assert front + a == a;
    } else {
      assert (front + a)[1..] == front[1..] + a;
      WithoutConcat(front[1..], a, x);
    }
  }

  lemma WithoutSuffix<Id>(a: seq<Id>, b: seq<Id>, x: Id)
    requires IsSuffix(a, b) && Distinct(b)
    ensures IsSuffix(Without(a, x), Without(b, x))
  {
    hide Without;
    var front := b[..|b| - |a|];
    assert b == front + a;
    WithoutConcat(front, a, x);
    if x in front {
      assert forall i :: 0 <= i < |a| ==> a[i] == b[|front| + i];
      WithoutAbsent(a, x);
    }
  }

  /** Two suffixes of one list are nested. */
  lemma SuffixesNest<Id>(a: seq<Id>, b: seq<Id>, c: seq<Id>)
    requires IsSuffix(a, c) && IsSuffix(b, c) && |a| <= |b|
    ensures IsSuffix(a, b)
  {
    assert b[|b| - |a|..] == c[|c| - |b|..][|b| - |a|..] == c[|c| - |a|..];
  }

  lemma {:induction false} RunFacts<Id(!new)>(ops: seq<Op<Id>>, capacity: nat)
    ensures Distinct(Run(ops, capacity)) && |Run(ops, capacity)| <= capacity
  {
    if ops == [] {
    } else {
      RunFacts(ops[..|ops| - 1], capacity);
      StepFacts(Run(ops[..|ops| - 1], capacity), ops[|ops| - 1], capacity);
    }
  }

  lemma StepFacts<Id(!new)>(l: seq<Id>, op: Op<Id>, capacity: nat)
    requires Distinct(l) && |l| <= capacity
    ensures Distinct(Step(l, op, capacity)) && |Step(l, op, capacity)| <= capacity
  {
    hide Without;
    var w := Without(l, op.id);
    WithoutFacts(l, op.id);
    assert forall i :: 0 <= i < |w| ==> w[i] in w;
  }

  lemma SuffixAppend<Id>(a: seq<Id>, b: seq<Id>, x: Id)
    requires IsSuffix(a, b)
    ensures IsSuffix(a + [x], b + [x])
  {
    assert b == b[..|b| - |a|] + a;
    assert (b + [x])[|b| - |a|..] == a + [x];
  }

  lemma LastIsSuffix<Id>(l: seq<Id>, n: nat)
    ensures IsSuffix(Last(l, n), l) && |Last(l, n)| == if |l| <= n then |l| else n
  {
    assert l[0..] == l;
  }

  lemma SuffixTrans<Id>(a: seq<Id>, b: seq<Id>, c: seq<Id>)
    requires IsSuffix(a, b) && IsSuffix(b, c)
    ensures IsSuffix(a, c)
  {
    assert c[|c| - |b|..][|b| - |a|..] == c[|c| - |a|..];
  }

  lemma SuffixLength<Id>(a: seq<Id>, b: seq<Id>)
    requires IsSuffix(a, b)
    ensures |a| <= |b|
  {
  }

  lemma TouchSuffix<Id>(a: seq<Id>, b: seq<Id>, x: Id, small: nat, large: nat)
    requires IsSuffix(a, b) && Distinct(b) && small <= large
    ensures IsSuffix(Touch(a, x, small), Touch(b, x, large))
  {
    hide IsSuffix, Without, Last;
    WithoutSuffix(a, b, x);
    var a', b' := Without(a, x) + [x], Without(b, x) + [x];
    SuffixAppend(Without(a, x), Without(b, x), x);
    SuffixLength(a', b');
    LastIsSuffix(a', small);
    LastIsSuffix(b', large);
    SuffixTrans(Last(a', small), a', b');
    SuffixesNest(Last(a', small), Last(b', large), b');
  }

  /** Inclusion: on any history of touches and deletions, a smaller cache holds the most recent
      part of what a larger one holds. */
  lemma {:induction false} SmallerCacheIsSuffix<Id(!new)>(ops: seq<Op<Id>>, small: nat, large: nat)
    requires small <= large
    ensures IsSuffix(Run(ops, small), Run(ops, large))
  {
    if ops == [] {
    } else {
      var before, op := ops[..|ops| - 1], ops[|ops| - 1];
      SmallerCacheIsSuffix(before, small, large);
      RunFacts(before, large);
      match op
      case Touched(x) => TouchSuffix(Run(before, small), Run(before, large), x, small, large);
      case Deleted(x) => WithoutSuffix(Run(before, small), Run(before, large), x);
    }
  }

  // ----- without deletions: the most recently touched ids

  ghost function LastTouch<Id>(ids: seq<Id>, x: Id): nat
    requires x in ids
  {
    if ids[|ids| - 1] == x then |ids| - 1 else LastTouch(ids[..|ids| - 1], x)
  }

  /** The distinct ids of a history, ordered by their last touch. */
  ghost predicate ByRecency<Id(!new)>(ids: seq<Id>, l: seq<Id>) {
    && Distinct(l)
    && (forall x :: x in l <==> x in ids)
    && RecencySorted(ids, l)
  }

  ghost predicate RecencySorted<Id(!new)>(ids: seq<Id>, l: seq<Id>) {
    && (forall x :: x in l ==> x in ids)
    && (forall i, j :: 0 <= i < j < |l| ==> l[i] in ids && l[j] in ids && LastTouch(ids, l[i]) < LastTouch(ids, l[j]))
  }

  ghost function Touches<Id>(ids: seq<Id>): seq<Op<Id>> {
    seq(|ids|, i requires 0 <= i < |ids| => Touched(ids[i]))
  }

  lemma {:induction false} LastTouchBound<Id>(ids: seq<Id>, x: Id)
    requires x in ids
    ensures LastTouch(ids, x) < |ids|
  {
    if ids[|ids| - 1] != x {
      assert ids == ids[..|ids| - 1] + [ids[|ids| - 1]];
      LastTouchBound(ids[..|ids| - 1], x);
    }
  }

  /** One more touch moves an id to the recent end. */
  lemma ByRecencyTouch<Id(!new)>(ids: seq<Id>, l: seq<Id>, x: Id)
    requires ByRecency(ids, l)
    ensures ByRecency(ids + [x], Without(l, x) + [x])
  {
    hide Without;
    var w := Without(l, x);
    WithoutFacts(l, x);
    WithoutKeepsOrder(ids, l, x);
    assert forall i :: 0 <= i < |w| ==> w[i] in w;
    TouchedLast(ids, w, x);
  }

  lemma TouchedLast<Id(!new)>(ids: seq<Id>, w: seq<Id>, x: Id)
    requires RecencySorted(ids, w) && x !in w
    ensures RecencySorted(ids + [x], w + [x])
  {
    var ids' := ids + [x];
    assert ids'[..|ids|] == ids && x in ids';
    forall y | y in w && y in ids
      ensures y in ids' && LastTouch(ids', y) == LastTouch(ids, y) < LastTouch(ids', x)
    {
      LastTouchBound(ids, y);
    }
    forall i, j | 0 <= i < j < |w| + 1
      ensures (w + [x])[i] in ids' && (w + [x])[j] in ids'
                && LastTouch(ids', (w + [x])[i]) < LastTouch(ids', (w + [x])[j])
    {
      assert w[i] in w && (j < |w| ==> w[j] in w);
    }
  }

  lemma {:induction false} WithoutKeepsOrder<Id(!new)>(ids: seq<Id>, l: seq<Id>, x: Id)
    requires Distinct(l) && RecencySorted(ids, l)
    ensures RecencySorted(ids, Without(l, x))
  {
    if l == [] {
    } else {
      assert l == [l[0]] + l[1..];
      WithoutKeepsOrder(ids, l[1..], x);
      WithoutFacts(l[1..], x);
      var w := Without(l[1..], x);
      forall j | 0 <= j < |w| && l[0] != x
        ensures l[0] in ids && w[j] in ids && LastTouch(ids, l[0]) < LastTouch(ids, w[j])
      {
        assert w[j] in l[1..];
        var k :| 0 <= k < |l[1..]| && l[1..][k] == w[j];
        assert l[k + 1] == w[j];
      }
    }
  }

  /** Without deletions the list holds the last `capacity` ids in order of most recent touch. */
  lemma {:induction false} MostRecentlyTouched<Id(!new)>(ids: seq<Id>, capacity: nat) returns (order: seq<Id>)
    ensures ByRecency(ids, order) && Run(Touches(ids), capacity) == Last(order, capacity)
  {
    if ids == [] {
      order := [];
    } else {
      var before, x := ids[..|ids| - 1], ids[|ids| - 1];
      var order0 := MostRecentlyTouched(before, capacity);
      order := Without(order0, x) + [x];
      assert ids == before + [x];
      ByRecencyTouch(before, order0, x);
      assert Touches(ids)[..|ids| - 1] == Touches(before);
      LastOfTouch(order0, x, capacity);
    }
  }

  lemma LastOfTouch<Id(!new)>(l: seq<Id>, x: Id, n: nat)
    requires Distinct(l)
    ensures Touch(Last(l, n), x, n) == Last(Without(l, x) + [x], n)
  {
    hide Without;
    var a := Last(l, n);
    if |l| > n {
      WithoutSuffix(a, l, x);
      WithoutFacts(a, x);
      var a', l' := Without(a, x) + [x], Without(l, x) + [x];
      assert l'[|l'| - |a'|..] == a';
      assert Last(a', n) == l'[|l'| - |a'|..][|a'| - n..] == l'[|l'| - n..];
    }
  }
}
