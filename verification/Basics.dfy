/** Small helpers shared by the models. */
module Basics {
  type Uuid(==, !new)
  type Text(==, !new)
  type Time = int

  datatype Option<+T> = None | Some(value: T)

  datatype Result<+T, +E> = Success(value: T) | Failure(error: E)

  ghost predicate Distinct<T>(s: seq<T>) {
    forall i, j :: 0 <= i < j < |s| ==> s[i] != s[j]
  }

  ghost function Elements<T>(s: seq<T>): set<T> {
    set x | x in s
  }

  /** Where a slice bound of the source language falls in a list of `n` entries. */
  function Bound(i: int, n: nat): (b: nat)
    ensures b <= n
  {
    if i >= n then n else if i >= 0 then i else if n + i >= 0 then n + i else 0
  }

  /** The slice `s[lo:hi]` of the source language, negative bounds included. */
  function Slice<T>(s: seq<T>, lo: int, hi: int): seq<T> {
    var a, b := Bound(lo, |s|), Bound(hi, |s|);
    if a <= b then s[a..b] else []
  }

  /** The list after `remove(x)`: the first occurrence goes, if there is one. */
  function Without<T(==)>(l: seq<T>, x: T): seq<T> {
    if l == [] then []
    else if l[0] == x then l[1..]
    else [l[0]] + Without(l[1..], x)
  }

  lemma {:induction false} WithoutAbsent<T>(l: seq<T>, x: T)
    requires x !in l
    ensures Without(l, x) == l
  {
    if l == [] {
    } else {
      assert l == [l[0]] + l[1..];
      WithoutAbsent(l[1..], x);
    }
  }

  lemma {:induction false} WithoutAt<T>(l: seq<T>, x: T, i: nat)
    requires i < |l| && l[i] == x && x !in l[..i]
    ensures Without(l, x) == l[..i] + l[i + 1..]
  {
    if i > 0 {
      assert l[0] == l[..i][0] && l[1..][..i - 1] == l[..i][1..];
      WithoutAt(l[1..], x, i - 1);
    }
  }
}
