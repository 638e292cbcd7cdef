/** A stable sort by time, for the models of code that calls a sort of the standard library. */
module Sorting {
  import opened Prelude

  /** Something that happens at a time. */
  datatype Timed<T> = Timed(at: int, x: T)

  predicate InTime<T>(s: seq<Timed<T>>) { forall i, j :: 0 <= i < j < |s| ==> s[i].at <= s[j].at }

  /** Where something at time `t` goes among the first `n`. */
  function Place<T>(t: int, s: seq<Timed<T>>, n: nat): (k: nat)
    requires n <= |s| && InTime(s)
    ensures k <= n
    ensures forall j :: 0 <= j < k ==> s[j].at <= t
    ensures forall j :: k <= j < n ==> s[j].at > t
  {
    if n == 0 || s[n - 1].at <= t then n else Place(t, s, n - 1)
  }

  lemma InsertPair<T>(x: Timed<T>, s: seq<Timed<T>>, k: nat, i: nat, j: nat)
    requires InTime(s) && k == Place(x.at, s, |s|) && i < j <= |s|
    ensures InsertAt(s, k, x)[i].at <= InsertAt(s, k, x)[j].at
  {
    hide InsertAt, Place;
    var r := InsertAt(s, k, x);
    assert r[i] == if i < k then s[i] else if i == k then x else s[i - 1];
    assert r[j] == if j < k then s[j] else if j == k then x else s[j - 1];
  }

  lemma InsertInTime<T>(x: Timed<T>, s: seq<Timed<T>>)
    requires InTime(s)
    ensures InTime(InsertAt(s, Place(x.at, s, |s|), x))
  {
    var k := Place(x.at, s, |s|);
    var r := InsertAt(s, k, x);
    hide InsertAt, Place;
    forall i, j | 0 <= i < j < |r| ensures r[i].at <= r[j].at { InsertPair(x, s, k, i, j); }
  }

  /** The first `n` in the order of time. */
  function SortFirst<T>(s: seq<Timed<T>>, n: nat): (r: seq<Timed<T>>)
    requires n <= |s|
    ensures InTime(r) && multiset(r) == multiset(s[..n]) && |r| == n
  {
    if n == 0 then [] else
    assert s[..n] == s[..n - 1] + [s[n - 1]];
    var r := SortFirst(s, n - 1);
    InsertInTime(s[n - 1], r);
    assert multiset(r + [s[n - 1]]) == multiset(s[..n]);
    InsertAt(r, Place(s[n - 1].at, r, |r|), s[n - 1])
  }

  function Sort<T>(s: seq<Timed<T>>): (r: seq<Timed<T>>)
    ensures InTime(r) && multiset(r) == multiset(s) && |r| == |s|
  {
    assert s[..|s|] == s;
    SortFirst(s, |s|)
  }

  // ----- images of permutations -----

  function Map<T, U>(f: T -> U, s: seq<T>): (r: seq<U>)
    ensures |r| == |s| && forall i :: 0 <= i < |s| ==> r[i] == f(s[i])
  {
    seq(|s|, i requires 0 <= i < |s| => f(s[i]))
  }

  function Without<T>(s: seq<T>, j: nat): (r: seq<T>)
    requires j < |s|
    ensures multiset(s) == multiset(r) + multiset{s[j]} && |r| == |s| - 1
  {
    assert s == s[..j] + [s[j]] + s[j + 1..];
    s[..j] + s[j + 1..]
  }

  lemma MapWithout<T, U>(f: T -> U, s: seq<T>, j: nat)
    requires j < |s|
    ensures Without(Map(f, s), j) == Map(f, Without(s, j))
  {
  }

  /** What is done to every element of a list does not depend on their order. */
  lemma {:induction false} MapPermuted<T, U>(f: T -> U, a: seq<T>, b: seq<T>)
    requires multiset(a) == multiset(b)
    ensures multiset(Map(f, a)) == multiset(Map(f, b))
    decreases |a|
  {
    if |a| == 0 {
      assert |multiset(b)| == |b|;
    } else {
      hide Without;
      assert a[0] in multiset(b);
      var j :| 0 <= j < |b| && b[j] == a[0];
      var c, d := Without(a, 0), Without(b, j);
      assert multiset(c) == multiset(a) - multiset{a[0]} && multiset(d) == multiset(b) - multiset{a[0]};
      MapPermuted(f, c, d);
      MapWithout(f, a, 0);
      MapWithout(f, b, j);
    }
  }
}
