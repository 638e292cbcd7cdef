/** Values and facts about lists that the models share. */
module Prelude {

  datatype Option<+T> = None | Some(value: T)

  function Max(x: int, y: int): int { if x > y then x else y }

  predicate Distinct<T(==)>(s: seq<T>) { forall i, j :: 0 <= i < j < |s| ==> s[i] != s[j] }

  function Members<T>(s: seq<T>): set<T> { set x | x in s }

  lemma InMembers<T>(s: seq<T>, x: T)
    ensures x in s <==> x in Members(s)
  {
  }

  lemma {:induction false} MembersSize<T>(s: seq<T>)
    ensures |Members(s)| <= |s| && (Distinct(s) ==> |Members(s)| == |s|)
  {
    if |s| == 0 {
    } else {
      var t, x := s[..|s| - 1], s[|s| - 1];
      MembersSize(t);
      assert s == t + [x];
      assert Members(s) == Members(t) + {x};
    }
  }

  lemma SubsetSize<T>(a: set<T>, b: set<T>)
    requires a <= b
    ensures |a| <= |b|
  {
    assert b == a + (b - a);
  }

  predicate HasPrefix(s: string, p: string) { |p| <= |s| && s[..|p|] == p }

  /** `s` with `x` put at index `k`. */
  function InsertAt<T>(s: seq<T>, k: nat, x: T): (r: seq<T>)
    requires k <= |s|
    ensures multiset(r) == multiset(s + [x])
    ensures |r| == |s| + 1 && r[k] == x
    ensures forall j :: 0 <= j < k ==> r[j] == s[j]
    ensures forall j {:trigger r[j]} :: k < j < |r| ==> r[j] == s[j - 1]
  {
    assert s == s[..k] + s[k..];
    s[..k] + [x] + s[k..]
  }

  /** An element occurs once in a list exactly when it occurs once in its multiset. */
  lemma OccursOnce<T>(s: seq<T>, i: nat)
    requires i < |s|
    ensures multiset(s)[s[i]] == 1 <==> forall j :: 0 <= j < |s| && s[j] == s[i] ==> j == i
  {
    var a, b := s[..i], s[i + 1..];
    assert s == a + [s[i]] + b;
    assert multiset(s)[s[i]] == multiset(a)[s[i]] + 1 + multiset(b)[s[i]];
    assert forall j :: 0 <= j < |a| ==> a[j] == s[j];
    assert forall j :: 0 <= j < |b| ==> b[j] == s[j + i + 1];
    if j :| 0 <= j < |s| && s[j] == s[i] && j != i {
      assert j < i ==> a[j] in multiset(a);
      assert j > i ==> b[j - i - 1] in multiset(b);
    }
  }
}
