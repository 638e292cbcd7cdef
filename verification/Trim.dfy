/**
 The pattern-removal functions of envsubst/funcs.go: `#`, `##`, `%` and `%%`.

 Prefix removal is proved to take exactly the shortest or longest non-empty matching prefix, for
 every pattern.  Suffix removal reverses string and pattern, and is proved right for every pattern that
 mirrors: the operators of the reversed pattern are those of the pattern from right to left, up to the
 order of `*` and `?` in a run.  Patterns without `[` and `\` do.  Module `SuffixLaws` says how far the
 converse goes.
 */
module Trim {
  import opened Glob

  // ----- what should be removed -----

  /** The least length, from `k` up, of a prefix of `s` in the pattern's language; 0 if there is none. */
  ghost function LeastFrom(p: string, s: string, k: nat): (c: nat)
    requires 1 <= k <= |s| + 1
    ensures c == 0 || (k <= c <= |s| && Denotes(p, s[..c]))
    ensures forall j :: k <= j < (if c == 0 then |s| + 1 else c) ==> !Denotes(p, s[..j])
    decreases |s| - k
  {
    if k > |s| then 0 else if Denotes(p, s[..k]) then k else LeastFrom(p, s, k + 1)
  }

  /** The greatest length, from `k` down, of a prefix of `s` in the pattern's language; 0 if there is none. */
  ghost function GreatestFrom(p: string, s: string, k: nat): (c: nat)
    requires k <= |s|
    ensures c <= k && (c == 0 || Denotes(p, s[..c]))
    ensures forall j :: c < j <= k ==> !Denotes(p, s[..j])
  {
    if k == 0 then 0 else if Denotes(p, s[..k]) then k else GreatestFrom(p, s, k - 1)
  }

  ghost function ShortestPrefix(p: string, s: string): nat { LeastFrom(p, s, 1) }

  ghost function LongestPrefix(p: string, s: string): nat { GreatestFrom(p, s, |s|) }

  // ----- reversal -----

  function Reversed<T>(s: seq<T>): (r: seq<T>)
    ensures |r| == |s|
    ensures forall k :: 0 <= k < |s| ==> r[k] == s[|s| - 1 - k]
  {
    seq(|s|, k requires 0 <= k < |s| => s[|s| - 1 - k])
  }

  method Reverse(s: string) returns (r: string)
    ensures r == Reversed(s)
  {
    var a := new char[|s|](i requires 0 <= i < |s| => s[i]);
    var i, j := 0, |s| - 1;
    while i < |s| / 2
      invariant 0 <= i <= |s| / 2 && j == |s| - 1 - i
      invariant forall k :: 0 <= k < i ==> a[k] == s[|s| - 1 - k] && a[|s| - 1 - k] == s[k]
      invariant forall k :: i <= k <= j ==> a[k] == s[k]
    {
      a[i], a[j] := a[j], a[i];
      i, j := i + 1, j - 1;
    }
    r := a[..];
    assert forall k :: 0 <= k < |s| ==> r[k] == Reversed(s)[k];
  }

  // ----- the operators of a pattern -----

  /** From index `a` on, `ts` lists the operators of `p` from `i` on. */
  predicate IsTerms(p: string, i: nat, ts: seq<Term>, a: nat)
    requires i <= |p| && a <= |ts|
    decreases |p| - i
  {
    if i == |p| then a == |ts|
    else
      && a < |ts| && ParseTerm(p, i, |p|).OneTerm? && ts[a] == ParseTerm(p, i, |p|).term
      && IsTerms(p, ParseTerm(p, i, |p|).next, ts, a + 1)
  }

  /** The operators of a well-formed pattern, from `i` on. */
  function TermsFrom(p: string, i: nat): seq<Term>
    requires i <= |p| && WellFormed(p, i, |p|)
    decreases |p| - i
  {
    if i == |p| then [] else [ParseTerm(p, i, |p|).term] + TermsFrom(p, ParseTerm(p, i, |p|).next)
  }

  lemma {:induction false} IsTermsOf(p: string, i: nat, ts: seq<Term>, a: nat)
    requires i <= |p| && a <= |ts| && WellFormed(p, i, |p|)
    ensures IsTerms(p, i, ts, a) <==> ts[a..] == TermsFrom(p, i)
    decreases |p| - i
  {
    if i == |p| {
    } else if a < |ts| {
      IsTermsOf(p, ParseTerm(p, i, |p|).next, ts, a + 1);
      assert ts[a..] == [ts[a]] + ts[a + 1..];
    }
  }

  /** The characters `s[k..l]` belong to the language of the operators `ts[i..j]`. */
  ghost predicate Spans(ts: seq<Term>, i: nat, j: nat, s: string, k: nat, l: nat)
    requires i <= j <= |ts| && k <= l <= |s|
    decreases j - i, 0
  {
    if i == j then k == l
    else if ts[i].Star? then SpansLater(ts, i + 1, j, s, k, l)
    else k < l && Hits(ts[i], s[k]) && Spans(ts, i + 1, j, s, k + 1, l)
  }

  ghost predicate SpansLater(ts: seq<Term>, i: nat, j: nat, s: string, k: nat, l: nat)
    requires i <= j <= |ts| && k <= l <= |s|
    decreases j - i, 1
  {
    exists m :: k <= m <= l && Spans(ts, i, j, s, m, l)
  }

  /** A pattern denotes what its operators span. */
  lemma {:induction false} TermsMatch(p: string, i: nat, ts: seq<Term>, a: nat, s: string, k: nat)
    requires i <= |p| && a <= |ts| && k <= |s| && IsTerms(p, i, ts, a)
    ensures WellFormed(p, i, |p|)
    ensures Matches(p, i, |p|, s, k) <==> Spans(ts, a, |ts|, s, k, |s|)
    decreases |p| - i
  {
    if i == |p| {
    } else {
      var i', a' := ParseTerm(p, i, |p|).next, a + 1;
      TermsMatch(p, i', ts, a', s, k);
      if ts[a].Star? {
        forall m | k <= m <= |s|
          ensures Matches(p, i', |p|, s, m) <==> Spans(ts, a', |ts|, s, m, |s|)
        {
          TermsMatch(p, i', ts, a', s, m);
        }
        assert MatchesLater(p, i', |p|, s, k) <==> SpansLater(ts, a', |ts|, s, k, |s|);
        assert Matches(p, i, |p|, s, k) <==> MatchesLater(p, i', |p|, s, k);
      } else if k < |s| {
        TermsMatch(p, i', ts, a', s, k + 1);
      }
    }
  }

  /** The piece `ts[i..j-1]` takes a front part of the text. */
  ghost predicate SpansFront(ts: seq<Term>, i: nat, j: nat, s: string, k: nat, l: nat)
    requires i <= j <= |ts| && k <= l <= |s|
  {
    exists m :: k <= m <= l && Spans(ts, i, j, s, k, m)
  }

  /** `Spans` read from the right: the last operator takes the last of the text. */
  ghost predicate SpansFromRight(ts: seq<Term>, i: nat, j: nat, s: string, k: nat, l: nat)
    requires i < j <= |ts| && k <= l <= |s|
  {
    if ts[j - 1].Star? then SpansFront(ts, i, j - 1, s, k, l)
    else k < l && Hits(ts[j - 1], s[l - 1]) && Spans(ts, i, j - 1, s, k, l - 1)
  }

  lemma {:induction false} ReadFromRight(ts: seq<Term>, i: nat, j: nat, s: string, k: nat, l: nat)
    requires i < j <= |ts| && k <= l <= |s|
    requires Spans(ts, i, j, s, k, l)
    ensures SpansFromRight(ts, i, j, s, k, l)
    decreases j - i
  {
    if i + 1 == j {
      if ts[i].Star? {
        assert Spans(ts, i, j - 1, s, k, k);
      }
    } else if ts[i].Star? {
      var m :| k <= m <= l && Spans(ts, i + 1, j, s, m, l);
      ReadFromRight(ts, i + 1, j, s, m, l);
      if ts[j - 1].Star? {
        var e :| m <= e <= l && Spans(ts, i + 1, j - 1, s, m, e);
        assert SpansLater(ts, i + 1, j - 1, s, k, e);
        assert Spans(ts, i, j - 1, s, k, e);
      } else {
        assert SpansLater(ts, i + 1, j - 1, s, k, l - 1);
      }
    } else {
      ReadFromRight(ts, i + 1, j, s, k + 1, l);
      if ts[j - 1].Star? {
        var e :| k + 1 <= e <= l && Spans(ts, i + 1, j - 1, s, k + 1, e);
        assert Spans(ts, i, j - 1, s, k, e);
      }
    }
  }

  lemma {:induction false} ReadFromLeft(ts: seq<Term>, i: nat, j: nat, s: string, k: nat, l: nat)
    requires i < j <= |ts| && k <= l <= |s|
    requires SpansFromRight(ts, i, j, s, k, l)
    ensures Spans(ts, i, j, s, k, l)
    decreases j - i
  {
    if i + 1 == j {
      if ts[i].Star? {
        assert Spans(ts, j, j, s, l, l);
      }
    } else if ts[i].Star? {
      var e := l - 1;
      if ts[j - 1].Star? {
        e :| k <= e <= l && Spans(ts, i, j - 1, s, k, e);
      }
      assert SpansLater(ts, i + 1, j - 1, s, k, e);
      var m :| k <= m <= e && Spans(ts, i + 1, j - 1, s, m, e);
      assert SpansFromRight(ts, i + 1, j, s, m, l);
      ReadFromLeft(ts, i + 1, j, s, m, l);
    } else {
      if ts[j - 1].Star? {
        var e :| k <= e <= l && Spans(ts, i, j - 1, s, k, e);
        assert Spans(ts, i + 1, j - 1, s, k + 1, e);
      }
      ReadFromLeft(ts, i + 1, j, s, k + 1, l);
    }
  }

  /** What operators span commutes with reversal. */
  lemma {:induction false} SpansReversed(ts: seq<Term>, i: nat, j: nat, s: string, k: nat, l: nat)
    requires i <= j <= |ts| && k <= l <= |s|
    ensures Spans(Reversed(ts), |ts| - j, |ts| - i, Reversed(s), |s| - l, |s| - k) <==> Spans(ts, i, j, s, k, l)
    decreases j - i
  {
    if i < j {
      var ts', s' := Reversed(ts), Reversed(s);
      if Spans(ts, i, j, s, k, l) { ReadFromRight(ts, i, j, s, k, l); }
      if SpansFromRight(ts, i, j, s, k, l) { ReadFromLeft(ts, i, j, s, k, l); }
      if ts[j - 1].Star? {
        var a, b, c := |ts| - j, |ts| - i, |s| - k;
        if Spans(ts', a, b, s', |s| - l, c) {
          assert SpansLater(ts', a + 1, b, s', |s| - l, c);
          var m :| |s| - l <= m <= c && Spans(ts', a + 1, b, s', m, c);
          SpansReversed(ts, i, j - 1, s, k, |s| - m);
          assert SpansFront(ts, i, j - 1, s, k, l);
        }
        if SpansFront(ts, i, j - 1, s, k, l) {
          var e :| k <= e <= l && Spans(ts, i, j - 1, s, k, e);
          SpansReversed(ts, i, j - 1, s, k, e);
          assert SpansLater(ts', a + 1, b, s', |s| - l, c);
        }
      } else if k < l {
        SpansReversed(ts, i, j - 1, s, k, l - 1);
      }
    }
  }

  // ----- the form of a list of operators -----

  /**
   Operators for single characters, and before each and at the end a gap: so many characters, or with a
   star at least so many.
   */
  datatype Form = End(count: nat, star: bool) | Then(count: nat, star: bool, term: Term, rest: Form)

  /** The form of the operators from `i` on: each run of `*` and `?` is one gap. */
  function FormOf(ts: seq<Term>, i: nat): Form
    requires i <= |ts|
    decreases |ts| - i
  {
    if i == |ts| then End(0, false) else
    var f := FormOf(ts, i + 1);
    match ts[i]
    case Star => f.(star := true)
    case AnyChar => f.(count := f.count + 1)
    case _ => Then(0, false, ts[i], f)
  }

  /** The text of `s` from `k` on has this form. */
  ghost predicate Fits(f: Form, s: string, k: nat)
    requires k <= |s|
    decreases f, 2
  {
    if f.Then? then FitsSomewhere(f, s, k)
    else k + f.count <= |s| && (f.star || k + f.count == |s|)
  }

  ghost predicate FitsSomewhere(f: Form, s: string, k: nat)
    requires f.Then? && k <= |s|
    decreases f, 1
  {
    exists m :: FitsAt(f, s, k, m)
  }

  /** And its first operator takes the character at `m`. */
  ghost predicate FitsAt(f: Form, s: string, k: nat, m: int)
    requires f.Then? && k <= |s|
    decreases f, 0
  {
    && k + f.count <= m < |s| && (f.star || m == k + f.count)
    && Hits(f.term, s[m]) && Fits(f.rest, s, m + 1)
  }

  ghost predicate FitsLater(f: Form, s: string, k: nat)
    requires k <= |s|
  {
    exists m :: k <= m <= |s| && Fits(f, s, m)
  }

  lemma StarFits(f: Form, s: string, k: nat)
    requires k <= |s|
    ensures FitsLater(f, s, k) <==> Fits(f.(star := true), s, k)
  {
    var g := f.(star := true);
    if FitsLater(f, s, k) && f.Then? {
      var m :| k <= m <= |s| && Fits(f, s, m);
      assert FitsSomewhere(f, s, m);
      var q :| FitsAt(f, s, m, q);
      assert FitsAt(g, s, k, q);
    }
    if Fits(g, s, k) {
      if f.End? {
        assert Fits(f, s, |s| - f.count);
      } else {
        assert FitsSomewhere(g, s, k);
        var q :| FitsAt(g, s, k, q);
        assert FitsAt(f, s, q - f.count, q);
        assert Fits(f, s, q - f.count);
      }
    }
  }

  lemma AnyFits(f: Form, s: string, k: nat)
    requires k <= |s|
    ensures k < |s| && Fits(f, s, k + 1) <==> Fits(f.(count := f.count + 1), s, k)
  {
    var g := f.(count := f.count + 1);
    if f.Then? {
      if k < |s| && Fits(f, s, k + 1) {
        assert FitsSomewhere(f, s, k + 1);
        var m :| FitsAt(f, s, k + 1, m);
        assert FitsAt(g, s, k, m);
      }
      if Fits(g, s, k) {
        assert FitsSomewhere(g, s, k);
        var m :| FitsAt(g, s, k, m);
        assert FitsAt(f, s, k + 1, m);
      }
    }
  }

  lemma OneFits(t: Term, f: Form, s: string, k: nat)
    requires k <= |s|
    ensures k < |s| && Hits(t, s[k]) && Fits(f, s, k + 1) <==> Fits(Then(0, false, t, f), s, k)
  {
    var g := Then(0, false, t, f);
    if k < |s| && Hits(t, s[k]) && Fits(f, s, k + 1) { assert FitsAt(g, s, k, k); }
    if Fits(g, s, k) {
      assert FitsSomewhere(g, s, k);
      var m :| FitsAt(g, s, k, m);
    }
  }

  /** Operators span exactly the texts of their form. */
  lemma {:induction false} SpansForm(ts: seq<Term>, i: nat, s: string, k: nat)
    requires i <= |ts| && k <= |s|
    ensures Spans(ts, i, |ts|, s, k, |s|) <==> Fits(FormOf(ts, i), s, k)
    decreases |ts| - i
  {
    if i == |ts| {
    } else {
      var f := FormOf(ts, i + 1);
      hide Fits, Hits;
      match ts[i]
      case Star =>
        if SpansLater(ts, i + 1, |ts|, s, k, |s|) {
          var m :| k <= m <= |s| && Spans(ts, i + 1, |ts|, s, m, |s|);
          SpansForm(ts, i + 1, s, m);
        }
        if FitsLater(f, s, k) {
          var m :| k <= m <= |s| && Fits(f, s, m);
          SpansForm(ts, i + 1, s, m);
        }
        StarFits(f, s, k);
      case AnyChar =>
        if k < |s| { SpansForm(ts, i + 1, s, k + 1); }
        AnyFits(f, s, k);
        HitsAny(s);
      case _ =>
        if k < |s| { SpansForm(ts, i + 1, s, k + 1); }
        OneFits(ts[i], f, s, k);
    }
  }

  lemma HitsAny(s: string)
    ensures forall k :: 0 <= k < |s| ==> Hits(AnyChar, s[k])
  {
  }

  /** The same gaps, between operators that take the same characters. */
  ghost predicate Same(f: Form, g: Form) {
    && f.count == g.count && f.star == g.star && f.Then? == g.Then?
    && (f.Then? ==> (forall c :: Hits(f.term, c) <==> Hits(g.term, c)) && Same(f.rest, g.rest))
  }

  lemma {:induction false} SameFits(f: Form, g: Form, s: string, k: nat)
    requires Same(f, g) && k <= |s|
    ensures Fits(f, s, k) <==> Fits(g, s, k)
    decreases f
  {
    if f.Then? {
      forall m ensures FitsAt(f, s, k, m) <==> FitsAt(g, s, k, m) {
        if 0 <= m < |s| { SameFits(f.rest, g.rest, s, m + 1); }
      }
      assert FitsSomewhere(f, s, k) <==> FitsSomewhere(g, s, k);
    }
  }

  lemma {:induction false} SameReflexive(f: Form)
    ensures Same(f, f)
  {
    if f.Then? {
      SameReflexive(f.rest);
    }
  }

  /** The operators of the reversed pattern have the form of those of the pattern, reversed. */
  ghost predicate Mirrors(p: string) {
    && WellFormed(p, 0, |p|) && WellFormed(Reversed(p), 0, |p|)
    && Same(FormOf(TermsFrom(Reversed(p), 0), 0), FormOf(Reversed(TermsFrom(p, 0)), 0))
  }

  /** A well-formed pattern denotes the texts of the form of its operators. */
  lemma DenotesForm(p: string, s: string)
    requires WellFormed(p, 0, |p|)
    ensures Denotes(p, s) <==> Fits(FormOf(TermsFrom(p, 0), 0), s, 0)
  {
    hide FormOf, Fits, Spans;
    var ts := TermsFrom(p, 0);
    IsTermsOf(p, 0, ts, 0);
    TermsMatch(p, 0, ts, 0, s, 0);
    SpansForm(ts, 0, s, 0);
  }

  /** And its reversal the texts of the form of the reversed operators. */
  lemma ReversedForm(p: string, s: string)
    requires WellFormed(p, 0, |p|)
    ensures Denotes(p, s) <==> Fits(FormOf(Reversed(TermsFrom(p, 0)), 0), Reversed(s), 0)
  {
    hide FormOf, Fits, Spans;
    var ts := TermsFrom(p, 0);
    IsTermsOf(p, 0, ts, 0);
    TermsMatch(p, 0, ts, 0, s, 0);
    SpansReversed(ts, 0, |ts|, s, 0, |s|);
    SpansForm(Reversed(ts), 0, Reversed(s), 0);
  }

  /** The language of such a pattern commutes with reversal. */
  lemma DenotesReversed(p: string, s: string)
    requires Mirrors(p)
    ensures Denotes(Reversed(p), Reversed(s)) <==> Denotes(p, s)
  {
    hide FormOf, Fits, Same, Denotes, TermsFrom;
    ReversedForm(p, s);
    DenotesForm(Reversed(p), Reversed(s));
    SameFits(FormOf(TermsFrom(Reversed(p), 0), 0), FormOf(Reversed(TermsFrom(p, 0)), 0), Reversed(s), 0);
  }

  /** No class and no escape: every character of the pattern is an operator of its own. */
  predicate Plain(p: string) {
    forall i :: 0 <= i < |p| ==> p[i] != '[' && p[i] != '\\'
  }

  function PlainTerms(p: string): (ts: seq<Term>)
    ensures |ts| == |p|
    ensures forall i :: 0 <= i < |p| ==>
              ts[i] == if p[i] == '*' then Star else if p[i] == '?' then AnyChar else Lit(p[i])
  {
    seq(|p|, i requires 0 <= i < |p| => if p[i] == '*' then Star else if p[i] == '?' then AnyChar else Lit(p[i]))
  }

  lemma {:induction false} PlainIsTerms(p: string, i: nat)
    requires Plain(p) && i <= |p|
    ensures IsTerms(p, i, PlainTerms(p), i) && WellFormed(p, i, |p|)
    decreases |p| - i
  {
    if i == |p| {
    } else {
      PlainIsTerms(p, i + 1);
    }
  }

  lemma TermsOfPlain(p: string)
    requires Plain(p)
    ensures WellFormed(p, 0, |p|) && TermsFrom(p, 0) == PlainTerms(p)
  {
    hide TermsFrom, WellFormed, IsTerms;
    PlainIsTerms(p, 0);
    IsTermsOf(p, 0, PlainTerms(p), 0);
    assert PlainTerms(p)[0..] == PlainTerms(p);
  }

  lemma PlainMirrors(p: string)
    requires Plain(p)
    ensures Mirrors(p)
  {
    hide TermsFrom, WellFormed, PlainTerms, FormOf, Same;
    TermsOfPlain(p);
    TermsOfPlain(Reversed(p));
    assert PlainTerms(Reversed(p)) == Reversed(PlainTerms(p));
    SameReflexive(FormOf(PlainTerms(Reversed(p)), 0));
  }

  // ----- what suffix removal should do, and what it does -----

  ghost predicate SuffixDenoted(p: string, s: string, c: nat)
    requires c <= |s|
  {
    Denotes(p, s[|s| - c..])
  }

  /** The least length, from `k` up, of a suffix of `s` in the pattern's language; 0 if there is none. */
  ghost function LeastSuffixFrom(p: string, s: string, k: nat): (c: nat)
    requires 1 <= k <= |s| + 1
    ensures c == 0 || (k <= c <= |s| && SuffixDenoted(p, s, c))
    ensures forall j :: k <= j < (if c == 0 then |s| + 1 else c) ==> !SuffixDenoted(p, s, j)
    decreases |s| - k
  {
    if k > |s| then 0 else if SuffixDenoted(p, s, k) then k else LeastSuffixFrom(p, s, k + 1)
  }

  /** The greatest length, from `k` down, of a suffix of `s` in the pattern's language; 0 if there is none. */
  ghost function GreatestSuffixFrom(p: string, s: string, k: nat): (c: nat)
    requires k <= |s|
    ensures c <= k && (c == 0 || SuffixDenoted(p, s, c))
    ensures forall j :: c < j <= k ==> !SuffixDenoted(p, s, j)
  {
    if k == 0 then 0 else if SuffixDenoted(p, s, k) then k else GreatestSuffixFrom(p, s, k - 1)
  }

  ghost function ShortestSuffix(p: string, s: string): nat { LeastSuffixFrom(p, s, 1) }

  ghost function LongestSuffix(p: string, s: string): nat { GreatestSuffixFrom(p, s, |s|) }

  /** On the reversed strings, the shortest and the longest prefix have the right length. */
  ghost predicate Right(p: string, s: string) {
    && ShortestPrefix(Reversed(p), Reversed(s)) == ShortestSuffix(p, s)
    && LongestPrefix(Reversed(p), Reversed(s)) == LongestSuffix(p, s)
  }

  /** The suffix of length `c` and its reversal are matched alike. */
  ghost predicate Agrees(p: string, s: string, c: nat)
    requires c <= |s|
  {
    Denotes(Reversed(p), Reversed(s)[..c]) <==> SuffixDenoted(p, s, c)
  }

  lemma AgreeingIsRight(p: string, s: string)
    requires forall c :: 1 <= c <= |s| ==> Agrees(p, s, c)
    ensures Right(p, s)
  {
    forall c | 1 <= c <= |s|
      ensures Denotes(Reversed(p), Reversed(s)[..c]) <==> SuffixDenoted(p, s, c)
    {
      assert Agrees(p, s, c);
    }
  }

  lemma MirroredIsRight(p: string, s: string)
    requires Mirrors(p)
    ensures Right(p, s)
  {
    forall c | 1 <= c <= |s| ensures Agrees(p, s, c) {
      DenotesReversed(p, s[|s| - c..]);
      assert Reversed(s)[..c] == Reversed(s[|s| - c..]);
    }
    AgreeingIsRight(p, s);
  }

  // ----- the removal loops -----

  method TrimShortest(s: string, arg: string) returns (r: string)
    ensures r == s[ShortestPrefix(arg, s)..]
  {
    var shortest := 0;
    for i := 0 to |s|
      invariant shortest == 0 || (|s| - i < shortest <= |s| && Denotes(arg, s[..shortest]))
      invariant forall k :: |s| - i < k < (if shortest == 0 then |s| + 1 else shortest) ==> !Denotes(arg, s[..k])
    {
      var matched, err := Match(arg, s[..|s| - i]);
      if err {
        return s;
      }
      if matched {
        shortest := |s| - i;
      }
    }
    if shortest > 0 {
      return s[shortest..];
    }
    return s;
  }

  method TrimLongest(s: string, arg: string) returns (r: string)
    ensures r == s[LongestPrefix(arg, s)..]
  {
    for i := 0 to |s|
      invariant forall k :: |s| - i < k <= |s| ==> !Denotes(arg, s[..k])
    {
      var matched, err := Match(arg, s[..|s| - i]);
      if err {
        return s;
      }
      if matched {
        return s[|s| - i..];
      }
    }
    return s;
  }

  method TrimShortestPrefix(s: string, args: seq<string>) returns (r: string)
    ensures r == if |args| == 0 then s else s[ShortestPrefix(args[0], s)..]
  {
    r := s;
    if |args| != 0 {
      r := TrimShortest(s, args[0]);
    }
  }

  method TrimLongestPrefix(s: string, args: seq<string>) returns (r: string)
    ensures r == if |args| == 0 then s else s[LongestPrefix(args[0], s)..]
  {
    r := s;
    if |args| != 0 {
      r := TrimLongest(s, args[0]);
    }
  }

  lemma DropReversed(s: string, c: nat)
    requires c <= |s|
    ensures Reversed(Reversed(s)[c..]) == s[..|s| - c]
  {
  }

  method TrimShortestSuffix(s: string, args: seq<string>) returns (r: string)
    ensures |args| == 0 ==> r == s
    ensures |args| > 0 ==> r == s[..|s| - ShortestPrefix(Reversed(args[0]), Reversed(s))]
    ensures |args| > 0 && (Plain(args[0]) || Mirrors(args[0])) ==> r == s[..|s| - ShortestSuffix(args[0], s)]
  {
    r := s;
    if |args| != 0 {
      var t := Reverse(s);
      var targ := Reverse(args[0]);
      var u := TrimShortest(t, targ);
      r := Reverse(u);
      DropReversed(s, ShortestPrefix(targ, t));
      if Plain(args[0]) { PlainMirrors(args[0]); }
      if Mirrors(args[0]) { MirroredIsRight(args[0], s); }
    }
  }

  method TrimLongestSuffix(s: string, args: seq<string>) returns (r: string)
    ensures |args| == 0 ==> r == s
    ensures |args| > 0 ==> r == s[..|s| - LongestPrefix(Reversed(args[0]), Reversed(s))]
    ensures |args| > 0 && (Plain(args[0]) || Mirrors(args[0])) ==> r == s[..|s| - LongestSuffix(args[0], s)]
  {
    r := s;
    if |args| != 0 {
      var t := Reverse(s);
      var targ := Reverse(args[0]);
      var u := TrimLongest(t, targ);
      r := Reverse(u);
      DropReversed(s, LongestPrefix(targ, t));
      if Plain(args[0]) { PlainMirrors(args[0]); }
      if Mirrors(args[0]) { MirroredIsRight(args[0], s); }
    }
  }

  // ----- when suffix removal is right -----

  /** A class is opened in `p` before any bracket closes, and nothing is escaped. */
  ghost predicate OpensClass(p: string) {
    && (forall i :: 0 <= i < |p| ==> p[i] != '\\')
    && (exists f :: IsFirstBracket(p, f))
  }

  ghost predicate IsFirstBracket(p: string, f: int) {
    0 <= f < |p| && p[f] == '[' && forall i :: 0 <= i < f ==> p[i] != ']'
  }

  lemma {:induction false} ClassEndsWithBracket(p: string, i: nat, n: nat, first: bool)
    requires i <= n <= |p| && ParseRanges(p, i, n, first).Ranges?
    ensures p[ParseRanges(p, i, n, first).next - 1] == ']'
    decreases n - i
  {
    if !first && i < n && p[i] == ']' {
    } else {
      ClassEndsWithBracket(p, ParseRange(p, i, n).next, n, false);
    }
  }

  lemma {:induction false} UnclosedIsMalformed(p: string, i: nat, h: nat)
    requires i <= h < |p| && p[h] == '['
    requires forall k :: 0 <= k < |p| ==> p[k] != '\\'
    requires forall k :: h < k < |p| ==> p[k] != ']'
    ensures !WellFormed(p, i, |p|)
    decreases |p| - i
  {
    var n := |p|;
    if p[i] == '[' && ParseTerm(p, i, n).OneTerm? {
      ClassEndsWithBracket(p, ClassBody(p, i, n), n, true);
    }
    if ParseTerm(p, i, n).OneTerm? {
      UnclosedIsMalformed(p, ParseTerm(p, i, n).next, h);
    }
  }

  /** Reversing a pattern that opens a class leaves the class unclosed, so nothing ever matches. */
  lemma ReversedClassIsMalformed(p: string)
    requires OpensClass(p)
    ensures !WellFormed(Reversed(p), 0, |p|)
  {
    var f :| IsFirstBracket(p, f);
    UnclosedIsMalformed(Reversed(p), 0, |p| - 1 - f);
  }

  /** No non-empty suffix of `s` is in the language of `p`. */
  ghost predicate NoSuffix(p: string, s: string) {
    forall c :: 1 <= c <= |s| ==> !SuffixDenoted(p, s, c)
  }

  /** No non-empty prefix of `s` is in the language of `p`. */
  ghost predicate NoPrefix(p: string, s: string) {
    forall c :: 1 <= c <= |s| ==> !Denotes(p, s[..c])
  }

  /**
   When suffix removal is right, for every pattern.  If the operators mirror each other it always is.
   If the pattern or its reversal is malformed, it is exactly when the other matches nothing.  What is
   left are patterns that are well-formed both ways and mean different things.
   */
  lemma SuffixRemovalRightIff(p: string, s: string)
    ensures Mirrors(p) ==> Right(p, s)
    ensures !WellFormed(Reversed(p), 0, |p|) ==> (Right(p, s) <==> NoSuffix(p, s))
    ensures !WellFormed(p, 0, |p|) ==> (Right(p, s) <==> NoPrefix(Reversed(p), Reversed(s)))
  {
    if Mirrors(p) { MirroredIsRight(p, s); }
  }

  /** The pattern and its reversal match `s` and its reversal alike. */
  ghost predicate Commutes(p: string, s: string) {
    |s| > 0 ==> (Denotes(Reversed(p), Reversed(s)) <==> Denotes(p, s))
  }

  lemma RightCommutes(p: string, s: string)
    requires Right(p, s)
    ensures Commutes(p, s)
  {
    hide Denotes;
    assert s[|s| - |s|..] == s && Reversed(s)[..|s|] == Reversed(s);
    assert SuffixDenoted(p, s, |s|) <==> Denotes(p, s);
  }

  lemma CommutingIsRight(p: string, s: string)
    requires forall t :: Commutes(p, t)
    ensures Right(p, s)
  {
    hide Denotes, Right;
    forall c | 1 <= c <= |s| ensures Agrees(p, s, c) {
      assert Reversed(s)[..c] == Reversed(s[|s| - c..]);
      assert Commutes(p, s[|s| - c..]);
    }
    AgreeingIsRight(p, s);
  }

  /** A pattern is right on all strings exactly when its language commutes with reversal. */
  lemma RightForAllIff(p: string)
    ensures (forall s :: Right(p, s)) <==> (forall s :: Commutes(p, s))
  {
    hide Right, Commutes;
    if forall s :: Right(p, s) {
      forall s ensures Commutes(p, s) { RightCommutes(p, s); }
    }
    if forall s :: Commutes(p, s) {
      forall s ensures Right(p, s) { CommutingIsRight(p, s); }
    }
  }

  /** The smallest failure: `${v%[a]}` leaves the value `a` as it is, although `a` matches. */
  lemma ClassSuffixIsMissed()
    ensures Denotes("[a]", "a")
    ensures ShortestSuffix("[a]", "a") == 1 && ShortestPrefix(Reversed("[a]"), Reversed("a")) == 0
  {
    var p, s := "[a]", "a";
    assert ParseRanges(p, 2, 3, false) == Ranges([], 3);
    assert ParseTerm(p, 0, 3) == OneTerm(Class(false, [Range('a', 'a')]), 3);
    assert Matches(p, 3, 3, s, 1);
    assert s[|s| - 1..] == s;
    assert IsFirstBracket(p, 0);
    ReversedClassIsMalformed(p);
  }

  lemma TermsOfMistaken(x: char, a: char, p: string)
    requires p == [']', x, '[', a, ']'] && x in "ax" && a in "ax"
    ensures WellFormed(p, 0, 5) && TermsFrom(p, 0) == [Lit(']'), Lit(x), Class(false, [Range(a, a)])]
  {
    assert ParseRanges(p, 4, 5, false) == Ranges([], 5);
    assert ParseRanges(p, 3, 5, true) == Ranges([Range(a, a)], 5);
    assert TermsFrom(p, 2) == [Class(false, [Range(a, a)])];
    assert TermsFrom(p, 1) == [Lit(x), Class(false, [Range(a, a)])];
  }

  lemma HitsOne(a: char, c: char)
    ensures Hits(Class(false, [Range(a, a)]), c) <==> c == a
  {
    var rs := [Range(a, a)];
    assert InRanges(rs, c) <==> rs[0].lo <= c <= rs[0].hi;
    assert a <= c <= a ==> c as int == a as int;
  }

  lemma DenotesMistaken(x: char, a: char, p: string, s: string)
    requires p == [']', x, '[', a, ']'] && x in "ax" && a in "ax"
    ensures Denotes(p, s) <==> s == [']', x, a]
  {
    TermsOfMistaken(x, a, p);
    var ts := TermsFrom(p, 0);
    IsTermsOf(p, 0, ts, 0);
    TermsMatch(p, 0, ts, 0, s, 0);
    hide Denotes, Matches, ParseTerm, WellFormed, TermsFrom;
    if |s| >= 3 {
      HitsOne(a, s[2]);
      assert Spans(ts, 2, 3, s, 2, |s|) <==> |s| == 3 && s[2] == a;
      assert Spans(ts, 1, 3, s, 1, |s|) <==> |s| == 3 && s[1] == x && s[2] == a;
    }
  }

  /** A class after a literal bracket: well-formed both ways, and text goes that does not match. */
  lemma ClassSuffixIsMistaken()
    ensures WellFormed("]x[a]", 0, 5) && WellFormed(Reversed("]x[a]"), 0, 5)
    ensures ShortestSuffix("]x[a]", "xa]") == 0 && ShortestPrefix(Reversed("]x[a]"), Reversed("xa]")) == 3
  {
    var p, s := "]x[a]", "xa]";
    var p', s' := Reversed(p), Reversed(s);
    assert p' == "]a[x]" && s' == "]ax";
    TermsOfMistaken('x', 'a', p);
    TermsOfMistaken('a', 'x', p');
    hide Denotes, WellFormed;
    forall c | 1 <= c <= 3 ensures !SuffixDenoted(p, s, c) { DenotesMistaken('x', 'a', p, s[3 - c..]); }
    forall c | 1 <= c <= 3 ensures Denotes(p', s'[..c]) <==> c == 3 { DenotesMistaken('a', 'x', p', s'[..c]); }
  }
}
