/**
 When suffix removal by reversal is right on all texts: exactly when the pattern mirrors, if there is a
 character that no operator but `*` and `?` takes.

 That character fills the gaps of samples.  A sample of a form has as many other characters as the form
 has operators, so that another form it fits has no room to place its operators differently.
 */
module SuffixLaws {
  import opened Glob
  import opened Trim

  // ----- samples -----

  /** Where the first character other than `x` stands, from `k` on. */
  function First(s: string, k: nat, x: char): (m: nat)
    requires k <= |s|
    ensures k <= m <= |s| && (m < |s| ==> s[m] != x)
    ensures forall i :: k <= i < m ==> s[i] == x
    decreases |s| - k
  {
    if k == |s| || s[k] != x then k else First(s, k + 1, x)
  }

  /** How many characters other than `x` there are. */
  function Marks(s: string, k: nat, x: char): nat
    requires k <= |s|
    decreases |s| - k
  {
    var m := First(s, k, x);
    if m == |s| then 0 else 1 + Marks(s, m + 1, x)
  }

  function Operators(f: Form): nat { if f.Then? then 1 + Operators(f.rest) else 0 }

  /** The gap takes `n` characters. */
  predicate Spaced(f: Form, n: int) { f.count <= n && (f.star || n == f.count) }

  /** The text of `s` from `k` on has the form, and all of its gaps hold `x`. */
  predicate Sample(f: Form, s: string, k: nat, x: char)
    requires k <= |s|
    decreases f
  {
    var m := First(s, k, x);
    && Spaced(f, m - k)
    && if f.Then? then m < |s| && Hits(f.term, s[m]) && Sample(f.rest, s, m + 1, x) else m == |s|
  }

  /** Every operator takes some character, and none takes `x`. */
  ghost predicate Tells(f: Form, x: char) {
    f.Then? ==> !Hits(f.term, x) && (exists c :: Hits(f.term, c)) && Tells(f.rest, x)
  }

  lemma {:induction false} SampleMarks(f: Form, s: string, k: nat, x: char)
    requires k <= |s| && Sample(f, s, k, x)
    ensures Marks(s, k, x) == Operators(f)
    decreases f
  {
    if f.Then? {
      SampleMarks(f.rest, s, First(s, k, x) + 1, x);
    }
  }

  lemma {:induction false} SampleFits(f: Form, s: string, k: nat, x: char)
    requires k <= |s| && Sample(f, s, k, x)
    ensures Fits(f, s, k)
    decreases f
  {
    if f.Then? {
      var m := First(s, k, x);
      SampleFits(f.rest, s, m + 1, x);
      assert FitsAt(f, s, k, m);
      assert FitsSomewhere(f, s, k);
    }
  }

  lemma {:induction false} MarksBehind(s: string, k: nat, m: nat, x: char)
    requires k <= m < |s| && s[m] != x
    ensures Marks(s, k, x) >= 1 + Marks(s, m + 1, x)
    ensures Marks(s, k, x) == 1 + Marks(s, m + 1, x) ==> First(s, k, x) == m
    decreases |s| - k
  {
    var q := First(s, k, x);
    if q < m {
      MarksBehind(s, q + 1, m, x);
    }
  }

  /** A text of the form has a mark for every operator, and if no more, it is a sample. */
  lemma {:induction false} FitsMarks(f: Form, s: string, k: nat, x: char)
    requires k <= |s| && Tells(f, x) && Fits(f, s, k)
    ensures Marks(s, k, x) >= Operators(f)
    ensures Marks(s, k, x) == Operators(f) ==> Sample(f, s, k, x)
    decreases f
  {
    if f.Then? {
      assert FitsSomewhere(f, s, k);
      var m :| FitsAt(f, s, k, m);
      FitsMarks(f.rest, s, m + 1, x);
      MarksBehind(s, k, m, x);
    }
  }

  // ----- building samples -----

  function Fill(x: char, n: nat): (s: string)
    ensures |s| == n && forall i :: 0 <= i < n ==> s[i] == x
  {
    seq(n, i => x)
  }

  /** A gap, a character and a text. */
  function Before(x: char, n: nat, c: char, w: string): string { Fill(x, n) + [c] + w }

  lemma {:induction false} FirstShift(u: string, w: string, k: nat, x: char)
    requires k <= |w|
    ensures First(u + w, |u| + k, x) == |u| + First(w, k, x)
    decreases |w| - k
  {
    if k == |w| || w[k] != x {
    } else {
      FirstShift(u, w, k + 1, x);
    }
  }

  lemma {:induction false} SampleShift(f: Form, u: string, w: string, k: nat, x: char)
    requires k <= |w|
    ensures Sample(f, u + w, |u| + k, x) <==> Sample(f, w, k, x)
    decreases f
  {
    FirstShift(u, w, k, x);
    var m := First(w, k, x);
    if f.Then? && m < |w| {
      SampleShift(f.rest, u, w, m + 1, x);
    }
  }

  lemma FirstBefore(x: char, n: nat, c: char, w: string)
    requires c != x
    ensures First(Before(x, n, c, w), 0, x) == n && Before(x, n, c, w)[n] == c
  {
    var s := Before(x, n, c, w);
    assert s[n] == c;
    assert forall i :: 0 <= i < n ==> s[i] == x;
  }

  lemma SampleBefore(f: Form, x: char, n: nat, c: char, w: string)
    requires c != x
    ensures Sample(f, Before(x, n, c, w), 0, x) <==>
            f.Then? && Spaced(f, n) && Hits(f.term, c) && Sample(f.rest, w, 0, x)
  {
    var s := Before(x, n, c, w);
    FirstBefore(x, n, c, w);
    if f.Then? { SampleShift(f.rest, Fill(x, n) + [c], w, 0, x); }
  }

  lemma SampleFill(f: Form, x: char, n: nat)
    ensures Sample(f, Fill(x, n), 0, x) <==> f.End? && Spaced(f, n)
  {
    assert First(Fill(x, n), 0, x) == n;
  }

  lemma {:induction false} SampleExists(f: Form, x: char) returns (s: string)
    requires Tells(f, x)
    ensures Sample(f, s, 0, x) && (f.Then? ==> |s| > 0)
  {
    if f.Then? {
      var c :| Hits(f.term, c);
      var w := SampleExists(f.rest, x);
      s := Before(x, f.count, c, w);
      SampleBefore(f, x, f.count, c, w);
    } else {
      s := Fill(x, f.count);
      SampleFill(f, x, f.count);
    }
  }

  // ----- forms with the same samples are the same -----

  ghost predicate Agree(f: Form, g: Form, s: string, x: char) { Sample(f, s, 0, x) <==> Sample(g, s, 0, x) }

  lemma SameEnd(f: Form, g: Form, x: char)
    requires f.End? && forall s :: Agree(f, g, s, x)
    ensures g.End? && g.count <= f.count && (f.star ==> g.star)
  {
    hide Sample;
    assert Agree(f, g, Fill(x, f.count), x) && Agree(f, g, Fill(x, f.count + 1), x);
    SampleFill(f, x, f.count);
    SampleFill(g, x, f.count);
    SampleFill(f, x, f.count + 1);
    SampleFill(g, x, f.count + 1);
  }

  /** What the samples of `f` that start alike say about `g`. */
  lemma SampleOfBoth(f: Form, g: Form, x: char, n: nat, c: char, w: string)
    requires f.Then? && !Hits(f.term, x) && Agree(f, g, Before(x, n, c, w), x)
    requires Spaced(f, n) && Hits(f.term, c) && Sample(f.rest, w, 0, x)
    ensures g.Then? && Spaced(g, n) && Hits(g.term, c) && Sample(g.rest, w, 0, x)
  {
    hide Sample, Hits, Spaced;
    SampleBefore(f, x, n, c, w);
    SampleBefore(g, x, n, c, w);
  }

  /** One half: the gap and the operator of `g` take all that those of `f` take. */
  lemma HeadWithin(f: Form, g: Form, x: char)
    requires f.Then? && Tells(f, x) && forall s :: Agree(f, g, s, x)
    ensures g.Then? && g.count <= f.count && (f.star ==> g.star)
    ensures forall c :: Hits(f.term, c) ==> Hits(g.term, c)
    ensures forall w :: Sample(f.rest, w, 0, x) ==> Sample(g.rest, w, 0, x)
  {
    hide Sample, Hits, Agree;
    var c0 :| Hits(f.term, c0);
    var w0 := SampleExists(f.rest, x);
    SampleOfBoth(f, g, x, f.count, c0, w0);
    if f.star { SampleOfBoth(f, g, x, f.count + 1, c0, w0); }
    forall c | Hits(f.term, c) ensures Hits(g.term, c) { SampleOfBoth(f, g, x, f.count, c, w0); }
    forall w | Sample(f.rest, w, 0, x) ensures Sample(g.rest, w, 0, x) { SampleOfBoth(f, g, x, f.count, c0, w); }
  }

  /** The samples determine the form. */
  lemma {:induction false} SameSamples(f: Form, g: Form, x: char)
    requires Tells(f, x) && Tells(g, x) && forall s :: Agree(f, g, s, x)
    ensures Same(f, g)
    decreases f
  {
    hide Sample, Hits;
    forall s ensures Agree(g, f, s, x) { assert Agree(f, g, s, x); }
    if f.End? {
      SameEnd(f, g, x);
      SameEnd(g, f, x);
    } else {
      HeadWithin(f, g, x);
      HeadWithin(g, f, x);
      forall s ensures Agree(f.rest, g.rest, s, x) { }
      SameSamples(f.rest, g.rest, x);
    }
  }

  // ----- forms that fit the same texts have the same samples -----

  ghost predicate FitAlike(f: Form, g: Form, s: string) { |s| > 0 ==> (Fits(f, s, 0) <==> Fits(g, s, 0)) }

  lemma OperatorsBound(f: Form, g: Form, x: char)
    requires f.Then? && Tells(f, x) && Tells(g, x) && forall s :: FitAlike(f, g, s)
    ensures Operators(g) <= Operators(f)
  {
    hide Sample, Fits;
    var s := SampleExists(f, x);
    SampleMarks(f, s, 0, x);
    SampleFits(f, s, 0, x);
    assert FitAlike(f, g, s);
    FitsMarks(g, s, 0, x);
  }

  lemma SampleOfOther(f: Form, g: Form, s: string, x: char)
    requires f.Then? && Tells(g, x) && FitAlike(f, g, s) && Operators(f) == Operators(g) && Sample(f, s, 0, x)
    ensures Sample(g, s, 0, x)
  {
    SampleMarks(f, s, 0, x);
    SampleFits(f, s, 0, x);
    FitsMarks(g, s, 0, x);
  }

  /** Forms that fit the same texts are the same. */
  lemma SameLanguage(f: Form, g: Form, x: char)
    requires f.Then? && g.Then? && Tells(f, x) && Tells(g, x) && forall s :: FitAlike(f, g, s)
    ensures Same(f, g)
  {
    hide Sample, Fits, Operators, Tells;
    forall s ensures FitAlike(g, f, s) { assert FitAlike(f, g, s); }
    OperatorsBound(f, g, x);
    OperatorsBound(g, f, x);
    forall s ensures Agree(f, g, s, x) {
      assert FitAlike(f, g, s) && FitAlike(g, f, s);
      if Sample(f, s, 0, x) { SampleOfOther(f, g, s, x); }
      if Sample(g, s, 0, x) { SampleOfOther(g, f, s, x); }
    }
    SameSamples(f, g, x);
  }

  // ----- from forms to patterns -----

  predicate IsGap(t: Term) { t.Star? || t.AnyChar? }

  lemma {:induction false} EndIff(ts: seq<Term>, i: nat)
    requires i <= |ts|
    ensures FormOf(ts, i).End? <==> forall j :: i <= j < |ts| ==> IsGap(ts[j])
    decreases |ts| - i
  {
    if i == |ts| {
    } else {
      EndIff(ts, i + 1);
    }
  }

  /** Only `*` and `?` stand for gaps. */
  lemma {:induction false} GapsArePlain(p: string, i: nat, ts: seq<Term>, a: nat)
    requires i <= |p| && a <= |ts| && IsTerms(p, i, ts, a) && forall j :: a <= j < |ts| ==> IsGap(ts[j])
    ensures forall j :: i <= j < |p| ==> p[j] == '*' || p[j] == '?'
    decreases |p| - i
  {
    if i == |p| {
    } else {
      assert IsGap(ts[a]);
      GapsArePlain(p, i + 1, ts, a + 1);
    }
  }

  lemma EndIsPlain(p: string)
    requires WellFormed(p, 0, |p|)
    requires FormOf(TermsFrom(p, 0), 0).End? || FormOf(Reversed(TermsFrom(p, 0)), 0).End?
    ensures Plain(p) && Plain(Reversed(p))
  {
    hide FormOf, TermsFrom, IsTerms;
    var ts := TermsFrom(p, 0);
    EndIff(ts, 0);
    EndIff(Reversed(ts), 0);
    assert forall j :: 0 <= j < |ts| ==> ts[j] == Reversed(ts)[|ts| - 1 - j];
    IsTermsOf(p, 0, ts, 0);
    GapsArePlain(p, 0, ts, 0);
  }

  /** An operator that takes some characters, but not `x`; `*` and `?` do not count. */
  ghost predicate Picks(t: Term, x: char) { IsGap(t) || (!Hits(t, x) && exists c :: Hits(t, c)) }

  lemma {:induction false} FormTells(ts: seq<Term>, i: nat, x: char)
    requires i <= |ts| && forall j :: 0 <= j < |ts| ==> Picks(ts[j], x)
    ensures Tells(FormOf(ts, i), x)
    decreases |ts| - i
  {
    if i == |ts| {
    } else {
      hide Hits;
      FormTells(ts, i + 1, x);
      assert Picks(ts[i], x);
    }
  }

  /** If the pattern is well-formed, its operators tell characters from `x`. */
  ghost predicate Spares(p: string, x: char) {
    WellFormed(p, 0, |p|) ==> var ts := TermsFrom(p, 0); forall j :: 0 <= j < |ts| ==> Picks(ts[j], x)
  }

  lemma PatternTells(p: string, x: char)
    requires WellFormed(p, 0, |p|) && Spares(p, x)
    ensures Tells(FormOf(TermsFrom(p, 0), 0), x) && Tells(FormOf(Reversed(TermsFrom(p, 0)), 0), x)
  {
    hide FormOf, Tells, Picks;
    var ts := TermsFrom(p, 0);
    FormTells(ts, 0, x);
    assert forall j :: 0 <= j < |ts| ==> Reversed(ts)[j] == ts[|ts| - 1 - j];
    FormTells(Reversed(ts), 0, x);
  }

  lemma ReversedTwice(s: string)
    ensures Reversed(Reversed(s)) == s
  {
  }

  /** Patterns that are well-formed both ways: if reversal commutes, they mirror. */
  lemma CommutingMirrors(p: string, x: char)
    requires WellFormed(p, 0, |p|) && WellFormed(Reversed(p), 0, |p|) && Spares(p, x) && Spares(Reversed(p), x)
    requires forall s :: Commutes(p, s)
    ensures Mirrors(p)
  {
    hide FormOf, TermsFrom, Fits, Same, Spares, Denotes, WellFormed;
    var f, g := FormOf(TermsFrom(Reversed(p), 0), 0), FormOf(Reversed(TermsFrom(p, 0)), 0);
    ReversedTwice(p);
    if f.End? {
      EndIsPlain(Reversed(p));
      PlainMirrors(p);
    } else if g.End? {
      EndIsPlain(p);
      PlainMirrors(p);
    } else {
      PatternTells(p, x);
      PatternTells(Reversed(p), x);
      forall s ensures FitAlike(f, g, s) {
        ReversedTwice(s);
        assert Commutes(p, Reversed(s));
        DenotesForm(Reversed(p), s);
        ReversedForm(p, Reversed(s));
      }
      SameLanguage(f, g, x);
    }
  }

  /** A well-formed pattern whose reversal is malformed denotes some text. */
  lemma DenotesSome(p: string, x: char) returns (s: string)
    requires WellFormed(p, 0, |p|) && !WellFormed(Reversed(p), 0, |p|) && Spares(p, x)
    ensures |s| > 0 && Denotes(p, s)
  {
    hide FormOf, TermsFrom, Fits, Spares, Denotes, WellFormed, Tells, Sample;
    var f := FormOf(TermsFrom(p, 0), 0);
    if f.End? {
      EndIsPlain(p);
      TermsOfPlain(Reversed(p));
      assert false;
    }
    PatternTells(p, x);
    s := SampleExists(f, x);
    SampleFits(f, s, 0, x);
    DenotesForm(p, s);
  }

  lemma MalformedDiffers(p: string, s: string)
    requires !WellFormed(p, 0, |p|) || !WellFormed(Reversed(p), 0, |p|)
    requires |s| > 0 && (Denotes(p, s) || Denotes(Reversed(p), Reversed(s)))
    ensures !Commutes(p, s)
  {
  }

  lemma CommutesBothWays(p: string, x: char)
    requires Spares(p, x) && Spares(Reversed(p), x) && forall s :: Commutes(p, s)
    ensures WellFormed(p, 0, |p|) <==> WellFormed(Reversed(p), 0, |p|)
  {
    hide WellFormed, Spares, Denotes, Commutes;
    ReversedTwice(p);
    if WellFormed(p, 0, |p|) && !WellFormed(Reversed(p), 0, |p|) {
      var s := DenotesSome(p, x);
      MalformedDiffers(p, s);
      assert false;
    } else if !WellFormed(p, 0, |p|) && WellFormed(Reversed(p), 0, |p|) {
      var s := DenotesSome(Reversed(p), x);
      ReversedTwice(s);
      MalformedDiffers(p, Reversed(s));
      assert false;
    }
  }

  lemma MalformedCommutes(p: string)
    requires !WellFormed(p, 0, |p|) && !WellFormed(Reversed(p), 0, |p|)
    ensures forall s :: Commutes(p, s)
  {
  }

  /**
   If no operator of the pattern or of its reversal takes `x`, but for `*` and `?`, and each takes something,
   suffix removal is right on all texts exactly when the pattern mirrors or is malformed both ways.
   */
  lemma AlwaysRightIff(p: string, x: char)
    requires Spares(p, x) && Spares(Reversed(p), x)
    ensures (forall s :: Right(p, s)) <==>
            Mirrors(p) || (!WellFormed(p, 0, |p|) && !WellFormed(Reversed(p), 0, |p|))
  {
    hide Right, Commutes, WellFormed, Spares, Same, FormOf, TermsFrom;
    RightForAllIff(p);
    if forall s :: Right(p, s) {
      CommutesBothWays(p, x);
      if WellFormed(p, 0, |p|) { CommutingMirrors(p, x); }
    }
    if Mirrors(p) {
      forall s ensures Right(p, s) { MirroredIsRight(p, s); }
    } else if !WellFormed(p, 0, |p|) && !WellFormed(Reversed(p), 0, |p|) {
      MalformedCommutes(p);
    }
  }

  lemma FormsOfExample()
    ensures FormOf([Star, Star, Lit('*'), Star], 0) == FormOf([Star, Lit('*'), Star, Star], 0)
  {
    var ts, us := [Star, Star, Lit('*'), Star], [Star, Lit('*'), Star, Star];
    assert FormOf(ts, 3) == End(0, true);
    assert FormOf(ts, 1) == Then(0, true, Lit('*'), End(0, true));
    assert FormOf(us, 2) == End(0, true);
    assert FormOf(us, 1) == Then(0, false, Lit('*'), End(0, true));
  }

  /** A pattern whose stars mirror only as gaps: two before the escaped one and one behind it, both ways. */
  lemma EscapedStarMirrors()
    ensures Mirrors("**\\**") && Reversed(TermsFrom("**\\**", 0)) != TermsFrom(Reversed("**\\**"), 0)
  {
    var p := "**\\**";
    assert Reversed(p) == p;
    assert WellFormed(p, 4, 5) && WellFormed(p, 2, 5) && WellFormed(p, 1, 5) && WellFormed(p, 0, 5);
    assert TermsFrom(p, 4) == [Star];
    assert TermsFrom(p, 2) == [Lit('*'), Star];
    assert TermsFrom(p, 1) == [Star, Lit('*'), Star];
    assert TermsFrom(p, 0) == [Star, Star, Lit('*'), Star];
    hide TermsFrom, WellFormed, FormOf, Same;
    var ts := TermsFrom(p, 0);
    assert Reversed(ts) == [Star, Lit('*'), Star, Star] by {
      assert forall i :: 0 <= i < 4 ==> Reversed(ts)[i] == [Star, Lit('*'), Star, Star][i];
    }
    assert Reversed(ts)[1] != ts[1];
    FormsOfExample();
    SameReflexive(FormOf(ts, 0));
  }
}
