/**
 The shell glob matcher of envsubst/path/match.go.

 `ParseTerm` gives the grammar of patterns and `Matches`, independently of any matching strategy,
 the language a pattern denotes.  `Match` is the source's greedy chunk-by-chunk algorithm, proved
 to decide that language.  A Go substring is a view of its string, so a piece of a pattern is
 written `p, i, n`: the characters of `p` from index `i` up to index `n`.
 */
module Glob {

  // ----- the pattern grammar -----

  datatype Range = Range(lo: char, hi: char)

  datatype Term = Star | AnyChar | Class(negated: bool, ranges: seq<Range>) | Lit(c: char)

  datatype Escape = BadEscape | Escape(c: char, next: nat)
  datatype RangeRead = BadRange | OneRange(range: Range, next: nat)
  datatype RangesRead = BadRanges | Ranges(ranges: seq<Range>, next: nat)
  datatype TermRead = BadTerm | OneTerm(term: Term, next: nat)

  /** A possibly escaped character of a class; some text has to follow it. */
  function GetEsc(p: string, i: nat, n: nat): (r: Escape)
    requires i <= n <= |p|
    ensures r.Escape? ==> i < r.next < n
  {
    if i == n || p[i] == '-' || p[i] == ']' then BadEscape
    else if p[i] == '\\' then
      if i + 2 < n then Escape(p[i + 1], i + 2) else BadEscape
    else
      if i + 1 < n then Escape(p[i], i + 1) else BadEscape
  }

  /** One `lo` or `lo-hi` item of a class. */
  function ParseRange(p: string, i: nat, n: nat): (r: RangeRead)
    requires i <= n <= |p|
    ensures r.OneRange? ==> i < r.next < n
  {
    var lo := GetEsc(p, i, n);
    if lo.BadEscape? then BadRange
    else if p[lo.next] != '-' then OneRange(Range(lo.c, lo.c), lo.next)
    else
      var hi := GetEsc(p, lo.next + 1, n);
      if hi.BadEscape? then BadRange else OneRange(Range(lo.c, hi.c), hi.next)
  }

  /** The items of a class up to its closing bracket; `first` forbids an empty class. */
  function ParseRanges(p: string, i: nat, n: nat, first: bool): (r: RangesRead)
    requires i <= n <= |p|
    ensures r.Ranges? ==> i < r.next <= n
    decreases n - i
  {
    if !first && i < n && p[i] == ']' then Ranges([], i + 1)
    else
      var head := ParseRange(p, i, n);
      if head.BadRange? then BadRanges
      else
        var tail := ParseRanges(p, head.next, n, false);
        if tail.BadRanges? then BadRanges else Ranges([head.range] + tail.ranges, tail.next)
  }

  predicate IsNegated(p: string, i: nat, n: nat)
    requires i < n <= |p|
  {
    i + 1 < n && p[i + 1] == '^'
  }

  /** Where the items of the class opened at `i` start. */
  function ClassBody(p: string, i: nat, n: nat): (body: nat)
    requires i < n <= |p|
    ensures i < body <= n
  {
    if IsNegated(p, i, n) then i + 2 else i + 1
  }

  function ParseTerm(p: string, i: nat, n: nat): (r: TermRead)
    requires i < n <= |p|
    ensures r.OneTerm? ==> i < r.next <= n
    ensures r.OneTerm? ==> (r.term.Star? <==> p[i] == '*')
  {
    if p[i] == '*' then OneTerm(Star, i + 1)
    else if p[i] == '?' then OneTerm(AnyChar, i + 1)
    else if p[i] == '[' then
      var items := ParseRanges(p, ClassBody(p, i, n), n, true);
      if items.BadRanges? then BadTerm else OneTerm(Class(IsNegated(p, i, n), items.ranges), items.next)
    else if p[i] == '\\' then
      if i + 1 < n then OneTerm(Lit(p[i + 1]), i + 2) else BadTerm
    else OneTerm(Lit(p[i]), i + 1)
  }

  predicate WellFormed(p: string, i: nat, n: nat)
    requires i <= n <= |p|
    decreases n - i
  {
    i == n || (ParseTerm(p, i, n).OneTerm? && WellFormed(p, ParseTerm(p, i, n).next, n))
  }

  // ----- the language of a pattern -----

  predicate InRanges(ranges: seq<Range>, c: char) {
    |ranges| > 0 && (ranges[0].lo <= c <= ranges[0].hi || InRanges(ranges[1..], c))
  }

  /** Does a single-character term accept `c`? */
  predicate Hits(t: Term, c: char) {
    match t
    case Star => false
    case AnyChar => true
    case Class(negated, ranges) => InRanges(ranges, c) != negated
    case Lit(d) => c == d
  }

  /**
   The text of `s` from `k` on belongs to the pattern piece: `*` stands for any sequence, every
   other term for one character that it accepts.
   */
  ghost predicate Matches(p: string, i: nat, n: nat, s: string, k: nat)
    requires i <= n <= |p| && k <= |s|
    decreases n - i
  {
    if i == n then k == |s|
    else
      var head := ParseTerm(p, i, n);
      if head.BadTerm? then false
      else if head.term.Star? then exists m :: k <= m <= |s| && Matches(p, head.next, n, s, m)
      else k < |s| && Hits(head.term, s[k]) && Matches(p, head.next, n, s, k + 1)
  }

  /** The language of a whole pattern; a malformed pattern denotes nothing. */
  ghost predicate Denotes(p: string, s: string) {
    WellFormed(p, 0, |p|) && Matches(p, 0, |p|, s, 0)
  }

  // ----- chunks -----

  /** How many characters scanChunk's inner loop passes in one round. */
  function Stride(p: string, i: nat, n: nat): (k: nat)
    requires i < n <= |p|
    ensures 1 <= k <= n - i
  {
    if p[i] == '\\' && i + 1 < n then 2 else 1
  }

  function InRangeAfter(c: char, inRange: bool): bool {
    if c == '[' then true else if c == ']' then false else inRange
  }

  /** Where scanChunk's inner loop stops: at the first `*` that it sees outside a class. */
  function ChunkEnd(p: string, i: nat, n: nat, inRange: bool): (j: nat)
    requires i <= n <= |p|
    ensures i <= j <= n
    ensures j < n ==> p[j] == '*'
    decreases n - i
  {
    if i == n || (p[i] == '*' && !inRange) then i
    else ChunkEnd(p, i + Stride(p, i, n), n, InRangeAfter(p[i], inRange))
  }

  /** A chunk holds single-character operators only. */
  predicate IsChunk(p: string, i: nat, j: nat)
    requires i <= j <= |p|
  {
    ChunkEnd(p, i, j, false) == j
  }

  /** The operators of a chunk accept the characters of `s` from `k` on, one by one. */
  predicate ChunkHits(p: string, i: nat, j: nat, s: string, k: nat)
    requires i <= j <= |p| && k <= |s|
    decreases j - i
  {
    i == j ||
    (var head := ParseTerm(p, i, j);
     head.OneTerm? && k < |s| && Hits(head.term, s[k]) && ChunkHits(p, head.next, j, s, k + 1))
  }

  /** The number of operators of a chunk, read as far as it is well-formed. */
  function Width(p: string, i: nat, j: nat): nat
    requires i <= j <= |p|
    decreases j - i
  {
    if i == j || ParseTerm(p, i, j).BadTerm? then 0 else 1 + Width(p, ParseTerm(p, i, j).next, j)
  }

  // ----- reading a term does not depend on what follows it -----

  lemma GetEscLimit(p: string, i: nat, j: nat, n: nat)
    requires i <= j <= n <= |p|
    ensures GetEsc(p, i, j).Escape? ==> GetEsc(p, i, n) == GetEsc(p, i, j)
    ensures GetEsc(p, i, n).Escape? && GetEsc(p, i, n).next < j ==> GetEsc(p, i, j) == GetEsc(p, i, n)
    ensures GetEsc(p, i, n).Escape? ==> ChunkEnd(p, i, n, true) == ChunkEnd(p, GetEsc(p, i, n).next, n, true)
  {
  }

  lemma ParseRangeLimit(p: string, i: nat, j: nat, n: nat)
    requires i <= j <= n <= |p|
    ensures ParseRange(p, i, j).OneRange? ==> ParseRange(p, i, n) == ParseRange(p, i, j)
    ensures ParseRange(p, i, n).OneRange? && ParseRange(p, i, n).next < j ==>
              ParseRange(p, i, j) == ParseRange(p, i, n)
  {
  }

  lemma ParseRangeScan(p: string, i: nat, n: nat)
    requires i <= n <= |p| && ParseRange(p, i, n).OneRange?
    ensures ChunkEnd(p, i, n, true) == ChunkEnd(p, ParseRange(p, i, n).next, n, true)
  {
    GetEscLimit(p, i, n, n);
    var q := GetEsc(p, i, n).next;
    if p[q] == '-' {
      GetEscLimit(p, q + 1, n, n);
    }
  }

  lemma {:induction false} ParseRangesLimit(p: string, i: nat, j: nat, n: nat, first: bool)
    requires i <= j <= n <= |p|
    ensures ParseRanges(p, i, j, first).Ranges? ==> ParseRanges(p, i, n, first) == ParseRanges(p, i, j, first)
    ensures ParseRanges(p, i, n, first).Ranges? && ParseRanges(p, i, n, first).next <= j ==>
              ParseRanges(p, i, j, first) == ParseRanges(p, i, n, first)
    decreases n - i
  {
    if !first && i < n && p[i] == ']' {
    } else {
      ParseRangeLimit(p, i, j, n);
      var head := ParseRange(p, i, n);
      if head.OneRange? && head.next < j {
        ParseRangesLimit(p, head.next, j, n, false);
      }
    }
  }

  lemma {:induction false} ParseRangesScan(p: string, i: nat, n: nat, first: bool)
    requires i <= n <= |p| && ParseRanges(p, i, n, first).Ranges?
    ensures ChunkEnd(p, i, n, true) == ChunkEnd(p, ParseRanges(p, i, n, first).next, n, false)
    decreases n - i
  {
    if !first && i < n && p[i] == ']' {
    } else {
      ParseRangeScan(p, i, n);
      ParseRangesScan(p, ParseRange(p, i, n).next, n, false);
    }
  }

  lemma ParseTermLimit(p: string, i: nat, j: nat, n: nat)
    requires i < j <= n <= |p|
    ensures ParseTerm(p, i, j).OneTerm? ==> ParseTerm(p, i, n) == ParseTerm(p, i, j)
    ensures ParseTerm(p, i, n).OneTerm? && ParseTerm(p, i, n).next <= j ==> ParseTerm(p, i, j) == ParseTerm(p, i, n)
  {
    if p[i] == '[' {
      if ClassBody(p, i, n) <= j {
        assert ClassBody(p, i, j) == ClassBody(p, i, n);
        ParseRangesLimit(p, ClassBody(p, i, n), j, n, true);
      } else {
        assert ClassBody(p, i, j) == j;
        assert ParseRanges(p, j, j, true).BadRanges?;
      }
    }
  }

  lemma ParseTermScan(p: string, i: nat, n: nat)
    requires i < n <= |p| && ParseTerm(p, i, n).OneTerm? && p[i] != '*'
    ensures ChunkEnd(p, i, n, false) == ChunkEnd(p, ParseTerm(p, i, n).next, n, false)
  {
    if p[i] == '[' {
      ParseRangesScan(p, ClassBody(p, i, n), n, true);
    }
  }

  lemma {:induction false} ChunkEndIsChunk(p: string, i: nat, n: nat, inRange: bool)
    requires i <= n <= |p|
    ensures ChunkEnd(p, i, ChunkEnd(p, i, n, inRange), inRange) == ChunkEnd(p, i, n, inRange)
    decreases n - i
  {
    if i == n || (p[i] == '*' && !inRange) {
    } else {
      ChunkEndIsChunk(p, i + Stride(p, i, n), n, InRangeAfter(p[i], inRange));
    }
  }

  /** scanChunk cuts a pattern at a term boundary, whatever brackets and escapes it holds. */
  lemma {:induction false} CutIsTermBoundary(p: string, i: nat, n: nat)
    requires i <= n <= |p|
    ensures WellFormed(p, i, n) <==>
            WellFormed(p, i, ChunkEnd(p, i, n, false)) && WellFormed(p, ChunkEnd(p, i, n, false), n)
    decreases n - i
  {
    var j := ChunkEnd(p, i, n, false);
    if i < j {
      ParseTermLimit(p, i, j, n);
      var head := ParseTerm(p, i, n);
      if head.OneTerm? {
        ParseTermScan(p, i, n);
        CutIsTermBoundary(p, head.next, n);
      }
    }
  }

  // ----- star, chunk and rest -----

  /** A chunk takes one character per operator and hands the remainder to the rest of the pattern. */
  lemma {:induction false} ChunkThenRest(p: string, i: nat, j: nat, n: nat, s: string, k: nat)
    requires i <= j <= n <= |p| && k <= |s|
    requires IsChunk(p, i, j) && WellFormed(p, i, j)
    ensures ChunkHits(p, i, j, s, k) ==> k + Width(p, i, j) <= |s|
    ensures Matches(p, i, n, s, k) <==> ChunkHits(p, i, j, s, k) && Matches(p, j, n, s, k + Width(p, i, j))
    decreases j - i
  {
    if i < j {
      var head := ParseTerm(p, i, j);
      ParseTermLimit(p, i, j, n);
      ParseTermScan(p, i, j);
      if k < |s| {
        ChunkThenRest(p, head.next, j, n, s, k + 1);
      }
    }
  }

  lemma {:induction false} ChunkHitsWellFormed(p: string, i: nat, j: nat, s: string, k: nat)
    requires i <= j <= |p| && k <= |s|
    requires ChunkHits(p, i, j, s, k)
    ensures WellFormed(p, i, j) && k + Width(p, i, j) <= |s|
    decreases j - i
  {
    if i < j {
      ChunkHitsWellFormed(p, ParseTerm(p, i, j).next, j, s, k + 1);
    }
  }

  /** The first index at or after `i` that is not a star. */
  function StarsEnd(p: string, i: nat, n: nat): (j: nat)
    requires i <= n <= |p|
    ensures i <= j <= n
    ensures j < n ==> p[j] != '*'
    ensures i < j <==> i < n && p[i] == '*'
    decreases n - i
  {
    if i < n && p[i] == '*' then StarsEnd(p, i + 1, n) else i
  }

  ghost predicate MatchesLater(p: string, i: nat, n: nat, s: string, k: nat)
    requires i <= n <= |p| && k <= |s|
  {
    exists m :: k <= m <= |s| && Matches(p, i, n, s, m)
  }

  /** Any number of leading stars means: skip some text, then match what follows the stars. */
  lemma {:induction false} StarsSkipText(p: string, i: nat, n: nat, s: string, k: nat)
    requires i < n <= |p| && k <= |s| && p[i] == '*'
    ensures Matches(p, i, n, s, k) <==> MatchesLater(p, StarsEnd(p, i, n), n, s, k)
    decreases n - i
  {
    var e := StarsEnd(p, i, n);
    assert e == StarsEnd(p, i + 1, n);
    assert Matches(p, i, n, s, k) <==> MatchesLater(p, i + 1, n, s, k);
    if i + 1 < n && p[i + 1] == '*' {
      if MatchesLater(p, i + 1, n, s, k) {
        var m :| k <= m <= |s| && Matches(p, i + 1, n, s, m);
        StarsSkipText(p, i + 1, n, s, m);
      }
      if MatchesLater(p, e, n, s, k) {
        StarsSkipText(p, i + 1, n, s, k);
      }
    }
  }

  lemma {:induction false} StarsWellFormed(p: string, i: nat, n: nat)
    requires i <= n <= |p|
    ensures WellFormed(p, i, n) <==> WellFormed(p, StarsEnd(p, i, n), n)
    decreases n - i
  {
    if i < n && p[i] == '*' {
      StarsWellFormed(p, i + 1, n);
    }
  }

  /** The piece from `i` is cut by scanChunk into stars, a chunk from `a` to `b`, and the rest from `b`. */
  predicate IsCut(p: string, i: nat, n: nat, a: nat, b: nat)
    requires i < n <= |p|
  {
    && a == StarsEnd(p, i, n)
    && b == ChunkEnd(p, a, n, false)
  }

  lemma {:induction false} CutShape(p: string, i: nat, n: nat, a: nat, b: nat)
    requires i < n <= |p| && IsCut(p, i, n, a, b)
    ensures i <= a <= b <= n && i < b
    ensures IsChunk(p, a, b)
    ensures a == b ==> b == n && i < a
    ensures WellFormed(p, i, n) <==> WellFormed(p, a, b) && WellFormed(p, b, n)
  {
    ChunkEndIsChunk(p, a, n, false);
    StarsWellFormed(p, i, n);
    CutIsTermBoundary(p, a, n);
  }

  /** The test by which `Match` settles for a position: the last chunk has to use up the name. */
  predicate Placeable(p: string, a: nat, b: nat, n: nat, s: string, k: nat)
    requires a <= b <= n <= |p| && k <= |s|
  {
    ChunkHits(p, a, b, s, k) && (b < n || k + Width(p, a, b) == |s|)
  }

  /** The names of the piece that starts at `i` within a pattern. */
  ghost predicate Accepts(p: string, i: nat, n: nat, s: string, k: nat)
    requires i <= n <= |p| && k <= |s|
  {
    WellFormed(p, i, n) && Matches(p, i, n, s, k)
  }

  lemma {:induction false} AcceptedIsPlaced(p: string, i: nat, n: nat, a: nat, b: nat, s: string, k: nat)
    requires i < n <= |p| && k <= |s| && IsCut(p, i, n, a, b)
    requires Accepts(p, i, n, s, k)
    ensures exists m :: k <= m <= m + Width(p, a, b) <= |s| && (i == a ==> m == k)
                        && Placeable(p, a, b, n, s, m) && Accepts(p, b, n, s, m + Width(p, a, b))
  {
    CutShape(p, i, n, a, b);
    var m := k;
    if i < a {
      StarsSkipText(p, i, n, s, k);
      m :| k <= m <= |s| && Matches(p, a, n, s, m);
    }
    ChunkThenRest(p, a, b, n, s, m);
    assert Placeable(p, a, b, n, s, m);
  }

  lemma {:induction false} PlacedIsAccepted(p: string, i: nat, n: nat, a: nat, b: nat, s: string, k: nat, m: nat)
    requires i < n <= |p| && k <= m <= |s| && IsCut(p, i, n, a, b) && (i == a ==> m == k)
    requires Placeable(p, a, b, n, s, m)
    requires m + Width(p, a, b) <= |s| && Accepts(p, b, n, s, m + Width(p, a, b))
    ensures Accepts(p, i, n, s, k)
  {
    CutShape(p, i, n, a, b);
    ChunkHitsWellFormed(p, a, b, s, m);
    ChunkThenRest(p, a, b, n, s, m);
    if i < a {
      assert Matches(p, a, n, s, m);
      StarsSkipText(p, i, n, s, k);
    }
  }

  /** A piece that starts with a star accepts any extra text in front of what it accepts. */
  lemma {:induction false} StarAbsorbs(p: string, i: nat, n: nat, s: string, k: nat, m: nat)
    requires i < n <= |p| && k <= m <= |s| && p[i] == '*'
    requires Accepts(p, i, n, s, m)
    ensures Accepts(p, i, n, s, k)
  {
  }

  /** Greedy placement: the leftmost acceptable position of a chunk never loses a match. */
  lemma {:induction false} LeftmostSuffices(p: string, i: nat, n: nat, a: nat, b: nat, s: string, k: nat, m: nat)
    requires i < n <= |p| && k <= m <= |s| && IsCut(p, i, n, a, b) && (i == a ==> m == k)
    requires Placeable(p, a, b, n, s, m)
    requires forall m' :: k <= m' < m ==> !Placeable(p, a, b, n, s, m')
    ensures m + Width(p, a, b) <= |s|
    ensures Accepts(p, i, n, s, k) <==> Accepts(p, b, n, s, m + Width(p, a, b))
  {
    CutShape(p, i, n, a, b);
    ChunkHitsWellFormed(p, a, b, s, m);
    var w := Width(p, a, b);
    if Accepts(p, b, n, s, m + w) {
      PlacedIsAccepted(p, i, n, a, b, s, k, m);
    }
    if Accepts(p, i, n, s, k) {
      AcceptedIsPlaced(p, i, n, a, b, s, k);
      var m' :| k <= m' <= m' + w <= |s| && (i == a ==> m' == k)
                && Placeable(p, a, b, n, s, m') && Accepts(p, b, n, s, m' + w);
      if b < n {
        StarAbsorbs(p, b, n, s, m + w, m' + w);
      }
    }
  }

  // ----- the algorithms of match.go -----

  /** Returns where the chunk starts and ends; the stars before it are `p[i..a]`. */
  method ScanChunk(p: string, i: nat, n: nat) returns (star: bool, a: nat, b: nat)
    requires i < n <= |p|
    ensures IsCut(p, i, n, a, b)
    ensures star <==> i < a
  {
    star, a := false, i;
    while a < n && p[a] == '*'
      invariant i <= a <= n
      invariant StarsEnd(p, a, n) == StarsEnd(p, i, n)
      invariant star <==> i < a
    {
      a := a + 1;
      star := true;
    }
    var inRange := false;
    b := a;
    while b < n
      invariant a <= b <= n
      invariant ChunkEnd(p, b, n, inRange) == ChunkEnd(p, a, n, false)
    {
      if p[b] == '\\' {
        if b + 1 < n {
          b := b + 1;
        }
      } else if p[b] == '[' {
        inRange := true;
      } else if p[b] == ']' {
        inRange := false;
      } else if p[b] == '*' {
        if !inRange {
          break;
        }
      }
      b := b + 1;
    }
  }

  /** Reads the class items from `i` on against `r`. */
  method MatchClass(p: string, i: nat, n: nat, r: char) returns (next: nat, matched: bool, err: bool)
    requires i <= n <= |p|
    ensures err <==> ParseRanges(p, i, n, true).BadRanges?
    ensures !err ==> next == ParseRanges(p, i, n, true).next
    ensures !err ==> matched == InRanges(ParseRanges(p, i, n, true).ranges, r)
  {
    next, matched, err := i, false, false;
    var nrange := 0;
    ghost var all := ParseRanges(p, i, n, true);
    while true
      invariant i <= next <= n && nrange >= 0
      invariant all.Ranges? <==> ParseRanges(p, next, n, nrange == 0).Ranges?
      invariant all.Ranges? ==> all.next == ParseRanges(p, next, n, nrange == 0).next
      invariant all.Ranges? ==>
                  (InRanges(all.ranges, r) <==> matched || InRanges(ParseRanges(p, next, n, nrange == 0).ranges, r))
      decreases n - next
    {
      if next < n && p[next] == ']' && nrange > 0 {
        next := next + 1;
        return;
      }
      ghost var start := next;
      var esc := GetEsc(p, next, n);
      if esc.BadEscape? {
        err := true;
        return;
      }
      var lo, hi := esc.c, esc.c;
      next := esc.next;
      if p[next] == '-' {
        esc := GetEsc(p, next + 1, n);
        if esc.BadEscape? {
          err := true;
          return;
        }
        hi := esc.c;
        next := esc.next;
      }
      assert ParseRange(p, start, n) == OneRange(Range(lo, hi), next);
      if lo <= r <= hi {
        matched := true;
      }
      nrange := nrange + 1;
    }
  }

  /** One round of matchChunk's loop: the operator at `i` against `r`. */
  method MatchTerm(p: string, i: nat, n: nat, r: char) returns (next: nat, ok: bool, err: bool)
    requires i < n <= |p| && p[i] != '*'
    ensures err <==> ParseTerm(p, i, n).BadTerm?
    ensures ok <==> !err && Hits(ParseTerm(p, i, n).term, r)
    ensures ok ==> next == ParseTerm(p, i, n).next
  {
    if p[i] == '[' {
      next := i + 1;
      var notNegated := true;
      if next < n && p[next] == '^' {
        notNegated := false;
        next := next + 1;
      }
      var matched;
      next, matched, err := MatchClass(p, next, n, r);
      ok := !err && matched == notNegated;
    } else if p[i] == '?' {
      return i + 1, true, false;
    } else {
      next := i;
      if p[next] == '\\' {
        next := next + 1;
        if next == n {
          return next, false, true;
        }
      }
      return next + 1, p[next] == r, false;
    }
  }

  /** Matches the chunk from `a` to `b` against `s` from `k` on; `t` is the position after the match. */
  method MatchChunk(p: string, a: nat, b: nat, s: string, k: nat) returns (t: nat, ok: bool, err: bool)
    requires a <= b <= |p| && k <= |s| && IsChunk(p, a, b)
    ensures ok <==> ChunkHits(p, a, b, s, k)
    ensures ok ==> t == k + Width(p, a, b) <= |s|
    ensures err ==> !ok && !WellFormed(p, a, b)
  {
    var c := a;
    t := k;
    while c < b
      invariant a <= c <= b && k <= t <= |s|
      invariant IsChunk(p, c, b)
      invariant ChunkHits(p, a, b, s, k) <==> ChunkHits(p, c, b, s, t)
      invariant k + Width(p, a, b) == t + Width(p, c, b)
      invariant WellFormed(p, a, b) <==> WellFormed(p, c, b)
      decreases b - c
    {
      if t == |s| {
        return t, false, false;
      }
      var next, hit, bad := MatchTerm(p, c, b, s[t]);
      if bad {
        return t, false, true;
      }
      if !hit {
        return t, false, false;
      }
      ParseTermScan(p, c, b);
      c, t := next, t + 1;
    }
    return t, true, false;
  }

  /**
   The greedy matcher decides the pattern's language, for every pattern and every name: it
   answers true exactly on the names denoted, and reports an error only for malformed patterns.
   */
  method Match(pattern: string, name: string) returns (matched: bool, err: bool)
    ensures matched <==> Denotes(pattern, name)
    ensures err ==> !matched && !WellFormed(pattern, 0, |pattern|)
  {
    var n, i, k := |pattern|, 0, 0;
    label Pattern:
    while i < n
      invariant 0 <= i <= n && 0 <= k <= |name|
      invariant Denotes(pattern, name) <==> Accepts(pattern, i, n, name, k)
      invariant WellFormed(pattern, 0, n) ==> WellFormed(pattern, i, n)
      decreases n - i
    {
      var star, a, b := ScanChunk(pattern, i, n);
      CutShape(pattern, i, n, a, b);
      if star && a == b {
        PlacedIsAccepted(pattern, i, n, a, b, name, k, |name|);
        return true, false;
      }
      var t, ok, bad := MatchChunk(pattern, a, b, name, k);
      if ok && (t == |name| || b < n) {
        LeftmostSuffices(pattern, i, n, a, b, name, k, k);
        i, k := b, t;
        continue;
      }
      if bad {
        return false, true;
      }
      if star {
        for m := k to |name|
          invariant forall m' :: k <= m' <= m ==> !Placeable(pattern, a, b, n, name, m')
        {
          t, ok, bad := MatchChunk(pattern, a, b, name, m + 1);
          if ok {
            if b == n && t < |name| {
              continue;
            }
            LeftmostSuffices(pattern, i, n, a, b, name, k, m + 1);
            i, k := b, t;
            continue Pattern;
          }
          if bad {
            return false, true;
          }
        }
      }
      if Accepts(pattern, i, n, name, k) {
        AcceptedIsPlaced(pattern, i, n, a, b, name, k);
      }
      return false, false;
    }
    return k == |name|, false;
  }

  // ----- the operators, as they are written -----

  /** A pattern that is one operator denotes the single characters that the operator takes. */
  lemma OneOperator(p: string, t: Term, s: string)
    requires |p| > 0 && ParseTerm(p, 0, |p|) == OneTerm(t, |p|) && !t.Star?
    ensures Denotes(p, s) <==> |s| == 1 && Hits(t, s[0])
  {
    assert WellFormed(p, |p|, |p|);
    if |s| > 0 { assert Matches(p, |p|, |p|, s, 1) <==> |s| == 1; }
  }

  /** Characters that stand for themselves in a class. */
  predicate IsClassChar(c: char) { c != '-' && c != ']' && c != '\\' && c != '^' }

  lemma RangeParses(p: string, k: nat, lo: char, hi: char)
    requires k + 4 == |p| && p[k] == lo && p[k + 1] == '-' && p[k + 2] == hi && p[k + 3] == ']'
    requires IsClassChar(lo) && IsClassChar(hi)
    ensures ParseRanges(p, k, |p|, true) == Ranges([Range(lo, hi)], |p|)
  {
    assert ParseRanges(p, k + 3, |p|, false) == Ranges([], k + 4);
  }

  lemma InOneRange(lo: char, hi: char, c: char)
    ensures InRanges([Range(lo, hi)], c) <==> lo <= c <= hi
  {
    var rs := [Range(lo, hi)];
    assert rs[0].lo <= c <= rs[0].hi <==> lo <= c <= hi;
    assert !InRanges(rs[1..], c);
  }

  /** `[lo-hi]` stands for the characters between the two, ends included. */
  lemma RangeDenotes(lo: char, hi: char, s: string)
    requires IsClassChar(lo) && IsClassChar(hi)
    ensures Denotes(['[', lo, '-', hi, ']'], s) <==> |s| == 1 && lo <= s[0] <= hi
  {
    var p := ['[', lo, '-', hi, ']'];
    RangeParses(p, 1, lo, hi);
    OneOperator(p, Class(false, [Range(lo, hi)]), s);
    if |s| > 0 { InOneRange(lo, hi, s[0]); }
  }

  /** `[^lo-hi]` stands for all others. */
  lemma NegatedDenotes(lo: char, hi: char, s: string)
    requires IsClassChar(lo) && IsClassChar(hi)
    ensures Denotes(['[', '^', lo, '-', hi, ']'], s) <==> |s| == 1 && !(lo <= s[0] <= hi)
  {
    var p := ['[', '^', lo, '-', hi, ']'];
    RangeParses(p, 2, lo, hi);
    OneOperator(p, Class(true, [Range(lo, hi)]), s);
    if |s| > 0 { InOneRange(lo, hi, s[0]); }
  }

  /** An escaped character stands for itself, whatever it is. */
  lemma EscapeDenotes(c: char, s: string)
    ensures Denotes(['\\', c], s) <==> s == [c]
  {
    OneOperator(['\\', c], Lit(c), s);
  }

  /** `?` stands for any character, and a character that means nothing else for itself. */
  lemma CharDenotes(c: char, s: string)
    requires c !in "*[\\"
    ensures Denotes([c], s) <==> |s| == 1 && (c == '?' || s[0] == c)
  {
    OneOperator([c], if c == '?' then AnyChar else Lit(c), s);
  }

  /** `*` stands for any text. */
  lemma StarDenotes(s: string)
    ensures Denotes("*", s)
  {
    assert Matches("*", 1, 1, s, |s|);
  }
}
