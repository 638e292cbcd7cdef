/**
 Which texts belong to which tree, said without the parser: `Spells` relates a tree to the texts that
 spell it, with every optional spelling allowed.  `ParsesIffSpelt` shows that the parser finds exactly
 that tree, and fails exactly on the texts that spell none.
 */
module Spelling {
  import opened Scan
  import opened Parse
  import opened Printer
  import Image

  // ----- texts -----

  /** How text is written: which characters end it, and whether `$$`, and `\/` and `\\`, stand for one. */
  datatype Quote = Quote(stops: string, dollar: bool, slash: bool)

  /** Text between substitutions. */
  const OUTSIDE := Quote("", true, false)
  /** Text of a default, a removed pattern or a length. */
  const RAW := Quote("}", false, false)
  const OFFSET := Quote(":}", false, false)
  const PATTERN := Quote("/", true, true)
  const REPLACEMENT := Quote("}", true, true)

  predicate Has(src: string, i: nat, c: char) { i < |src| && src[i] == c }

  predicate Opens(src: string, i: nat) { Has(src, i, '$') && Has(src, i + 1, '{') }

  /** Two characters that stand for the second. */
  predicate Pair(q: Quote, src: string, i: nat) {
    || (q.dollar && Has(src, i, '$') && Has(src, i + 1, '$'))
    || (q.slash && Has(src, i, '\\') && (Has(src, i + 1, '/') || Has(src, i + 1, '\\')))
  }

  predicate Ends(src: string, i: nat) { i >= |src| || src[i] == EOF }

  /** Text cannot go on at `i`. */
  predicate Stops(q: Quote, src: string, i: nat) {
    Ends(src, i) || Opens(src, i) || (!Pair(q, src, i) && src[i] in q.stops)
  }

  /** The text `t` from `m` on is written from `i` to `j`. */
  predicate TextAt(q: Quote, t: string, m: nat, src: string, i: nat, j: nat)
    requires m <= |t|
    decreases |t| - m
  {
    if m == |t| then i == j <= |src|
    else
      && !Stops(q, src, i)
      && if Pair(q, src, i) then t[m] == src[i + 1] && TextAt(q, t, m + 1, src, i + 2, j)
         else t[m] == src[i] && TextAt(q, t, m + 1, src, i + 1, j)
  }

  // ----- trees -----

  /** From `p` to `r` there is one `c` after the other, and no more. */
  predicate Repeated(c: char, src: string, p: nat, r: nat) {
    p < r <= |src| && (forall k :: p <= k < r ==> src[k] == c) && !Has(src, r, c)
  }

  /** A text as long as it goes, or a substitution, written from `i` to `j`. */
  ghost predicate ItemAt(a: Node, q: Quote, src: string, i: nat, j: nat)
    decreases a, 5
  {
    match a
    case Text(t) => |t| > 0 && TextAt(q, t, 0, src, i, j) && Stops(q, src, j)
    case Func(_, _, _) => Opens(src, i) && FuncSpelt(a, src, i + 2, j)
    case List(_) => false
  }

  /** A substitution past its opening bracket, up to and with its closing one. */
  ghost predicate FuncSpelt(n: Node, src: string, i: nat, j: nat)
    requires n.Func?
    decreases n, 4
  {
    && i < j <= |src| && src[j - 1] == '}' && IsIdent(n.param)
    && (|| (IsLen(n) && Has(src, i, '#') && At(src, i + 1, n.param) && j == i + |n.param| + 2)
        || (At(src, i, n.param) && At(src, i + |n.param|, n.name)
            && OperandsSpelt(n, src, i + |n.param| + |n.name|, j)))
  }

  /** What follows the operator, up to and with the closing bracket. */
  ghost predicate OperandsSpelt(n: Node, src: string, m: nat, j: nat)
    requires n.Func? && 0 < j <= |src|
    decreases n, 3
  {
    || ((|n.name| == 0 || IsCasing(n.name)) && |n.args| == 0 && j == m + 1)
    || (IsDefault(n.name) && PiecesSpelt(n, 0, src, m, j - 1))
    || (IsRemove(n.name) && |n.args| == 1 && (|n.name| == 1 ==> !Has(src, m, n.name[0]))
        && ItemAt(n.args[0], RAW, src, m, j - 1))
    || (IsSubstr(n.name) && !IsDefaultChar(PeekAt(src, m)) && SubstrSpelt(n, src, m, j - 1))
    || (IsReplace(n.name) && (|n.name| == 1 ==> PeekAt(src, m) !in "/#%") && ReplaceSpelt(n, src, m, j - 1))
  }

  /** The pieces of a default from `k` on, one after the other. */
  ghost predicate PiecesSpelt(n: Node, k: nat, src: string, m: nat, j: nat)
    requires n.Func? && k <= |n.args|
    decreases n, 2, |n.args| - k, 0
  {
    if k == |n.args| then m == j else exists p :: PieceSpelt(n, k, src, m, p, j)
  }

  ghost predicate PieceSpelt(n: Node, k: nat, src: string, m: nat, p: nat, j: nat)
    requires n.Func? && k < |n.args|
    decreases n, 2, |n.args| - k - 1, 1
  {
    ItemAt(n.args[k], RAW, src, m, p) && PiecesSpelt(n, k + 1, src, p, j)
  }

  /** An offset, and after any number of colons a length. */
  ghost predicate SubstrSpelt(n: Node, src: string, m: nat, j: nat)
    requires n.Func?
    decreases n, 2
  {
    || (|n.args| == 1 && ItemAt(n.args[0], OFFSET, src, m, j))
    || (|n.args| == 2 && exists p, r :: BothSpelt(n, OFFSET, ':', RAW, src, m, p, r, j))
  }

  /** A pattern, any number of slashes, and possibly a replacement. */
  ghost predicate ReplaceSpelt(n: Node, src: string, m: nat, j: nat)
    requires n.Func?
    decreases n, 2
  {
    || (|n.args| == 1 && exists p :: ItemAt(n.args[0], PATTERN, src, m, p) && Repeated('/', src, p, j))
    || (|n.args| == 2 && exists p, r :: BothSpelt(n, PATTERN, '/', REPLACEMENT, src, m, p, r, j))
  }

  /** Two arguments with a repeated delimiter between them. */
  ghost predicate BothSpelt(n: Node, q: Quote, c: char, q': Quote, src: string, m: nat, p: nat, r: nat, j: nat)
    requires n.Func? && |n.args| == 2
    decreases n, 1
  {
    ItemAt(n.args[0], q, src, m, p) && Repeated(c, src, p, r) && ItemAt(n.args[1], q', src, r, j)
  }

  /** The items of a template from `i` on, up to its end. */
  ghost predicate ItemsSpelt(n: Node, src: string, i: nat)
    decreases n
  {
    if n == EMPTY then Ends(src, i)
    else if n.List? then
      |n.nodes| == 2 && n.nodes[1] != EMPTY && exists j :: FirstSpelt(n, src, i, j)
    else exists j :: ItemAt(n, OUTSIDE, src, i, j) && Ends(src, j)
  }

  ghost predicate FirstSpelt(n: Node, src: string, i: nat, j: nat)
    requires n.List? && |n.nodes| == 2
    decreases n, 0
  {
    ItemAt(n.nodes[0], OUTSIDE, src, i, j) && ItemsSpelt(n.nodes[1], src, j)
  }

  /** The text spells the tree. */
  ghost predicate Spells(n: Node, src: string) { ItemsSpelt(n, src, 0) }

  // ----- text tokens -----

  /** The scanner reads text as the quote says. */
  predicate Quotes(c: Config, q: Quote) {
    && c.mode.ident && c.mode.lbrack && !c.mode.rbrack
    && (q.dollar <==> c.mode.escape && c.esc.dollar) && (q.slash <==> c.mode.escape && c.esc.backslash)
    && match c.accept
       case AcceptRune => q.stops == ""
       case AcceptNotClosing => q.stops == "}"
       case RejectColonClose => q.stops == ":}"
       case AcceptNotSlash => q.stops == "/"
       case _ => false
  }

  lemma QuoteAt(c: Config, q: Quote, src: string, i: nat, len: int)
    requires Quotes(c, q) && i < |src|
    ensures EscapedAt(c, src, i) <==> Pair(q, src, i)
    ensures LbrackAt(src, i) <==> Opens(src, i)
    ensures Accepts(c.accept, src[i], len) <==> src[i] !in q.stops
    ensures LooksAhead(c, src[i]) ==> src[i] !in q.stops
    ensures Pair(q, src, i) ==> !Ends(src, i) && !Opens(src, i) && !Stops(q, src, i)
  {
  }

  /** One character of a text. */
  function Width(q: Quote, src: string, i: nat): nat { if Pair(q, src, i) then 2 else 1 }

  lemma RunStep(c: Config, q: Quote, src: string, i: nat, acc: string)
    requires Quotes(c, q) && i <= |src|
    ensures Stops(q, src, i) ==> Run(c, src, i, acc) == Lexeme(TokenIdent, acc, i)
    ensures !Stops(q, src, i) ==>
              var w := Width(q, src, i);
              i + w <= |src| && Run(c, src, i, acc) == Run(c, src, i + w, acc + [src[i + w - 1]])
  {
    if i < |src| { QuoteAt(c, q, src, i, |acc| + 1); }
    hide Quotes, Pair, Accepts, LooksAhead, EscapedAt, LbrackAt, Opens;
  }

  lemma ScanStart(c: Config, q: Quote, src: string, i: nat)
    requires Quotes(c, q) && i <= |src|
    ensures Stops(q, src, i) ==> ScanAt(c, src, i).tok != TokenIdent
    ensures Opens(src, i) <==> ScanAt(c, src, i).tok == TokenLbrack
    ensures Opens(src, i) ==> ScanAt(c, src, i).next == i + 2
    ensures Ends(src, i) <==> ScanAt(c, src, i).tok == TokenEOF
    ensures !Stops(q, src, i) ==>
              var w := Width(q, src, i);
              i + w <= |src| && ScanAt(c, src, i) == Run(c, src, i + w, [src[i + w - 1]])
  {
    if i < |src| { QuoteAt(c, q, src, i, 1); }
    hide Pair, Accepts, LooksAhead, EscapedAt, LbrackAt, Run;
  }

  lemma {:induction false} TextRuns(c: Config, q: Quote, t: string, m: nat, src: string, i: nat, j: nat)
    requires Quotes(c, q) && m <= |t| && i <= |src| && TextAt(q, t, m, src, i, j) && Stops(q, src, j)
    ensures Run(c, src, i, t[..m]) == Lexeme(TokenIdent, t, j)
    decreases |t| - m
  {
    hide Quotes, Pair, Run, Stops;
    RunStep(c, q, src, i, t[..m]);
    if m == |t| {
      assert t[..m] == t;
    } else {
      assert t[..m] + [t[m]] == t[..m + 1];
      TextRuns(c, q, t, m + 1, src, i + Width(q, src, i), j);
    }
  }

  lemma {:induction false} RunReads(c: Config, q: Quote, src: string, i: nat, acc: string)
    requires Quotes(c, q) && i <= |src|
    ensures var x := Run(c, src, i, acc);
            && |acc| <= |x.text| && x.text[..|acc|] == acc
            && TextAt(q, x.text, |acc|, src, i, x.next) && Stops(q, src, x.next)
    decreases |src| - i
  {
    hide Quotes, Pair, Run, Stops;
    RunStep(c, q, src, i, acc);
    if Stops(q, src, i) {
      assert acc[..|acc|] == acc;
    } else {
      var w := Width(q, src, i);
      var more := acc + [src[i + w - 1]];
      RunReads(c, q, src, i + w, more);
      var t := Run(c, src, i, acc).text;
      assert t[|acc|] == more[|acc|] && t[..|acc|] == more[..|acc|] == acc;
    }
  }

  /** The text of a token is what is written, as long as it goes. */
  lemma TokenIff(c: Config, q: Quote, t: string, src: string, i: nat, j: nat)
    requires Quotes(c, q) && i <= |src|
    ensures ScanAt(c, src, i) == Lexeme(TokenIdent, t, j) <==> ItemAt(Text(t), q, src, i, j)
  {
    hide Quotes, Pair, Run, Stops, ScanAt;
    ScanStart(c, q, src, i);
    if !Stops(q, src, i) {
      var w := Width(q, src, i);
      var first := [src[i + w - 1]];
      if |t| > 0 && TextAt(q, t, 0, src, i, j) && Stops(q, src, j) {
        assert t[..1] == first;
        TextRuns(c, q, t, 1, src, i + w, j);
      }
      RunReads(c, q, src, i + w, first);
      var x := Run(c, src, i + w, first);
      assert x.text[0] == first[0];
    }
  }

  // ----- words -----

  /** The text `t` is written at `i`, and all of it but no more is accepted. */
  ghost predicate WordAt(accept: Accept, t: string, src: string, i: nat) {
    && |t| > 0 && At(src, i, t) && (forall k :: 0 <= k < |t| ==> t[k] != EOF && Accepts(accept, t[k], k + 1))
    && !Accepts(accept, PeekAt(src, i + |t|), |t| + 1)
  }

  lemma WordIff(accept: Accept, t: string, src: string, i: nat)
    requires i <= |src| && !accept.AcceptRune? && !accept.AcceptNotClosing? && !accept.RejectColonClose?
    requires !accept.AcceptNotSlash?
    ensures var x := FuncToken(accept, IDENT, src, i);
            x.tok == TokenIdent && x.text == t <==> WordAt(accept, t, src, i)
    ensures WordAt(accept, t, src, i) ==> FuncToken(accept, IDENT, src, i).next == i + |t|
  {
    hide FuncToken;
    if WordAt(accept, t, src, i) { WordToken(accept, src, i, t); }
    var x := FuncToken(accept, IDENT, src, i);
    if x.tok == TokenIdent {
      Image.WordIsSlice(accept, src, i);
    }
  }

  lemma CasingWord(t: string, src: string, k: nat)
    ensures WordAt(AcceptCasingFunc, t, src, k) <==>
            At(src, k, t) && IsCasing(t) && (|t| == 1 ==> PeekAt(src, k + 1) !in ",^")
  {
    hide At;
    if WordAt(AcceptCasingFunc, t, src, k) {
      assert |t| > 2 ==> Accepts(AcceptCasingFunc, t[2], 3);
    }
  }

  lemma RemoveWord(c: char, t: string, src: string, k: nat)
    requires c == '#' || c == '%'
    ensures WordAt(if c == '#' then AcceptHashFunc else AcceptPercentFunc, t, src, k) <==>
            At(src, k, t) && IsRemove(t) && t[0] == c && (|t| == 1 ==> PeekAt(src, k + 1) != c)
  {
    hide At;
    var accept := if c == '#' then AcceptHashFunc else AcceptPercentFunc;
    if WordAt(accept, t, src, k) {
      assert Accepts(accept, t[0], 1);
      assert |t| > 1 ==> Accepts(accept, t[1], 2);
      assert |t| > 2 ==> Accepts(accept, t[2], 3);
    }
  }

  lemma ReplaceWord(t: string, src: string, k: nat)
    ensures WordAt(AcceptReplaceFunc, t, src, k) <==>
            At(src, k, t) && IsReplace(t) && (|t| == 1 ==> PeekAt(src, k + 1) !in "/#%")
  {
    hide At;
    if WordAt(AcceptReplaceFunc, t, src, k) {
      assert Accepts(AcceptReplaceFunc, t[0], 1);
      assert |t| > 1 ==> Accepts(AcceptReplaceFunc, t[1], 2);
      assert |t| > 2 ==> Accepts(AcceptReplaceFunc, t[2], 3);
    }
  }

  lemma DefaultWord(t: string, src: string, k: nat)
    requires Has(src, k, '=') || (Has(src, k, ':') && IsDefaultChar(PeekAt(src, k + 1)))
    ensures WordAt(if Has(src, k, '=') then AcceptOneEqual else AcceptDefaultFunc, t, src, k) <==>
            At(src, k, t) && IsDefault(t)
  {
    var accept := if Has(src, k, '=') then AcceptOneEqual else AcceptDefaultFunc;
    if WordAt(accept, t, src, k) {
      assert Accepts(accept, t[0], 1) && t[0] == src[k];
      assert |t| > 1 ==> Accepts(accept, t[1], 2);
      assert |t| > 2 ==> Accepts(accept, t[2], 3);
    }
    if At(src, k, t) && IsDefault(t) {
      assert t[0] == src[k];
      if |t| > 1 { assert t[1] == src[k + 1]; }
    }
  }

  lemma OneWord(accept: Accept, c: char, t: string, src: string, k: nat)
    requires (accept.AcceptOneColon? && c == ':') || (accept.AcceptOneHash? && c == '#')
    ensures WordAt(accept, t, src, k) <==> t == [c] && Has(src, k, c)
  {
    if WordAt(accept, t, src, k) {
      assert Accepts(accept, t[0], 1) && t[0] == src[k];
      assert |t| > 1 ==> Accepts(accept, t[1], 2);
    }
  }

  lemma IdentWord(t: string, src: string, i: nat)
    ensures WordAt(AcceptIdent, t, src, i) <==>
            At(src, i, t) && IsIdent(t) && !IsIdentChar(PeekAt(src, i + |t|))
  {
    hide At;
    if WordAt(AcceptIdent, t, src, i) {
      forall k | 0 <= k < |t| ensures IsIdentChar(t[k]) { assert Accepts(AcceptIdent, t[k], k + 1); }
    }
  }

  /** Any number of delimiters. */
  lemma DelimiterWord(accept: Accept, c: char, t: string, src: string, p: nat)
    requires (accept.AcceptColon? && c == ':') || (accept.AcceptSlash? && c == '/')
    ensures WordAt(accept, t, src, p) <==> |t| > 0 && At(src, p, t) && Repeated(c, src, p, p + |t|)
  {
    if WordAt(accept, t, src, p) {
      forall k | p <= k < p + |t| ensures src[k] == c {
        assert t[k - p] == src[p + (k - p)] && Accepts(accept, t[k - p], k - p + 1);
      }
    }
  }

  // ----- the parser of each kind of substitution -----

  /** The operator and what follows it are written from `k` to `j`. */
  ghost predicate OpSpelt(n: Node, src: string, k: nat, j: nat) {
    && n.Func? && k < j <= |src| && src[j - 1] == '}'
    && At(src, k, n.name) && OperandsSpelt(n, src, k + |n.name|, j)
  }

  lemma ClosesIff(n: Node, m: Node, src: string, i: nat, j: nat)
    requires i <= |src|
    ensures Close(m, src, i) == Done(n, j) <==> m == n && j == i + 1 && Has(src, i, '}')
  {
  }

  /** The operator tells the kind. */
  lemma Kinds(n: Node, src: string, m: nat, j: nat)
    requires n.Func? && 0 < j <= |src|
    ensures |n.name| == 0 || IsCasing(n.name) ==> (OperandsSpelt(n, src, m, j) <==> |n.args| == 0 && j == m + 1)
    ensures IsDefault(n.name) ==> (OperandsSpelt(n, src, m, j) <==> PiecesSpelt(n, 0, src, m, j - 1))
    ensures IsRemove(n.name) ==>
              (OperandsSpelt(n, src, m, j) <==>
               |n.args| == 1 && (|n.name| == 1 ==> !Has(src, m, n.name[0])) && ItemAt(n.args[0], RAW, src, m, j - 1))
    ensures IsSubstr(n.name) ==>
              (OperandsSpelt(n, src, m, j) <==> !IsDefaultChar(PeekAt(src, m)) && SubstrSpelt(n, src, m, j - 1))
    ensures IsReplace(n.name) ==>
              (OperandsSpelt(n, src, m, j) <==>
               (|n.name| == 1 ==> PeekAt(src, m) !in "/#%") && ReplaceSpelt(n, src, m, j - 1))
    ensures OperandsSpelt(n, src, m, j) ==>
              || |n.name| == 0 || IsCasing(n.name) || IsDefault(n.name)
              || IsRemove(n.name) || IsSubstr(n.name) || IsReplace(n.name)
  {
    hide PiecesSpelt, SubstrSpelt, ReplaceSpelt, ItemAt;
  }

  lemma CasingIff(n: Node, param: string, src: string, k: nat, j: nat)
    requires n.Func? && k <= |src|
    ensures CasingAt(param, src, k) == Done(n, j) <==> n.param == param && IsCasing(n.name) && OpSpelt(n, src, k, j)
  {
    hide FuncToken, Close, At, OperandsSpelt, WordAt;
    var x := FuncToken(AcceptCasingFunc, IDENT, src, k);
    if 0 < j <= |src| { Kinds(n, src, k + |n.name|, j); }
    if CasingAt(param, src, k) == Done(n, j) {
      WordIff(AcceptCasingFunc, x.text, src, k);
      CasingWord(x.text, src, k);
      ClosesIff(n, Func(param, x.text, []), src, x.next, j);
    }
    if n.param == param && IsCasing(n.name) && OpSpelt(n, src, k, j) {
      CasingWord(n.name, src, k);
      WordIff(AcceptCasingFunc, n.name, src, k);
      ClosesIff(n, Func(param, n.name, []), src, j - 1, j);
    }
  }

  lemma RemoveIff(n: Node, param: string, c: char, src: string, k: nat, j: nat)
    requires n.Func? && k <= |src| && (c == '#' || c == '%')
    ensures RemoveAt(param, if c == '#' then AcceptHashFunc else AcceptPercentFunc, src, k) == Done(n, j) <==>
            n.param == param && IsRemove(n.name) && n.name[0] == c && OpSpelt(n, src, k, j)
    decreases |src| - k, 2
  {
    hide FuncToken, Close, At, OperandsSpelt, WordAt, ParamAt, ItemAt;
    var accept := if c == '#' then AcceptHashFunc else AcceptPercentFunc;
    var x := FuncToken(accept, IDENT, src, k);
    if 0 < j <= |src| { Kinds(n, src, k + |n.name|, j); }
    if RemoveAt(param, accept, src, k) == Done(n, j) {
      WordIff(accept, x.text, src, k);
      RemoveWord(c, x.text, src, k);
      var a := ParamAt(AcceptNotClosing, false, src, x.next);
      ClosesIff(n, Func(param, x.text, [a.node]), src, a.next, j);
      ParamIff(a.node, AcceptNotClosing, false, RAW, src, x.next, a.next);
    }
    if n.param == param && IsRemove(n.name) && n.name[0] == c && OpSpelt(n, src, k, j) {
      RemoveWord(c, n.name, src, k);
      WordIff(accept, n.name, src, k);
      ParamIff(n.args[0], AcceptNotClosing, false, RAW, src, x.next, j - 1);
      ClosesIff(n, Func(param, n.name, [n.args[0]]), src, j - 1, j);
      assert n.args == [n.args[0]];
    }
  }

  lemma ParamIff(a: Node, accept: Accept, escape: bool, q: Quote, src: string, i: nat, j: nat)
    requires Quotes(Config(accept, ParamMode(escape), ESCAPE_ALL), q) && i <= |src|
    ensures ParamAt(accept, escape, src, i) == Done(a, j) <==> ItemAt(a, q, src, i, j)
    decreases |src| - i, 1
  {
    hide FuncAt, ScanAt, FuncSpelt, Quotes;
    var c := Config(accept, ParamMode(escape), ESCAPE_ALL);
    ScanStart(c, q, src, i);
    if a.Text? { TokenIff(c, q, a.value, src, i, j); }
    if Opens(src, i) {
      FuncIsFunc(src, i + 2);
      if a.Func? { FuncIff(a, src, i + 2, j); }
    }
  }

  lemma FuncIsFunc(src: string, i: nat)
    requires i <= |src|
    ensures FuncAt(src, i).Done? ==> FuncAt(src, i).node.Func?
  {
    hide FuncAt;
    if FuncAt(src, i).Done? { Image.FuncIsWellFormed(src, i); }
  }

  /** What the loop over the pieces of a default adds. */
  lemma {:induction false} PiecesGrow(param: string, name: string, args: seq<Node>, src: string, i: nat)
    requires i <= |src| && DefaultArgsAt(param, name, args, src, i).Done?
    ensures var n := DefaultArgsAt(param, name, args, src, i).node;
            && n.Func? && n.param == param && n.name == name && args <= n.args
            && (PeekAt(src, i) != '}' ==>
                  |n.args| > |args| && n.args[|args|] == ParamAt(AcceptNotClosing, false, src, i).node)
    decreases |src| - i
  {
    hide ParamAt;
    if PeekAt(src, i) != '}' {
      var a := ParamAt(AcceptNotClosing, false, src, i);
      PiecesGrow(param, name, args + [a.node], src, a.next);
    }
  }

  lemma {:induction false} PiecesIff(n: Node, k: nat, src: string, m: nat, j: nat)
    requires n.Func? && k <= |n.args| && m <= |src|
    ensures DefaultArgsAt(n.param, n.name, n.args[..k], src, m) == Done(n, j) <==>
            0 < j <= |src| && src[j - 1] == '}' && PiecesSpelt(n, k, src, m, j - 1)
    decreases |src| - m, 2, |n.args| - k
  {
    hide ParamAt, ItemAt, At;
    if k == |n.args| {
      assert n.args[..k] == n.args;
      if DefaultArgsAt(n.param, n.name, n.args, src, m).Done? { PiecesGrow(n.param, n.name, n.args, src, m); }
    } else {
      PieceIff(n, k, src, m, j);
    }
  }

  lemma {:induction false} PieceIff(n: Node, k: nat, src: string, m: nat, j: nat)
    requires n.Func? && k < |n.args| && m <= |src|
    ensures DefaultArgsAt(n.param, n.name, n.args[..k], src, m) == Done(n, j) <==>
            0 < j <= |src| && src[j - 1] == '}' && PiecesSpelt(n, k, src, m, j - 1)
    decreases |src| - m, 2, |n.args| - k, 0
  {
    assert n.args[..k] + [n.args[k]] == n.args[..k + 1];
    var r := DefaultArgsAt(n.param, n.name, n.args[..k], src, m);
    hide ItemAt, ParamAt;
    if r == Done(n, j) {
      PiecesGrow(n.param, n.name, n.args[..k], src, m);
      var a := ParamAt(AcceptNotClosing, false, src, m);
      assert PeekAt(src, m) != '}' && a.node == n.args[k];
      ParamIff(n.args[k], AcceptNotClosing, false, RAW, src, m, a.next);
      PiecesIff(n, k + 1, src, a.next, j);
      assert PieceSpelt(n, k, src, m, a.next, j - 1);
    }
    if 0 < j <= |src| && src[j - 1] == '}' && PiecesSpelt(n, k, src, m, j - 1) {
      var p :| PieceSpelt(n, k, src, m, p, j - 1);
      ParamIff(n.args[k], AcceptNotClosing, false, RAW, src, m, p);
      ItemStarts(n.args[k], RAW, src, m, p);
      PiecesIff(n, k + 1, src, p, j);
    }
  }

  lemma ItemStarts(a: Node, q: Quote, src: string, i: nat, j: nat)
    requires ItemAt(a, q, src, i, j)
    ensures !Ends(src, i) && (src[i] !in q.stops || Pair(q, src, i) || Opens(src, i))
  {
  }

  lemma DefaultIff(n: Node, param: string, src: string, k: nat, j: nat)
    requires n.Func? && (Has(src, k, '=') || (Has(src, k, ':') && IsDefaultChar(PeekAt(src, k + 1))))
    ensures DefaultAt(param, src, k) == Done(n, j) <==> n.param == param && IsDefault(n.name) && OpSpelt(n, src, k, j)
    decreases |src| - k, 2
  {
    hide FuncToken, At, OperandsSpelt, WordAt, DefaultArgsAt, PiecesSpelt;
    var accept := if PeekAt(src, k) == '=' then AcceptOneEqual else AcceptDefaultFunc;
    var x := FuncToken(accept, IDENT, src, k);
    assert n.args[..0] == [];
    if 0 < j <= |src| { Kinds(n, src, k + |n.name|, j); }
    if DefaultAt(param, src, k) == Done(n, j) {
      WordIff(accept, x.text, src, k);
      DefaultWord(x.text, src, k);
      PiecesGrow(param, x.text, [], src, x.next);
      PiecesIff(n, 0, src, x.next, j);
    }
    if n.param == param && IsDefault(n.name) && OpSpelt(n, src, k, j) {
      DefaultWord(n.name, src, k);
      WordIff(accept, n.name, src, k);
      PiecesIff(n, 0, src, x.next, j);
    }
  }

  /** The delimiter of a substring: a closing bracket, or colons. */
  lemma ColonsIff(src: string, p: nat, r: nat)
    requires p <= |src|
    ensures var d := FuncToken(AcceptColon, IDENT_RBRACK, src, p);
            && (d.tok == TokenRbrack <==> Has(src, p, '}')) && (d.tok == TokenRbrack ==> d.next == p + 1)
            && (d.tok == TokenIdent && d.next == r <==> Repeated(':', src, p, r))
  {
    hide Run;
    var c := Config(AcceptColon, IDENT_RBRACK, ESCAPE_ALL);
    var d := ScanAt(c, src, p);
    if d.tok == TokenIdent {
      Image.TokenIsSlice(c, src, p);
    }
    if Repeated(':', src, p, r) {
      ScanRaw(c, src, p, src[p..r]);
    }
  }

  lemma SubstrIff(n: Node, param: string, src: string, k: nat, j: nat)
    requires n.Func? && Has(src, k, ':') && !IsDefaultChar(PeekAt(src, k + 1))
    ensures SubstrAt(param, src, k) == Done(n, j) <==> n.param == param && IsSubstr(n.name) && OpSpelt(n, src, k, j)
    decreases |src| - k, 2
  {
    hide FuncToken, At, OperandsSpelt, WordAt, SubstrAt, SubstrSpelt;
    if SubstrAt(param, src, k) == Done(n, j) { SubstrIsSpelt(n, param, src, k, j); }
    if n.param == param && IsSubstr(n.name) && OpSpelt(n, src, k, j) { SpeltIsSubstr(n, src, k, j); }
  }

  lemma SubstrIsSpelt(n: Node, param: string, src: string, k: nat, j: nat)
    requires n.Func? && Has(src, k, ':') && !IsDefaultChar(PeekAt(src, k + 1))
    requires SubstrAt(param, src, k) == Done(n, j)
    ensures n.param == param && IsSubstr(n.name) && OpSpelt(n, src, k, j)
    decreases |src| - k, 1
  {
    hide FuncToken, OperandsSpelt, WordAt, ParamAt, ItemAt, Close;
    var x := FuncToken(AcceptOneColon, IDENT, src, k);
    WordIff(AcceptOneColon, x.text, src, k);
    OneWord(AcceptOneColon, ':', x.text, src, k);
    var a := ParamAt(RejectColonClose, false, src, k + 1);
    ParamIff(a.node, RejectColonClose, false, OFFSET, src, k + 1, a.next);
    var d := FuncToken(AcceptColon, IDENT_RBRACK, src, a.next);
    ColonsIff(src, a.next, d.next);
    if d.tok == TokenIdent {
      var b := ParamAt(AcceptNotClosing, false, src, d.next);
      ParamIff(b.node, AcceptNotClosing, false, RAW, src, d.next, b.next);
      ClosesIff(n, Func(param, x.text, [a.node, b.node]), src, b.next, j);
      assert BothSpelt(n, OFFSET, ':', RAW, src, k + 1, a.next, d.next, j - 1);
    }
    Kinds(n, src, k + 1, j);
  }

  lemma SpeltIsSubstr(n: Node, src: string, k: nat, j: nat)
    requires n.Func? && Has(src, k, ':') && IsSubstr(n.name) && OpSpelt(n, src, k, j)
    ensures SubstrAt(n.param, src, k) == Done(n, j)
    decreases |src| - k, 1
  {
    hide FuncToken, OperandsSpelt, WordAt, ParamAt, ItemAt, Close;
    Kinds(n, src, k + 1, j);
    assert n.name == ":";
    OneWord(AcceptOneColon, ':', n.name, src, k);
    WordIff(AcceptOneColon, n.name, src, k);
    if |n.args| == 1 {
      ParamIff(n.args[0], RejectColonClose, false, OFFSET, src, k + 1, j - 1);
      ColonsIff(src, j - 1, j);
      assert n.args == [n.args[0]];
    } else {
      var p, r :| BothSpelt(n, OFFSET, ':', RAW, src, k + 1, p, r, j - 1);
      ParamIff(n.args[0], RejectColonClose, false, OFFSET, src, k + 1, p);
      ColonsIff(src, p, r);
      ParamIff(n.args[1], AcceptNotClosing, false, RAW, src, r, j - 1);
      ClosesIff(n, Func(n.param, n.name, [n.args[0], n.args[1]]), src, j - 1, j);
      assert n.args == [n.args[0], n.args[1]];
    }
  }

  lemma SlashesIff(src: string, p: nat, r: nat)
    requires p <= |src|
    ensures var d := FuncToken(AcceptSlash, IDENT, src, p);
            d.tok == TokenIdent && d.next == r <==> Repeated('/', src, p, r)
  {
    hide FuncToken, WordAt;
    var d := FuncToken(AcceptSlash, IDENT, src, p);
    if d.tok == TokenIdent {
      WordIff(AcceptSlash, d.text, src, p);
      DelimiterWord(AcceptSlash, '/', d.text, src, p);
    }
    if Repeated('/', src, p, r) {
      DelimiterWord(AcceptSlash, '/', src[p..r], src, p);
      WordIff(AcceptSlash, src[p..r], src, p);
    }
  }

  lemma ReplaceIff(n: Node, param: string, src: string, k: nat, j: nat)
    requires n.Func? && k <= |src|
    ensures ReplaceAt(param, src, k) == Done(n, j) <==> n.param == param && IsReplace(n.name) && OpSpelt(n, src, k, j)
    decreases |src| - k, 2
  {
    hide ReplaceAt, OperandsSpelt;
    if ReplaceAt(param, src, k) == Done(n, j) { ReplaceIsSpelt(n, param, src, k, j); }
    if n.param == param && IsReplace(n.name) && OpSpelt(n, src, k, j) { SpeltIsReplace(n, src, k, j); }
  }

  lemma ReplaceIsSpelt(n: Node, param: string, src: string, k: nat, j: nat)
    requires n.Func? && k <= |src| && ReplaceAt(param, src, k) == Done(n, j)
    ensures n.param == param && IsReplace(n.name) && OpSpelt(n, src, k, j)
    decreases |src| - k, 1
  {
    hide FuncToken, OperandsSpelt, WordAt, ParamAt, ItemAt, Close, At;
    var x := FuncToken(AcceptReplaceFunc, IDENT, src, k);
    WordIff(AcceptReplaceFunc, x.text, src, k);
    ReplaceWord(x.text, src, k);
    var a := ParamAt(AcceptNotSlash, true, src, x.next);
    ParamIff(a.node, AcceptNotSlash, true, PATTERN, src, x.next, a.next);
    var d := FuncToken(AcceptSlash, IDENT, src, a.next);
    SlashesIff(src, a.next, d.next);
    if PeekAt(src, d.next) == '}' {
      ClosesIff(n, Func(param, x.text, [a.node]), src, d.next, j);
    } else {
      var b := ParamAt(AcceptNotClosing, true, src, d.next);
      ParamIff(b.node, AcceptNotClosing, true, REPLACEMENT, src, d.next, b.next);
      ClosesIff(n, Func(param, x.text, [a.node, b.node]), src, b.next, j);
      assert BothSpelt(n, PATTERN, '/', REPLACEMENT, src, x.next, a.next, d.next, j - 1);
    }
    Kinds(n, src, x.next, j);
  }

  lemma SpeltIsReplace(n: Node, src: string, k: nat, j: nat)
    requires n.Func? && k <= |src| && IsReplace(n.name) && OpSpelt(n, src, k, j)
    ensures ReplaceAt(n.param, src, k) == Done(n, j)
    decreases |src| - k, 1
  {
    hide FuncToken, OperandsSpelt, WordAt, ParamAt, ItemAt, Close, At;
    var m := k + |n.name|;
    Kinds(n, src, m, j);
    ReplaceWord(n.name, src, k);
    WordIff(AcceptReplaceFunc, n.name, src, k);
    if |n.args| == 1 {
      var p :| ItemAt(n.args[0], PATTERN, src, m, p) && Repeated('/', src, p, j - 1);
      ParamIff(n.args[0], AcceptNotSlash, true, PATTERN, src, m, p);
      SlashesIff(src, p, j - 1);
      ClosesIff(n, Func(n.param, n.name, [n.args[0]]), src, j - 1, j);
      assert n.args == [n.args[0]];
    } else {
      var p, r :| BothSpelt(n, PATTERN, '/', REPLACEMENT, src, m, p, r, j - 1);
      ParamIff(n.args[0], AcceptNotSlash, true, PATTERN, src, m, p);
      SlashesIff(src, p, r);
      ParamIff(n.args[1], AcceptNotClosing, true, REPLACEMENT, src, r, j - 1);
      ItemStarts(n.args[1], REPLACEMENT, src, r, j - 1);
      ClosesIff(n, Func(n.param, n.name, [n.args[0], n.args[1]]), src, j - 1, j);
      assert n.args == [n.args[0], n.args[1]];
    }
  }

  lemma LenIff(n: Node, src: string, i: nat, j: nat)
    requires n.Func? && i <= |src|
    ensures LenAt(src, i) == Done(n, j) <==>
            && IsLen(n) && IsIdent(n.param) && Has(src, i, '#') && At(src, i + 1, n.param)
            && j == i + |n.param| + 2 && Has(src, j - 1, '}')
  {
    hide FuncToken, Close, WordAt, At;
    var x := FuncToken(AcceptOneHash, IDENT, src, i);
    WordIff(AcceptOneHash, x.text, src, i);
    OneWord(AcceptOneHash, '#', x.text, src, i);
    OneWord(AcceptOneHash, '#', "#", src, i);
    WordIff(AcceptOneHash, "#", src, i);
    if Has(src, i, '#') {
      var p := FuncToken(AcceptIdent, IDENT, src, i + 1);
      WordIff(AcceptIdent, p.text, src, i + 1);
      IdentWord(p.text, src, i + 1);
      if p.tok == TokenIdent { ClosesIff(n, Func(p.text, x.text, []), src, p.next, j); }
      IdentWord(n.param, src, i + 1);
      WordIff(AcceptIdent, n.param, src, i + 1);
    }
  }

  /** The first character of the operator tells the kind. */
  lemma KindByChar(n: Node, src: string, k: nat, j: nat)
    requires OpSpelt(n, src, k, j)
    ensures k < |src| && !IsIdentChar(src[k]) && src[k] in ":=,^/#%}"
    ensures src[k] == '=' || (src[k] == ':' && IsDefaultChar(PeekAt(src, k + 1))) ==> IsDefault(n.name)
    ensures src[k] == ':' && !IsDefaultChar(PeekAt(src, k + 1)) ==> IsSubstr(n.name) && k + 1 < |src|
    ensures src[k] == ',' || src[k] == '^' ==> IsCasing(n.name)
    ensures src[k] == '/' ==> IsReplace(n.name)
    ensures src[k] == '#' || src[k] == '%' ==> IsRemove(n.name) && n.name[0] == src[k]
    ensures src[k] == '}' ==> |n.name| == 0 && |n.args| == 0 && j == k + 1
  {
    hide OperandsSpelt;
    Kinds(n, src, k + |n.name|, j);
    if |n.name| > 0 { assert n.name[0] == src[k]; }
    if |n.name| > 1 { assert n.name[1] == src[k + 1]; }
  }

  /** The variable, and after it the operator. */
  lemma HeadIff(n: Node, src: string, i: nat, j: nat)
    requires n.Func? && i <= |src| && !Has(src, i, '#')
    ensures var x := FuncToken(AcceptIdent, IDENT, src, i);
            FuncSpelt(n, src, i, j) <==> x.tok == TokenIdent && x.text == n.param && OpSpelt(n, src, x.next, j)
  {
    hide FuncToken, OperandsSpelt, At, WordAt;
    var x, k := FuncToken(AcceptIdent, IDENT, src, i), i + |n.param|;
    WordIff(AcceptIdent, n.param, src, i);
    IdentWord(n.param, src, i);
    if FuncSpelt(n, src, i, j) {
      AtWithin(src, i, n.param);
      EndAfter(n, src, k + |n.name|, j);
      KindByChar(n, src, k, j);
    }
  }

  lemma AtWithin(src: string, i: nat, w: string)
    requires At(src, i, w)
    ensures i + |w| <= |src|
  {
  }

  lemma {:induction false} TextForward(q: Quote, t: string, m: nat, src: string, i: nat, j: nat)
    requires m <= |t| && TextAt(q, t, m, src, i, j)
    ensures i + |t| - m <= j <= |src|
    decreases |t| - m
  {
    if m == |t| {
    } else {
      hide Stops, Pair;
      TextForward(q, t, m + 1, src, i + Width(q, src, i), j);
    }
  }

  lemma ItemForward(a: Node, q: Quote, src: string, i: nat, j: nat)
    requires ItemAt(a, q, src, i, j)
    ensures i < j <= |src|
  {
    if a.Text? { TextForward(q, a.value, 0, src, i, j); }
  }

  lemma {:induction false} PiecesForward(n: Node, k: nat, src: string, m: nat, j: nat)
    requires n.Func? && k <= |n.args| && PiecesSpelt(n, k, src, m, j)
    ensures m <= j
    decreases |n.args| - k
  {
    hide ItemAt;
    if k < |n.args| {
      var p :| PieceSpelt(n, k, src, m, p, j);
      ItemForward(n.args[k], RAW, src, m, p);
      PiecesForward(n, k + 1, src, p, j);
    }
  }

  lemma EndAfter(n: Node, src: string, m: nat, j: nat)
    requires n.Func? && 0 < j <= |src| && OperandsSpelt(n, src, m, j)
    ensures m < j
  {
    hide ItemAt, PiecesSpelt;
    Kinds(n, src, m, j);
    if IsDefault(n.name) {
      PiecesForward(n, 0, src, m, j - 1);
    } else if IsRemove(n.name) {
      ItemForward(n.args[0], RAW, src, m, j - 1);
    } else if IsSubstr(n.name) {
      SubstrForward(n, src, m, j - 1);
    } else if IsReplace(n.name) {
      ReplaceForward(n, src, m, j - 1);
    }
  }

  lemma SubstrForward(n: Node, src: string, m: nat, j: nat)
    requires n.Func? && SubstrSpelt(n, src, m, j)
    ensures m <= j
  {
    hide ItemAt;
    if |n.args| == 1 {
      ItemForward(n.args[0], OFFSET, src, m, j);
    } else {
      var p, r :| BothSpelt(n, OFFSET, ':', RAW, src, m, p, r, j);
      BothForward(n, OFFSET, ':', RAW, src, m, p, r, j);
    }
  }

  lemma ReplaceForward(n: Node, src: string, m: nat, j: nat)
    requires n.Func? && ReplaceSpelt(n, src, m, j)
    ensures m <= j
  {
    hide ItemAt;
    if |n.args| == 1 {
      var p :| ItemAt(n.args[0], PATTERN, src, m, p) && Repeated('/', src, p, j);
      ItemForward(n.args[0], PATTERN, src, m, p);
    } else {
      var p, r :| BothSpelt(n, PATTERN, '/', REPLACEMENT, src, m, p, r, j);
      BothForward(n, PATTERN, '/', REPLACEMENT, src, m, p, r, j);
    }
  }

  lemma BothForward(n: Node, q: Quote, c: char, q': Quote, src: string, m: nat, p: nat, r: nat, j: nat)
    requires n.Func? && |n.args| == 2 && BothSpelt(n, q, c, q', src, m, p, r, j)
    ensures m <= j
  {
    hide ItemAt;
    ItemForward(n.args[0], q, src, m, p);
    ItemForward(n.args[1], q', src, r, j);
  }

  /** Parsing a substitution finds the one that is spelt. */
  lemma FuncIff(n: Node, src: string, i: nat, j: nat)
    requires n.Func? && i <= |src|
    ensures FuncAt(src, i) == Done(n, j) <==> FuncSpelt(n, src, i, j)
    decreases |src| - i, 0
  {
    hide FuncToken, OpSpelt, FuncSpelt, LenAt, DefaultOrSubstrAt, DefaultAt, CasingAt, ReplaceAt, RemoveAt;
    if Has(src, i, '#') {
      LenIff(n, src, i, j);
      LenSpelt(n, src, i, j);
    } else {
      HeadIff(n, src, i, j);
      var x := FuncToken(AcceptIdent, IDENT, src, i);
      if x.tok == TokenIdent {
        if OpSpelt(n, src, x.next, j) { KindByChar(n, src, x.next, j); }
        OperatorIff(n, x.text, src, x.next, j);
        if PeekAt(src, x.next) == '}' { BareIff(n, src, x.next, j); }
      }
    }
  }

  lemma LenSpelt(n: Node, src: string, i: nat, j: nat)
    requires n.Func? && Has(src, i, '#')
    ensures FuncSpelt(n, src, i, j) <==>
            && IsLen(n) && IsIdent(n.param) && At(src, i + 1, n.param)
            && j == i + |n.param| + 2 && Has(src, j - 1, '}')
  {
    hide OperandsSpelt;
    if At(src, i, n.param) && |n.param| > 0 { assert n.param[0] == src[i]; }
  }

  lemma BareIff(n: Node, src: string, k: nat, j: nat)
    requires n.Func? && Has(src, k, '}')
    ensures OpSpelt(n, src, k, j) <==> n == Func(n.param, "", []) && j == k + 1
  {
    if OpSpelt(n, src, k, j) { KindByChar(n, src, k, j); }
  }

  /** Parsing what follows the variable. */
  lemma OperatorIff(n: Node, param: string, src: string, k: nat, j: nat)
    requires n.Func? && k <= |src|
    ensures var c, ok := PeekAt(src, k), n.param == param && OpSpelt(n, src, k, j);
            && (c == ':' ==> (DefaultOrSubstrAt(param, src, k) == Done(n, j) <==> ok))
            && (c == '=' ==> (DefaultAt(param, src, k) == Done(n, j) <==> ok))
            && (c == ',' || c == '^' ==> (CasingAt(param, src, k) == Done(n, j) <==> ok))
            && (c == '/' ==> (ReplaceAt(param, src, k) == Done(n, j) <==> ok))
            && (c == '#' ==> (RemoveAt(param, AcceptHashFunc, src, k) == Done(n, j) <==> ok))
            && (c == '%' ==> (RemoveAt(param, AcceptPercentFunc, src, k) == Done(n, j) <==> ok))
    decreases |src| - k, 3
  {
    hide OpSpelt, DefaultAt, CasingAt, ReplaceAt, RemoveAt, SubstrAt;
    var c := PeekAt(src, k);
    if OpSpelt(n, src, k, j) { KindByChar(n, src, k, j); }
    match c {
      case ':' =>
        if IsDefaultChar(PeekAt(src, k + 1)) {
          DefaultIff(n, param, src, k, j);
        } else if k + 1 < |src| {
          SubstrIff(n, param, src, k, j);
        } else {
          Image.SubstrAtEnd(param, src);
        }
      case '=' => DefaultIff(n, param, src, k, j);
      case ',' => CasingIff(n, param, src, k, j);
      case '^' => CasingIff(n, param, src, k, j);
      case '/' => ReplaceIff(n, param, src, k, j);
      case '#' => RemoveIff(n, param, '#', src, k, j);
      case '%' => RemoveIff(n, param, '%', src, k, j);
      case _ =>
    }
  }

  /** A substitution that parses ends with its own bracket. */
  lemma FuncCloses(src: string, i: nat)
    requires i <= |src| && FuncAt(src, i).Done?
    ensures src[FuncAt(src, i).next - 1] == '}'
  {
    hide FuncAt, OperandsSpelt;
    FuncIsFunc(src, i);
    FuncIff(FuncAt(src, i).node, src, i, FuncAt(src, i).next);
  }

  // ----- templates -----

  /** What the parser finds first. */
  function FirstAt(src: string, i: nat): Parsed
    requires i <= |src|
  {
    var x := ScanAt(Config(AcceptRune, ANY, DOLLAR), src, i);
    if x.tok == TokenIdent then Done(Text(x.text), x.next)
    else if x.tok == TokenLbrack then FuncAt(src, x.next)
    else Fail(BadSubstitution)
  }

  lemma FirstIff(a: Node, src: string, i: nat, j: nat)
    requires i <= |src|
    ensures FirstAt(src, i) == Done(a, j) <==> ItemAt(a, OUTSIDE, src, i, j)
  {
    hide FuncAt, ScanAt, FuncSpelt;
    var c := Config(AcceptRune, ANY, DOLLAR);
    ScanStart(c, OUTSIDE, src, i);
    if a.Text? { TokenIff(c, OUTSIDE, a.value, src, i, j); }
    if Opens(src, i) {
      FuncIsFunc(src, i + 2);
      if a.Func? { FuncIff(a, src, i + 2, j); }
    }
  }

  lemma AnyByFirst(src: string, i: nat)
    requires i <= |src|
    ensures Ends(src, i) ==> AnyAt(src, i).Done? && AnyAt(src, i).node == EMPTY && FirstAt(src, i).Fail?
    ensures FirstAt(src, i).Done? ==> i < FirstAt(src, i).next <= |src|
    ensures !Ends(src, i) ==>
              var l := FirstAt(src, i);
              if l.Fail? then AnyAt(src, i).Fail?
              else
                var r := AnyAt(src, l.next);
                if r.Fail? then AnyAt(src, i).Fail?
                else
                  AnyAt(src, i) == Done(if r.node == EMPTY then l.node else List([l.node, r.node]), r.next)
  {
    hide FuncAt, ScanAt;
    ScanStart(Config(AcceptRune, ANY, DOLLAR), OUTSIDE, src, i);
  }

  lemma {:induction false} ItemsIff(n: Node, src: string, i: nat)
    requires i <= |src|
    ensures AnyAt(src, i).Done? && AnyAt(src, i).node == n <==> ItemsSpelt(n, src, i)
    decreases |src| - i
  {
    hide AnyAt, FirstAt, ItemsSpelt;
    AnyByFirst(src, i);
    if AnyAt(src, i).Done? && AnyAt(src, i).node == n {
      if Ends(src, i) {
        EmptyIsSpelt(src, i);
      } else {
        var l := FirstAt(src, i);
        FirstIff(l.node, src, i, l.next);
        var r := AnyAt(src, l.next);
        ItemsIff(r.node, src, l.next);
        PartsSpell(l.node, r.node, src, i, l.next);
      }
    }
    if ItemsSpelt(n, src, i) {
      if n != EMPTY {
        var j := SpeltFirst(n, src, i);
        var l := if n.List? then n.nodes[0] else n;
        var r := if n.List? then n.nodes[1] else EMPTY;
        FirstIff(l, src, i, j);
        ItemsIff(r, src, j);
        assert n.List? ==> n == List([l, r]);
      } else {
        SpeltEmpty(src, i);
      }
    }
  }

  lemma EmptyIsSpelt(src: string, i: nat)
    requires Ends(src, i)
    ensures ItemsSpelt(EMPTY, src, i)
  {
  }

  lemma SpeltEmpty(src: string, i: nat)
    requires ItemsSpelt(EMPTY, src, i)
    ensures Ends(src, i)
  {
  }

  lemma PartsSpell(l: Node, r: Node, src: string, i: nat, j: nat)
    requires ItemAt(l, OUTSIDE, src, i, j) && ItemsSpelt(r, src, j)
    ensures ItemsSpelt(if r == EMPTY then l else List([l, r]), src, i)
  {
    if r != EMPTY { assert FirstSpelt(List([l, r]), src, i, j); }
  }

  /** Where the first item ends. */
  lemma SpeltFirst(n: Node, src: string, i: nat) returns (j: nat)
    requires n != EMPTY && ItemsSpelt(n, src, i)
    ensures n.List? ==> |n.nodes| == 2 && n.nodes[1] != EMPTY
    ensures ItemAt(if n.List? then n.nodes[0] else n, OUTSIDE, src, i, j)
    ensures ItemsSpelt(if n.List? then n.nodes[1] else EMPTY, src, j)
    ensures !Ends(src, i) && i < j <= |src|
  {
    hide ItemAt;
    if n.List? {
      j :| FirstSpelt(n, src, i, j);
    } else {
      j :| ItemAt(n, OUTSIDE, src, i, j) && Ends(src, j);
    }
    ItemStarts(if n.List? then n.nodes[0] else n, OUTSIDE, src, i, j);
    ItemForward(if n.List? then n.nodes[0] else n, OUTSIDE, src, i, j);
  }

  /** A template parses to a tree if and only if it spells that tree; so it fails if and only if it spells none. */
  lemma ParsesIffSpelt(n: Node, src: string)
    ensures Template(src).Done? && Template(src).node == n <==> Spells(n, src)
  {
    ItemsIff(n, src, 0);
  }

  /** No text spells two trees. */
  lemma SpellsOne(n: Node, m: Node, src: string)
    requires Spells(n, src) && Spells(m, src)
    ensures n == m
  {
    hide Spells, Template;
    ParsesIffSpelt(n, src);
    ParsesIffSpelt(m, src);
  }
}
