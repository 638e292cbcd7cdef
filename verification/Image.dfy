/**
 The converse of `Printer.ParseUndoesPrint`: whatever template is parsed, the tree is well-formed.
 Together they show that the well-formed trees are exactly the trees of templates, and that
 printing the tree of a template gives a template with the same tree.
 */
module Image {
  import opened Scan
  import opened Parse
  import opened Printer

  // ----- what the scanner's tokens contain -----

  /** The characters of `src` from `i` to `j` are accepted one by one, and none opens a substitution. */
  predicate Slice(c: Config, src: string, i: nat, j: nat) {
    i <= j <= |src| &&
    forall k :: i <= k < j ==>
      src[k] != EOF && Accepts(c.accept, src[k], k - i + 1) && !(c.mode.lbrack && LbrackAt(src, k))
  }

  /** Rejected characters do not need look-ahead: the accept function takes `$` and `\`. */
  predicate KeepsEscapes(c: Config) {
    c.mode.lbrack || c.mode.escape ==>
      c.accept.AcceptRune? || c.accept.AcceptNotClosing? || c.accept.RejectColonClose? || c.accept.AcceptNotSlash?
  }

  lemma RejectedIsPlain(c: Config, r: char, len: nat)
    requires KeepsEscapes(c) && !Accepts(c.accept, r, len)
    ensures !LooksAhead(c, r)
  {
  }

  lemma {:induction false} RunIsSlice(c: Config, src: string, s: nat, i: nat)
    requires s < i <= |src| && !c.mode.escape && KeepsEscapes(c) && Slice(c, src, s, i)
    ensures var x := Run(c, src, i, src[s..i]);
            && x.text == src[s..x.next] && Slice(c, src, s, x.next)
            && (StopsAt(c, src, x.next) || !Accepts(c.accept, src[x.next], x.next - s + 1))
    decreases |src| - i
  {
    hide Accepts, LooksAhead, KeepsEscapes;
    if StopsAt(c, src, i) {
    } else if !Accepts(c.accept, src[i], i - s + 1) {
      RejectedIsPlain(c, src[i], i - s + 1);
    } else {
      assert src[s..i] + [src[i]] == src[s..i + 1];
      RunIsSlice(c, src, s, i + 1);
    }
  }

  lemma {:induction false} TokenIsSlice(c: Config, src: string, i: nat)
    requires i <= |src| && !c.mode.escape && KeepsEscapes(c) && ScanAt(c, src, i).tok == TokenIdent
    ensures var x := ScanAt(c, src, i);
            && x.text == src[i..x.next] && Slice(c, src, i, x.next)
            && (StopsAt(c, src, x.next) || !Accepts(c.accept, src[x.next], x.next - i + 1))
  {
    assert src[i..i + 1] == [src[i]];
    RunIsSlice(c, src, i, i + 1);
  }

  /** Text scanned with escapes has no NUL, and no bracket where brackets are rejected. */
  predicate Clean(c: Config, t: string) {
    forall k :: 0 <= k < |t| ==> t[k] != EOF && (c.accept.AcceptNotClosing? ==> t[k] != '}')
  }

  lemma {:induction false} RunIsClean(c: Config, src: string, i: nat, acc: string)
    requires i <= |src| && c.mode.lbrack && KeepsEscapes(c) && |acc| > 0 && Clean(c, acc)
    ensures var x := Run(c, src, i, acc);
            && |x.text| > 0 && x.text[0] == acc[0] && Clean(c, x.text)
            && (c.accept.AcceptRune? ==> StopsAt(c, src, x.next))
    decreases |src| - i
  {
    if StopsAt(c, src, i) || (!EscapedAt(c, src, i) && !Accepts(c.accept, src[i], |acc| + 1)) {
    } else {
      var k := if EscapedAt(c, src, i) then i + 1 else i;
      assert src[k] != EOF && (c.accept.AcceptNotClosing? ==> src[k] != '}');
      RunIsClean(c, src, k + 1, acc + [src[k]]);
    }
  }

  lemma {:induction false} TokenIsClean(c: Config, src: string, i: nat)
    requires i <= |src| && c.mode.lbrack && KeepsEscapes(c) && ScanAt(c, src, i).tok == TokenIdent
    ensures var x := ScanAt(c, src, i);
            && |x.text| > 0 && Clean(c, x.text) && (c.accept.AcceptRune? ==> StopsAt(c, src, x.next))
            && i < |src| && (x.text[0] == src[i] || x.text[0] == '$' || x.text[0] == '/' || x.text[0] == '\\')
  {
    if EscapedAt(c, src, i) {
      RunIsClean(c, src, i + 2, [src[i + 1]]);
    } else {
      RunIsClean(c, src, i + 1, [src[i]]);
    }
  }

  // ----- tokens within a substitution -----

  /** A name or operator token is the text itself, and the character after it cannot continue it. */
  lemma {:induction false} WordIsSlice(accept: Accept, src: string, i: nat)
    requires i <= |src| && FuncToken(accept, IDENT, src, i).tok == TokenIdent
    ensures var x := FuncToken(accept, IDENT, src, i);
            && x.text == src[i..x.next]
            && (forall k :: 0 <= k < |x.text| ==> Accepts(accept, x.text[k], k + 1))
            && Accepts(accept, x.text[0], 1) && Accepts(accept, x.text[|x.text| - 1], |x.text|)
            && (x.next < |src| && src[x.next] != EOF ==> !Accepts(accept, src[x.next], |x.text| + 1))
  {
    var c := Config(accept, IDENT, ESCAPE_ALL);
    var x := FuncToken(accept, IDENT, src, i);
    TokenIsSlice(c, src, i);
    forall k | 0 <= k < |x.text| ensures Accepts(accept, x.text[k], k + 1) {
      assert x.text[k] == src[i + k];
    }
  }

  /** What is known of a text argument scanned at `i`. */
  predicate TextArg(accept: Accept, escape: bool, src: string, i: nat, t: string, next: nat) {
    && |t| > 0 && i < |src| && next <= |src|
    && (if escape then
          && IsNulFree(t) && (accept.AcceptNotClosing? ==> Lacks(t, '}'))
          && (t[0] == src[i] || t[0] == '$' || t[0] == '/' || t[0] == '\\')
        else
          && IsRaw(t) && t[0] == src[i] && (accept.RejectColonClose? ==> Lacks(t, ':'))
          && (accept.AcceptNotClosing? ==> PeekAt(src, next) == EOF || PeekAt(src, next) == '}' || LbrackAt(src, next)))
  }

  lemma {:induction false} TextParam(accept: Accept, escape: bool, src: string, i: nat)
    requires accept.AcceptNotClosing? || accept.RejectColonClose? || accept.AcceptNotSlash?
    requires accept.RejectColonClose? ==> !escape
    requires accept.AcceptNotSlash? ==> escape
    requires i <= |src| && FuncToken(accept, ParamMode(escape), src, i).tok == TokenIdent
    ensures var x := FuncToken(accept, ParamMode(escape), src, i); TextArg(accept, escape, src, i, x.text, x.next)
  {
    var c := Config(accept, ParamMode(escape), ESCAPE_ALL);
    var x := FuncToken(accept, ParamMode(escape), src, i);
    if escape {
      TokenIsClean(c, src, i);
    } else {
      TokenIsSlice(c, src, i);
      SliceIsRaw(c, src, i, x.next);
    }
  }

  lemma {:induction false} SliceIsRaw(c: Config, src: string, i: nat, j: nat)
    requires i < j && Slice(c, src, i, j) && c.mode.lbrack && (c.accept.AcceptNotClosing? || c.accept.RejectColonClose?)
    ensures IsRaw(src[i..j]) && (c.accept.RejectColonClose? ==> Lacks(src[i..j], ':'))
  {
  }

  // ----- substitutions -----

  /** An argument of a substitution: a well-formed substitution, or a text as `TextArg` says. */
  predicate GoodArg(accept: Accept, escape: bool, src: string, i: nat, a: Node, next: nat) {
    if a.Func? then WellFormedFunc(a) else a.Text? && TextArg(accept, escape, src, i, a.value, next)
  }

  lemma {:induction false} ParamIsGood(accept: Accept, escape: bool, src: string, i: nat)
    requires accept.AcceptNotClosing? || accept.RejectColonClose? || accept.AcceptNotSlash?
    requires accept.RejectColonClose? ==> !escape
    requires accept.AcceptNotSlash? ==> escape
    requires i <= |src| && ParamAt(accept, escape, src, i).Done?
    ensures var r := ParamAt(accept, escape, src, i); GoodArg(accept, escape, src, i, r.node, r.next)
    ensures ParamAt(accept, escape, src, i).node.Text? ==> !LbrackAt(src, i) && PeekAt(src, i) != EOF
    decreases |src| - i, 1
  {
    hide TextArg, WellFormedFunc, FuncAt;
    var x := FuncToken(accept, ParamMode(escape), src, i);
    if x.tok == TokenLbrack {
      FuncIsWellFormed(src, x.next);
    } else {
      TextParam(accept, escape, src, i);
    }
  }

  lemma {:induction false} FuncIsWellFormed(src: string, i: nat)
    requires i <= |src| && FuncAt(src, i).Done?
    ensures FuncAt(src, i).node.Func? && WellFormedFunc(FuncAt(src, i).node)
    decreases |src| - i, 0
  {
    hide LenAt, DefaultOrSubstrAt, DefaultAt, CasingAt, ReplaceAt, RemoveAt, FuncToken;
    if PeekAt(src, i) == '#' {
      LenIsWellFormed(src, i);
    } else {
      var x := FuncToken(AcceptIdent, IDENT, src, i);
      WordIsSlice(AcceptIdent, src, i);
      var c := PeekAt(src, x.next);
      if c == ':' {
        DefaultOrSubstrIsWellFormed(x.text, src, x.next);
      } else if c == '=' {
        DefaultIsWellFormed(x.text, src, x.next);
      } else if c == ',' || c == '^' {
        CasingIsWellFormed(x.text, src, x.next);
      } else if c == '/' {
        ReplaceIsWellFormed(x.text, src, x.next);
      } else if c == '#' {
        RemoveIsWellFormed(x.text, AcceptHashFunc, src, x.next);
      } else if c == '%' {
        RemoveIsWellFormed(x.text, AcceptPercentFunc, src, x.next);
      }
    }
  }

  lemma {:induction false} LenIsWellFormed(src: string, i: nat)
    requires i <= |src| && LenAt(src, i).Done?
    ensures WellFormedFunc(LenAt(src, i).node)
  {
    hide FuncToken;
    var x := FuncToken(AcceptOneHash, IDENT, src, i);
    WordIsSlice(AcceptOneHash, src, i);
    WordIsSlice(AcceptIdent, src, x.next);
  }

  lemma {:induction false} CasingIsWellFormed(param: string, src: string, i: nat)
    requires IsIdent(param) && i <= |src| && CasingAt(param, src, i).Done?
    ensures WellFormedFunc(CasingAt(param, src, i).node)
  {
    hide FuncToken;
    var x := FuncToken(AcceptCasingFunc, IDENT, src, i);
    WordIsSlice(AcceptCasingFunc, src, i);
    assert forall k :: 0 <= k < |x.text| ==> Accepts(AcceptCasingFunc, x.text[k], k + 1);
  }

  lemma {:induction false} DefaultOrSubstrIsWellFormed(param: string, src: string, i: nat)
    requires IsIdent(param) && i < |src| && src[i] == ':' && DefaultOrSubstrAt(param, src, i).Done?
    ensures WellFormedFunc(DefaultOrSubstrAt(param, src, i).node)
    decreases |src| - i, 4
  {
    hide DefaultAt, SubstrAt;
    var c := PeekAt(src, i + 1);
    if IsDefaultChar(c) {
      DefaultIsWellFormed(param, src, i);
    } else if i + 1 < |src| {
      SubstrIsWellFormed(param, src, i);
    } else {
      SubstrAtEnd(param, src);
    }
  }

  lemma SubstrAtEnd(param: string, src: string)
    ensures SubstrAt(param, src, |src|).Fail?
  {
  }

  lemma {:induction false} DefaultOperator(src: string, i: nat)
    requires i < |src| && (src[i] == '=' || (src[i] == ':' && IsDefaultChar(PeekAt(src, i + 1))))
    requires FuncToken(if src[i] == '=' then AcceptOneEqual else AcceptDefaultFunc, IDENT, src, i).tok == TokenIdent
    ensures IsDefault(FuncToken(if src[i] == '=' then AcceptOneEqual else AcceptDefaultFunc, IDENT, src, i).text)
  {
    var accept := if src[i] == '=' then AcceptOneEqual else AcceptDefaultFunc;
    var x := FuncToken(accept, IDENT, src, i);
    WordIsSlice(accept, src, i);
  }

  lemma {:induction false} DefaultIsWellFormed(param: string, src: string, i: nat)
    requires i < |src| && (src[i] == '=' || (src[i] == ':' && IsDefaultChar(PeekAt(src, i + 1))))
    requires IsIdent(param) && DefaultAt(param, src, i).Done?
    ensures WellFormedFunc(DefaultAt(param, src, i).node)
    decreases |src| - i, 3
  {
    hide FuncToken, DefaultArgsAt, IsDefault;
    DefaultOperator(src, i);
    var x := FuncToken(if src[i] == '=' then AcceptOneEqual else AcceptDefaultFunc, IDENT, src, i);
    DefaultArgsAreWellFormed(param, x.text, [], src, x.next);
  }

  /** The pieces of a default value so far, with `i` the position after them. */
  predicate GoodPieces(args: seq<Node>, src: string, i: nat) {
    && (forall k :: 0 <= k < |args| ==> GoodPiece(args[k]))
    && (forall k :: 1 <= k < |args| ==> !(args[k - 1].Text? && args[k].Text?))
    && (|args| > 0 && args[|args| - 1].Text? ==>
          PeekAt(src, i) == EOF || PeekAt(src, i) == '}' || LbrackAt(src, i))
  }

  predicate GoodPiece(a: Node) {
    if a.Func? then WellFormedFunc(a) else a.Text? && IsRaw(a.value)
  }

  lemma {:induction false} DefaultArgsAreWellFormed(param: string, name: string, args: seq<Node>, src: string, i: nat)
    requires IsIdent(param) && IsDefault(name) && i <= |src| && GoodPieces(args, src, i)
    requires DefaultArgsAt(param, name, args, src, i).Done?
    ensures WellFormedFunc(DefaultArgsAt(param, name, args, src, i).node)
    decreases |src| - i, 2
  {
    hide ParamAt, IsRaw, LbrackAt;
    if PeekAt(src, i) == '}' {
      PiecesAreWellFormed(param, name, args, src, i);
    } else {
      var a := ParamAt(AcceptNotClosing, false, src, i);
      ParamIsGood(AcceptNotClosing, false, src, i);
      AddPiece(args, src, i, a.node, a.next);
      DefaultArgsAreWellFormed(param, name, args + [a.node], src, a.next);
    }
  }

  lemma {:induction false} PiecesAreWellFormed(param: string, name: string, args: seq<Node>, src: string, i: nat)
    requires IsIdent(param) && IsDefault(name) && GoodPieces(args, src, i)
    ensures WellFormedFunc(Func(param, name, args))
  {
  }

  lemma {:induction false} AddPiece(args: seq<Node>, src: string, i: nat, a: Node, next: nat)
    requires GoodPieces(args, src, i) && GoodArg(AcceptNotClosing, false, src, i, a, next)
    requires PeekAt(src, i) != '}' && (a.Text? ==> !LbrackAt(src, i) && PeekAt(src, i) != EOF)
    ensures GoodPieces(args + [a], src, next)
  {
    hide IsRaw, WellFormedFunc, LbrackAt;
  }

  lemma {:induction false} RemoveIsWellFormed(param: string, accept: Accept, src: string, i: nat)
    requires accept.AcceptHashFunc? || accept.AcceptPercentFunc?
    requires IsIdent(param) && i <= |src| && RemoveAt(param, accept, src, i).Done?
    ensures WellFormedFunc(RemoveAt(param, accept, src, i).node)
    decreases |src| - i, 2
  {
    hide FuncToken, ParamAt;
    var x := FuncToken(accept, IDENT, src, i);
    WordIsSlice(accept, src, i);
    ParamIsGood(AcceptNotClosing, false, src, x.next);
    var a := ParamAt(AcceptNotClosing, false, src, x.next);
    assert RemoveArg(x.text, a.node);
  }

  lemma {:induction false} SubstrIsWellFormed(param: string, src: string, i: nat)
    requires IsIdent(param) && i + 1 < |src| && !IsDefaultChar(src[i + 1]) && SubstrAt(param, src, i).Done?
    ensures WellFormedFunc(SubstrAt(param, src, i).node)
    decreases |src| - i, 2
  {
    hide FuncToken, ParamAt;
    var x := FuncToken(AcceptOneColon, IDENT, src, i);
    WordIsSlice(AcceptOneColon, src, i);
    ParamIsGood(RejectColonClose, false, src, x.next);
    var a := ParamAt(RejectColonClose, false, src, x.next);
    assert Offset(a.node);
    var d := FuncToken(AcceptColon, IDENT_RBRACK, src, a.next);
    if d.tok == TokenIdent {
      ColonsEnd(src, a.next);
      ParamIsGood(AcceptNotClosing, false, src, d.next);
      assert Length(ParamAt(AcceptNotClosing, false, src, d.next).node);
    }
  }

  lemma {:induction false} ColonsEnd(src: string, i: nat)
    requires i <= |src| && FuncToken(AcceptColon, IDENT_RBRACK, src, i).tok == TokenIdent
    ensures PeekAt(src, FuncToken(AcceptColon, IDENT_RBRACK, src, i).next) != ':'
  {
    TokenIsSlice(Config(AcceptColon, IDENT_RBRACK, ESCAPE_ALL), src, i);
  }

  lemma {:induction false} ReplaceIsWellFormed(param: string, src: string, i: nat)
    requires IsIdent(param) && i <= |src| && ReplaceAt(param, src, i).Done?
    ensures WellFormedFunc(ReplaceAt(param, src, i).node)
    decreases |src| - i, 2
  {
    hide FuncToken, ParamAt;
    var x := FuncToken(AcceptReplaceFunc, IDENT, src, i);
    WordIsSlice(AcceptReplaceFunc, src, i);
    ParamIsGood(AcceptNotSlash, true, src, x.next);
    var a := ParamAt(AcceptNotSlash, true, src, x.next);
    assert Pattern(x.text, a.node);
    var d := FuncToken(AcceptSlash, IDENT, src, a.next);
    if PeekAt(src, d.next) != '}' {
      ParamIsGood(AcceptNotClosing, true, src, d.next);
      assert Replacement(ParamAt(AcceptNotClosing, true, src, d.next).node);
    }
  }

  // ----- templates -----

  lemma {:induction false} AnyIsWellFormed(src: string, i: nat)
    requires i <= |src| && AnyAt(src, i).Done?
    ensures WellFormed(AnyAt(src, i).node)
    ensures LbrackAt(src, i) ==> AnyAt(src, i).node != EMPTY && !StartsWithText(AnyAt(src, i).node)
    ensures i == |src| || src[i] == EOF ==> AnyAt(src, i).node == EMPTY
    decreases |src| - i
  {
    hide WellFormedFunc, FuncAt, Run;
    var c := Config(AcceptRune, ANY, DOLLAR);
    var x := ScanAt(c, src, i);
    if x.tok == TokenIdent {
      TokenIsClean(c, src, i);
      assert WellFormedItems(Text(x.text));
      AnyIsWellFormed(src, x.next);
    } else if x.tok == TokenLbrack {
      FuncIsWellFormed(src, x.next);
      assert WellFormedItems(FuncAt(src, x.next).node);
      AnyIsWellFormed(src, FuncAt(src, x.next).next);
    }
  }

  /** Every parsed template has a well-formed tree. */
  lemma {:induction false} ParsedIsWellFormed(src: string)
    requires Template(src).Done?
    ensures WellFormed(Template(src).node)
  {
    AnyIsWellFormed(src, 0);
  }

  /** The well-formed trees are exactly the trees of templates. */
  lemma {:induction false} WellFormedIffParsed(n: Node)
    ensures WellFormed(n) <==> exists src :: Template(src).Done? && Template(src).node == n
  {
    if WellFormed(n) {
      ParseUndoesPrint(n);
      assert Template(Print(n)).Done? && Template(Print(n)).node == n;
    }
    if src :| Template(src).Done? && Template(src).node == n {
      ParsedIsWellFormed(src);
    }
  }

  /** Printing the tree of a template gives a template with the same tree. */
  lemma {:induction false} ReprintKeepsTree(src: string)
    requires Template(src).Done?
    ensures Template(Print(Template(src).node)) == Done(Template(src).node, |Print(Template(src).node)|)
  {
    ParsedIsWellFormed(src);
    ParseUndoesPrint(Template(src).node);
  }
}
