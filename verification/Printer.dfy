/**
 The trees that the parser of envsubst/parse/parse.go builds, and a printer for them.

 `WellFormed` describes the trees; `Print` writes one as a template; `ParseUndoesPrint` shows that
 parsing what is printed gives the tree back.
 */
module Printer {
  import opened Scan
  import opened Parse

  // ----- the trees -----

  predicate IsIdent(t: string) {
    |t| > 0 && forall k :: 0 <= k < |t| ==> IsIdentChar(t[k])
  }

  /** Text that is written as it is: it cannot close the substitution or open another. */
  predicate IsRaw(t: string) {
    |t| > 0 && forall k :: 0 <= k < |t| ==> t[k] != EOF && t[k] != '}' && !LbrackAt(t, k)
  }

  predicate IsNulFree(t: string) {
    |t| > 0 && forall k :: 0 <= k < |t| ==> t[k] != EOF
  }

  predicate Lacks(t: string, c: char) {
    forall k :: 0 <= k < |t| ==> t[k] != c
  }

  predicate IsDefaultChar(c: char) { c == '=' || c == '-' || c == '?' || c == '+' }

  /** The operator names, by kind. */
  predicate IsCasing(s: string) {
    1 <= |s| <= 2 && forall k :: 0 <= k < |s| ==> s[k] == ',' || s[k] == '^'
  }

  predicate IsRemove(s: string) {
    1 <= |s| <= 2 && (s[0] == '#' || s[0] == '%') && (|s| == 2 ==> s[1] == s[0])
  }

  predicate IsDefault(s: string) {
    || (|s| == 1 && s[0] == '=')
    || (|s| == 2 && s[0] == ':' && IsDefaultChar(s[1]))
  }

  predicate IsSubstr(s: string) { |s| == 1 && s[0] == ':' }

  predicate IsReplace(s: string) {
    && 1 <= |s| <= 2 && s[0] == '/'
    && (|s| == 2 ==> s[1] == '/' || s[1] == '#' || s[1] == '%')
  }

  /** Is the operator written before the variable, as in `${#v}`? */
  predicate IsLen(n: Node)
    requires n.Func?
  {
    |n.name| == 1 && n.name[0] == '#' && |n.args| == 0
  }

  /** The number of arguments, and what their texts may start with, for each kind of operator. */
  predicate Shape(n: Node)
    requires n.Func?
  {
    || ((|n.name| == 0 || IsLen(n) || IsCasing(n.name)) && |n.args| == 0)
    || (IsDefault(n.name) && forall k :: 1 <= k < |n.args| ==> !(n.args[k - 1].Text? && n.args[k].Text?))
    || (IsRemove(n.name) && |n.args| == 1 && RemoveArg(n.name, n.args[0]))
    || (IsSubstr(n.name) && 1 <= |n.args| <= 2 && Offset(n.args[0]) && (|n.args| == 2 ==> Length(n.args[1])))
    || (IsReplace(n.name) && 1 <= |n.args| <= 2 && Pattern(n.name, n.args[0])
        && (|n.args| == 2 ==> Replacement(n.args[1])))
  }

  predicate RemoveArg(name: string, a: Node)
    requires |name| > 0
  {
    a.Text? ==> IsRaw(a.value) && (|name| == 1 ==> a.value[0] != name[0])
  }

  predicate Offset(a: Node) {
    a.Text? ==> IsRaw(a.value) && Lacks(a.value, ':') && !IsDefaultChar(a.value[0])
  }

  predicate Length(a: Node) {
    a.Text? ==> IsRaw(a.value) && a.value[0] != ':'
  }

  predicate Pattern(name: string, a: Node) {
    a.Text? ==> IsNulFree(a.value) && (|name| == 1 ==> a.value[0] != '#' && a.value[0] != '%')
  }

  predicate Replacement(a: Node) {
    a.Text? ==> IsNulFree(a.value) && Lacks(a.value, '}')
  }

  predicate WellFormedFunc(n: Node) {
    && n.Func? && IsIdent(n.param) && Shape(n)
    && forall k :: 0 <= k < |n.args| ==>
         if n.args[k].Func? then WellFormedFunc(n.args[k])
         else n.args[k].Text? && (IsDefault(n.name) ==> IsRaw(n.args[k].value))
  }

  predicate StartsWithText(n: Node) {
    n.Text? || (n.List? && |n.nodes| > 0 && n.nodes[0].Text?)
  }

  /** A non-empty template: no two adjacent texts, and every list a pair of an item and what follows it. */
  predicate WellFormedItems(n: Node) {
    match n
    case Text(t) => IsNulFree(t)
    case Func(_, _, _) => WellFormedFunc(n)
    case List(ns) =>
      && |ns| == 2 && !ns[0].List?
      && WellFormedItems(ns[0]) && WellFormedItems(ns[1])
      && !(ns[0].Text? && StartsWithText(ns[1]))
  }

  predicate WellFormed(n: Node) { n == EMPTY || WellFormedItems(n) }

  // ----- the printer -----

  /** How a character is written where `$`, and with `all` also `\` and `/`, escape. */
  function EscapeChar(all: bool, c: char): (s: string)
    ensures 1 <= |s| <= 2
  {
    if c == '$' then ['$', '$'] else if all && (c == '\\' || c == '/') then ['\\', c] else [c]
  }

  /** The text `t` from `m` on, escaped. */
  function Escaped(all: bool, t: string, m: nat): string
    requires m <= |t|
    decreases |t| - m
  {
    if m == |t| then "" else EscapeChar(all, t[m]) + Escaped(all, t, m + 1)
  }

  function Head(n: Node): string
    requires n.Func?
  {
    if IsLen(n) then n.name + n.param else n.param + n.name
  }

  /** What separates argument `k` from the next. */
  function Delimiter(n: Node, k: nat): string
    requires n.Func?
  {
    if k == 0 && IsReplace(n.name) then "/"
    else if k == 0 && IsSubstr(n.name) && |n.args| == 2 then ":"
    else ""
  }

  /** A substitution past its opening bracket. */
  function PrintFunc(n: Node): string
    requires n.Func?
    decreases n, |n.args| + 1
  {
    Head(n) + PrintArgs(n, 0)
  }

  function PrintArgs(n: Node, k: nat): string
    requires n.Func? && k <= |n.args|
    decreases n, |n.args| - k
  {
    if k == |n.args| then "}"
    else PrintArg(n.args[k], IsReplace(n.name)) + Delimiter(n, k) + PrintArgs(n, k + 1)
  }

  function PrintArg(a: Node, escape: bool): string
    decreases a, if a.Func? then |a.args| + 2 else 0
  {
    match a
    case Text(t) => if escape then Escaped(true, t, 0) else t
    case Func(_, _, _) => "${" + PrintFunc(a)
    case List(_) => ""
  }

  function PrintItems(n: Node): string {
    match n
    case Text(t) => Escaped(false, t, 0)
    case Func(_, _, _) => "${" + PrintFunc(n)
    case List(ns) => if |ns| == 2 then PrintItems(ns[0]) + PrintItems(ns[1]) else ""
  }

  function Print(n: Node): string { PrintItems(n) }

  // ----- tokens of printed text -----

  /** `src` holds `w` at position `i`. */
  ghost predicate At(src: string, i: nat, w: string) {
    i + |w| <= |src| && forall k :: 0 <= k < |w| ==> w[k] == src[i + k]
  }

  lemma AtConcat(src: string, i: nat, a: string, b: string)
    requires At(src, i, a + b)
    ensures At(src, i, a) && At(src, i + |a|, b)
  {
    forall k | 0 <= k < |a| ensures a[k] == src[i + k] {
      assert (a + b)[k] == a[k];
    }
    forall k | 0 <= k < |b| ensures b[k] == src[i + |a| + k] {
      assert (a + b)[|a| + k] == b[k];
    }
  }

  /** A token of `len` characters ends at `j`. */
  predicate Ends(c: Config, src: string, j: nat, len: nat) {
    || StopsAt(c, src, j)
    || (!EscapedAt(c, src, j) && !Accepts(c.accept, src[j], len + 1) && !LooksAhead(c, src[j]))
  }

  /** Every character of `t` is accepted as it stands. */
  ghost predicate Taken(c: Config, src: string, i: nat, t: string) {
    && !c.mode.escape && At(src, i, t)
    && (forall k :: 0 <= k < |t| ==> t[k] != EOF && Accepts(c.accept, t[k], k + 1))
    && (c.mode.lbrack ==> forall k :: 0 <= k < |t| ==> !OpensAfter(src, i, k))
  }

  /** A substitution opens `k` characters after `i`. */
  predicate OpensAfter(src: string, i: nat, k: nat) { LbrackAt(src, i + k) }

  lemma {:induction false} RunRaw(c: Config, src: string, i: nat, t: string, m: nat)
    requires m <= |t| && Taken(c, src, i, t) && Ends(c, src, i + |t|, |t|)
    ensures Run(c, src, i + m, t[..m]) == Lexeme(TokenIdent, t, i + |t|)
    decreases |t| - m
  {
    if m == |t| {
      assert t[..m] == t;
    } else {
      assert t[..m] + [t[m]] == t[..m + 1];
      assert t[m] == src[i + m] && (c.mode.lbrack ==> !OpensAfter(src, i, m));
      RunRaw(c, src, i, t, m + 1);
    }
  }

  lemma {:induction false} ScanRaw(c: Config, src: string, i: nat, t: string)
    requires |t| > 0 && c.mode.ident && !(c.mode.rbrack && t[0] == '}')
    requires Taken(c, src, i, t) && Ends(c, src, i + |t|, |t|)
    ensures ScanAt(c, src, i) == Lexeme(TokenIdent, t, i + |t|)
  {
    assert t[..1] == [t[0]];
    assert t[0] == src[i + 0] && (c.mode.lbrack ==> !OpensAfter(src, i, 0));
    RunRaw(c, src, i, t, 1);
  }

  /** The escaping modes in which text is printed: the top level, and the arguments of a replacement. */
  predicate Escapes(c: Config, all: bool) {
    && c.mode.ident && c.mode.lbrack && c.mode.escape && !c.mode.rbrack && c.esc.dollar && c.esc.backslash == all
    && (c.accept.AcceptRune? || (all && (c.accept.AcceptNotSlash? || c.accept.AcceptNotClosing?)))
  }

  /** At `i` the scanner takes `ch`, over `k` characters of the text. */
  ghost predicate Takes(c: Config, src: string, i: nat, ch: char, k: nat) {
    && !StopsAt(c, src, i)
    && (if EscapedAt(c, src, i) then k == 2 && src[i + 1] == ch
        else k == 1 && src[i] == ch && forall len :: Accepts(c.accept, ch, len))
  }

  lemma TakesEscaped(c: Config, all: bool, src: string, i: nat, ch: char)
    requires Escapes(c, all) && At(src, i, EscapeChar(all, ch))
    requires ch != EOF && (c.accept.AcceptNotClosing? ==> ch != '}')
    ensures Takes(c, src, i, ch, |EscapeChar(all, ch)|)
  {
    var e := EscapeChar(all, ch);
    assert src[i] == e[0];
    if |e| == 2 { assert src[i + 1] == e[1]; }
  }

  lemma RunTakes(c: Config, src: string, i: nat, acc: string, ch: char, k: nat)
    requires i <= |src| && Takes(c, src, i, ch, k)
    ensures i + k <= |src| && Run(c, src, i, acc) == Run(c, src, i + k, acc + [ch])
  {
  }

  lemma {:induction false} RunEscaped(c: Config, all: bool, src: string, i: nat, t: string, m: nat)
    requires Escapes(c, all) && m <= |t| && At(src, i, Escaped(all, t, m))
    requires forall k :: 0 <= k < |t| ==> t[k] != EOF
    requires c.accept.AcceptNotClosing? ==> Lacks(t, '}')
    requires Ends(c, src, i + |Escaped(all, t, m)|, |t|)
    ensures Run(c, src, i, t[..m]) == Lexeme(TokenIdent, t, i + |Escaped(all, t, m)|)
    decreases |t| - m
  {
    hide EscapedAt, Accepts, EscapeChar, LooksAhead;
    if m == |t| {
      assert t[..m] == t;
    } else {
      hide StopsAt, Takes, Run, Ends;
      var e := EscapeChar(all, t[m]);
      AtConcat(src, i, e, Escaped(all, t, m + 1));
      TakesEscaped(c, all, src, i, t[m]);
      RunTakes(c, src, i, t[..m], t[m], |e|);
      assert t[..m] + [t[m]] == t[..m + 1];
      RunEscaped(c, all, src, i + |e|, t, m + 1);
    }
  }

  lemma {:induction false} ScanEscaped(c: Config, all: bool, src: string, i: nat, t: string)
    requires Escapes(c, all) && IsNulFree(t) && At(src, i, Escaped(all, t, 0))
    requires c.accept.AcceptNotClosing? ==> Lacks(t, '}')
    requires Ends(c, src, i + |Escaped(all, t, 0)|, |t|)
    ensures ScanAt(c, src, i) == Lexeme(TokenIdent, t, i + |Escaped(all, t, 0)|)
  {
    var e := EscapeChar(all, t[0]);
    AtConcat(src, i, e, Escaped(all, t, 1));
    TakesEscaped(c, all, src, i, t[0]);
    assert t[..1] == [t[0]];
    RunEscaped(c, all, src, i + |e|, t, 1);
  }

  // ----- tokens within a substitution -----

  /** A variable name or an operator, up to the first character that cannot continue it. */
  lemma {:induction false} WordToken(accept: Accept, src: string, i: nat, t: string)
    requires |t| > 0 && At(src, i, t)
    requires forall k :: 0 <= k < |t| ==> t[k] != EOF && Accepts(accept, t[k], k + 1)
    requires !Accepts(accept, PeekAt(src, i + |t|), |t| + 1)
    ensures FuncToken(accept, IDENT, src, i) == Lexeme(TokenIdent, t, i + |t|)
  {
    ScanRaw(Config(accept, IDENT, ESCAPE_ALL), src, i, t);
  }

  lemma {:induction false} RawParam(accept: Accept, src: string, i: nat, t: string)
    requires accept.AcceptNotClosing? || (accept.RejectColonClose? && Lacks(t, ':'))
    requires IsRaw(t) && At(src, i, t)
    requires var c := PeekAt(src, i + |t|);
             c == '}' || (accept.RejectColonClose? && c == ':') || LbrackAt(src, i + |t|)
    ensures ParamAt(accept, false, src, i) == Done(Text(t), i + |t|)
  {
    var c := Config(accept, ParamMode(false), ESCAPE_ALL);
    forall k | 0 <= k < |t| ensures !OpensAfter(src, i, k) {
      assert !LbrackAt(t, k);
      assert t[k] == src[i + k];
      if k + 1 < |t| { assert t[k + 1] == src[i + k + 1]; }
    }
    assert Taken(c, src, i, t);
    assert Ends(c, src, i + |t|, |t|);
    ScanRaw(c, src, i, t);
    assert t[0] == src[i];
    assert !OpensAfter(src, i, 0);
  }

  lemma {:induction false} EscapedParam(accept: Accept, src: string, i: nat, t: string)
    requires IsNulFree(t) && At(src, i, Escaped(true, t, 0))
    requires var c := PeekAt(src, i + |Escaped(true, t, 0)|);
             (accept.AcceptNotSlash? && c == '/') || (accept.AcceptNotClosing? && Lacks(t, '}') && c == '}')
    ensures ParamAt(accept, true, src, i) == Done(Text(t), i + |Escaped(true, t, 0)|)
  {
    var c := Config(accept, ParamMode(true), ESCAPE_ALL);
    ScanEscaped(c, true, src, i, t);
  }

  lemma {:induction false} ArgsSplit(n: Node, k: nat, src: string, i: nat)
    requires n.Func? && k < |n.args| && At(src, i, PrintArgs(n, k))
    ensures var a, d := PrintArg(n.args[k], IsReplace(n.name)), Delimiter(n, k);
            && At(src, i, a) && At(src, i + |a|, d) && At(src, i + |a| + |d|, PrintArgs(n, k + 1))
            && |PrintArgs(n, k)| == |a| + |d| + |PrintArgs(n, k + 1)|
  {
    var a, d, r := PrintArg(n.args[k], IsReplace(n.name)), Delimiter(n, k), PrintArgs(n, k + 1);
    AtConcat(src, i, a + d, r);
    AtConcat(src, i, a, d);
  }

  lemma {:induction false} ArgsEnd(n: Node, src: string, i: nat)
    requires n.Func? && At(src, i, PrintArgs(n, |n.args|))
    ensures PeekAt(src, i) == '}' && |PrintArgs(n, |n.args|)| == 1
  {
    assert "}"[0] == src[i];
  }

  /** How the printed form of an argument begins. */
  lemma {:induction false} ArgStart(a: Node, escape: bool, src: string, i: nat)
    requires At(src, i, PrintArg(a, escape)) && !a.List? && (a.Text? ==> |a.value| > 0)
    ensures a.Func? ==> LbrackAt(src, i)
    ensures a.Text? ==> PeekAt(src, i) == if escape then EscapeChar(true, a.value[0])[0] else a.value[0]
  {
    var w := PrintArg(a, escape);
    if a.Func? {
      assert w == "${" + PrintFunc(a);
      assert w[0] == '$' == src[i] && w[1] == '{' == src[i + 1];
    } else {
      assert |w| > 0 && w[0] == src[i];
    }
  }

  // ----- substitutions -----

  lemma {:induction false} FuncParam(a: Node, accept: Accept, escape: bool, src: string, i: nat)
    requires WellFormedFunc(a) && At(src, i, PrintArg(a, escape))
    ensures ParamAt(accept, escape, src, i) == Done(a, i + |PrintArg(a, escape)|)
    decreases a, 9
  {
    ArgStart(a, escape, src, i);
    AtConcat(src, i, "${", PrintFunc(a));
    FuncRoundTrip(a, src, i + 2);
  }

  lemma {:induction false} FuncRoundTrip(n: Node, src: string, i: nat)
    requires WellFormedFunc(n) && At(src, i, PrintFunc(n))
    ensures FuncAt(src, i) == Done(n, i + |PrintFunc(n)|)
    decreases n, 8
  {
    AtConcat(src, i, Head(n), PrintArgs(n, 0));
    if IsLen(n) {
      AtConcat(src, i, n.name, n.param);
      LenRoundTrip(n, src, i);
    } else {
      AtConcat(src, i, n.param, n.name);
      OperatorRoundTrip(n, src, i);
    }
  }

  lemma {:induction false} LenRoundTrip(n: Node, src: string, i: nat)
    requires WellFormedFunc(n) && IsLen(n)
    requires At(src, i, n.name) && At(src, i + 1, n.param) && At(src, i + 1 + |n.param|, PrintArgs(n, 0))
    ensures FuncAt(src, i) == Done(n, i + 1 + |n.param| + |PrintArgs(n, 0)|)
  {
    assert n.name[0] == src[i];
    ArgsEnd(n, src, i + 1 + |n.param|);
    assert n.param[0] == src[i + 1];
    WordToken(AcceptOneHash, src, i, n.name);
    WordToken(AcceptIdent, src, i + 1, n.param);
  }

  /** The operator and the arguments of `n` are written from `j` on. */
  ghost predicate Written(n: Node, src: string, j: nat) {
    && WellFormedFunc(n) && !IsLen(n)
    && At(src, j, n.name) && At(src, j + |n.name|, PrintArgs(n, 0))
  }

  function WrittenEnd(n: Node, j: nat): nat
    requires n.Func?
  {
    j + |n.name| + |PrintArgs(n, 0)|
  }

  lemma {:induction false} OperatorRoundTrip(n: Node, src: string, i: nat)
    requires n.Func? && At(src, i, n.param) && Written(n, src, i + |n.param|)
    ensures FuncAt(src, i) == Done(n, WrittenEnd(n, i + |n.param|))
    decreases n, 7
  {
    hide DefaultOrSubstrAt, DefaultAt, CasingAt, ReplaceAt, RemoveAt, LenAt, FuncToken, PrintArgs, WrittenEnd;
    var j := i + |n.param|;
    assert n.param[0] == src[i];
    if |n.name| == 0 {
      ArgsEnd(n, src, j);
      BareEnd(n, j);
      WordToken(AcceptIdent, src, i, n.param);
    } else {
      assert n.name[0] == src[j];
      WordToken(AcceptIdent, src, i, n.param);
      if IsCasing(n.name) {
        CasingRoundTrip(n, src, j);
      } else if IsDefault(n.name) {
        DefaultRoundTrip(n, src, j);
        if n.name[0] == ':' { DefaultChosen(n, src, j); }
      } else if IsSubstr(n.name) {
        SubstrRoundTrip(n, src, j);
        SubstrChosen(n, src, j);
      } else if IsRemove(n.name) {
        RemoveRoundTrip(n, src, j);
      } else {
        ReplaceRoundTrip(n, src, j);
      }
    }
  }

  lemma BareEnd(n: Node, j: nat)
    requires n.Func? && |n.name| == 0 && |n.args| == 0
    ensures WrittenEnd(n, j) == j + 1 && n == Func(n.param, "", [])
  {
  }

  lemma {:induction false} CasingRoundTrip(n: Node, src: string, j: nat)
    requires Written(n, src, j) && IsCasing(n.name)
    ensures CasingAt(n.param, src, j) == Done(n, WrittenEnd(n, j))
  {
    ArgsEnd(n, src, j + |n.name|);
    WordToken(AcceptCasingFunc, src, j, n.name);
  }

  lemma {:induction false} DefaultChosen(n: Node, src: string, j: nat)
    requires Written(n, src, j) && IsDefault(n.name) && n.name[0] == ':'
    ensures j < |src| && DefaultOrSubstrAt(n.param, src, j) == DefaultAt(n.param, src, j)
  {
    assert n.name[1] == src[j + 1];
  }

  lemma {:induction false} DefaultRoundTrip(n: Node, src: string, j: nat)
    requires Written(n, src, j) && IsDefault(n.name)
    ensures DefaultAt(n.param, src, j) == Done(n, WrittenEnd(n, j))
    decreases n, 6
  {
    hide DefaultArgsAt, FuncToken, PrintArgs;
    assert n.name[0] == src[j];
    WordToken(if n.name[0] == '=' then AcceptOneEqual else AcceptDefaultFunc, src, j, n.name);
    DefaultArgsRoundTrip(n, 0, src, j + |n.name|);
    assert n.args[..0] == [];
  }

  lemma {:induction false} DefaultArgsRoundTrip(n: Node, k: nat, src: string, i: nat)
    requires WellFormedFunc(n) && IsDefault(n.name) && k <= |n.args| && At(src, i, PrintArgs(n, k))
    ensures DefaultArgsAt(n.param, n.name, n.args[..k], src, i) == Done(n, i + |PrintArgs(n, k)|)
    decreases n, 5, |n.args| - k
  {
    hide ParamAt, PrintArgs, PrintArg, Shape, At;
    if k == |n.args| {
      ArgsEnd(n, src, i);
      assert n.args[..k] == n.args;
    } else {
      DefaultArg(n, k, src, i);
      ArgsSplit(n, k, src, i);
      assert n.args[..k] + [n.args[k]] == n.args[..k + 1];
      DefaultArgsRoundTrip(n, k + 1, src, i + |PrintArg(n.args[k], false)|);
    }
  }

  lemma {:induction false} DefaultArg(n: Node, k: nat, src: string, i: nat)
    requires WellFormedFunc(n) && IsDefault(n.name) && k < |n.args| && At(src, i, PrintArgs(n, k))
    ensures PeekAt(src, i) != '}'
    ensures ParamAt(AcceptNotClosing, false, src, i) == Done(n.args[k], i + |PrintArg(n.args[k], false)|)
    decreases n, 4
  {
    hide ParamAt, PrintArgs, At;
    var a := n.args[k];
    ArgsSplit(n, k, src, i);
    ArgStart(a, false, src, i);
    if a.Func? {
      FuncParam(a, AcceptNotClosing, false, src, i);
    } else {
      var j := i + |a.value|;
      if k + 1 == |n.args| {
        ArgsEnd(n, src, j);
      } else {
        ArgsSplit(n, k + 1, src, j);
        ArgStart(n.args[k + 1], false, src, j);
      }
      RawParam(AcceptNotClosing, src, i, a.value);
    }
  }

  /** The last argument of a removal or a substring, up to the closing bracket. */
  lemma {:induction false} LastRawArg(n: Node, src: string, i: nat)
    requires WellFormedFunc(n) && (IsRemove(n.name) || IsSubstr(n.name)) && |n.args| > 0
    requires At(src, i, PrintArgs(n, |n.args| - 1)) && (IsSubstr(n.name) ==> |n.args| == 2)
    ensures var a, end := n.args[|n.args| - 1], i + |PrintArgs(n, |n.args| - 1)|;
            && end > i && ParamAt(AcceptNotClosing, false, src, i) == Done(a, end - 1) && PeekAt(src, end - 1) == '}'
    decreases n, 4
  {
    hide ParamAt, PrintArgs, At;
    var k := |n.args| - 1;
    var a := n.args[k];
    ArgsSplit(n, k, src, i);
    ArgsEnd(n, src, i + |PrintArg(a, false)|);
    if a.Func? {
      FuncParam(a, AcceptNotClosing, false, src, i);
    } else {
      RawParam(AcceptNotClosing, src, i, a.value);
    }
  }

  lemma {:induction false} RemoveRoundTrip(n: Node, src: string, j: nat)
    requires Written(n, src, j) && IsRemove(n.name)
    ensures var accept := if n.name[0] == '#' then AcceptHashFunc else AcceptPercentFunc;
            RemoveAt(n.param, accept, src, j) == Done(n, WrittenEnd(n, j))
    decreases n, 6
  {
    hide ParamAt, FuncToken, PrintArgs;
    var i := j + |n.name|;
    RemoveOperator(n, src, j);
    LastRawArg(n, src, i);
    assert n.args == [n.args[0]];
  }

  lemma {:induction false} RemoveOperator(n: Node, src: string, j: nat)
    requires Written(n, src, j) && IsRemove(n.name)
    ensures var accept := if n.name[0] == '#' then AcceptHashFunc else AcceptPercentFunc;
            FuncToken(accept, IDENT, src, j) == Lexeme(TokenIdent, n.name, j + |n.name|)
  {
    hide FuncToken, PrintArgs;
    ArgsSplit(n, 0, src, j + |n.name|);
    ArgStart(n.args[0], false, src, j + |n.name|);
    WordToken(if n.name[0] == '#' then AcceptHashFunc else AcceptPercentFunc, src, j, n.name);
  }

  lemma {:induction false} SubstrChosen(n: Node, src: string, j: nat)
    requires Written(n, src, j) && IsSubstr(n.name)
    ensures j < |src| && DefaultOrSubstrAt(n.param, src, j) == SubstrAt(n.param, src, j)
  {
    hide SubstrAt, DefaultAt, PrintArgs;
    ArgsSplit(n, 0, src, j + 1);
    ArgStart(n.args[0], false, src, j + 1);
  }

  /** The offset of a substring, up to the colon or bracket after it. */
  lemma {:induction false} OffsetArg(n: Node, src: string, i: nat)
    requires WellFormedFunc(n) && IsSubstr(n.name) && At(src, i, PrintArgs(n, 0))
    ensures var p := i + |PrintArg(n.args[0], false)|;
            && ParamAt(RejectColonClose, false, src, i) == Done(n.args[0], p)
            && PeekAt(src, p) == (if |n.args| == 1 then '}' else ':')
            && |PrintArgs(n, 0)| == p - i + (if |n.args| == 1 then 1 else 1 + |PrintArgs(n, 1)|)
            && (|n.args| == 2 ==> At(src, p + 1, PrintArgs(n, 1)))
    decreases n, 4
  {
    hide ParamAt, PrintArgs;
    var a := n.args[0];
    ArgsSplit(n, 0, src, i);
    var p := i + |PrintArg(a, false)|;
    if |n.args| == 1 {
      ArgsEnd(n, src, p);
    } else {
      assert ":"[0] == src[p];
    }
    if a.Func? {
      FuncParam(a, RejectColonClose, false, src, i);
    } else {
      RawParam(RejectColonClose, src, i, a.value);
    }
  }

  /** The delimiter of a substring. */
  lemma {:induction false} ColonOrClose(src: string, p: nat)
    requires p < |src|
    ensures src[p] == '}' ==> FuncToken(AcceptColon, IDENT_RBRACK, src, p) == Lexeme(TokenRbrack, [src[p]], p + 1)
    ensures src[p] == ':' && PeekAt(src, p + 1) != ':' ==>
              FuncToken(AcceptColon, IDENT_RBRACK, src, p) == Lexeme(TokenIdent, [src[p]], p + 1)
  {
  }

  lemma {:induction false} SubstrRoundTrip(n: Node, src: string, j: nat)
    requires Written(n, src, j) && IsSubstr(n.name)
    ensures SubstrAt(n.param, src, j) == Done(n, WrittenEnd(n, j))
    decreases n, 6
  {
    hide ParamAt, FuncToken, PrintArgs, PrintArg;
    assert n.name[0] == src[j];
    var i := j + 1;
    WordToken(AcceptOneColon, src, j, n.name);
    OffsetArg(n, src, i);
    var p := i + |PrintArg(n.args[0], false)|;
    if |n.args| == 1 {
      ColonOrClose(src, p);
      assert n.args == [n.args[0]];
    } else {
      ArgsSplit(n, 1, src, p + 1);
      ArgStart(n.args[1], false, src, p + 1);
      ColonOrClose(src, p);
      LastRawArg(n, src, p + 1);
      assert n.args == [n.args[0], n.args[1]];
    }
  }

  lemma {:induction false} SlashAfterPattern(n: Node, src: string, p: nat)
    requires WellFormedFunc(n) && IsReplace(n.name) && At(src, p, "/") && At(src, p + 1, PrintArgs(n, 1))
    ensures PeekAt(src, p) == '/' && FuncToken(AcceptSlash, IDENT, src, p) == Lexeme(TokenIdent, [src[p]], p + 1)
  {
    hide FuncToken, PrintArgs;
    assert "/"[0] == src[p];
    if |n.args| == 1 {
      ArgsEnd(n, src, p + 1);
    } else {
      ArgsSplit(n, 1, src, p + 1);
      ArgStart(n.args[1], true, src, p + 1);
    }
    assert At(src, p, [src[p]]);
    WordToken(AcceptSlash, src, p, [src[p]]);
  }

  /** The pattern of a replacement and the slash after it. */
  lemma {:induction false} PatternArg(n: Node, src: string, i: nat)
    requires WellFormedFunc(n) && IsReplace(n.name) && At(src, i, PrintArgs(n, 0))
    ensures var p := i + |PrintArg(n.args[0], true)|;
            && ParamAt(AcceptNotSlash, true, src, i) == Done(n.args[0], p)
            && FuncToken(AcceptSlash, IDENT, src, p) == Lexeme(TokenIdent, [src[p]], p + 1)
            && At(src, p + 1, PrintArgs(n, 1)) && |PrintArgs(n, 0)| == p + 1 - i + |PrintArgs(n, 1)|
    decreases n, 4
  {
    hide ParamAt, FuncToken, PrintArgs;
    var a := n.args[0];
    ArgsSplit(n, 0, src, i);
    var p := i + |PrintArg(a, true)|;
    SlashAfterPattern(n, src, p);
    if a.Func? {
      FuncParam(a, AcceptNotSlash, true, src, i);
    } else {
      EscapedParam(AcceptNotSlash, src, i, a.value);
    }
  }

  lemma {:induction false} ReplacementArg(n: Node, src: string, i: nat)
    requires WellFormedFunc(n) && IsReplace(n.name) && |n.args| == 2 && At(src, i, PrintArgs(n, 1))
    ensures var end := i + |PrintArgs(n, 1)|;
            && end > i && PeekAt(src, i) != '}'
            && ParamAt(AcceptNotClosing, true, src, i) == Done(n.args[1], end - 1) && PeekAt(src, end - 1) == '}'
    decreases n, 4
  {
    hide ParamAt, PrintArgs, At;
    var a := n.args[1];
    ArgsSplit(n, 1, src, i);
    ArgStart(a, true, src, i);
    ArgsEnd(n, src, i + |PrintArg(a, true)|);
    if a.Func? {
      FuncParam(a, AcceptNotClosing, true, src, i);
    } else {
      EscapedParam(AcceptNotClosing, src, i, a.value);
    }
  }

  lemma {:induction false} ReplaceRoundTrip(n: Node, src: string, j: nat)
    requires Written(n, src, j) && IsReplace(n.name)
    ensures ReplaceAt(n.param, src, j) == Done(n, WrittenEnd(n, j))
    decreases n, 6
  {
    hide ParamAt, FuncToken, PrintArgs, PrintArg;
    var i := j + |n.name|;
    ArgsSplit(n, 0, src, i);
    ArgStart(n.args[0], true, src, i);
    WordToken(AcceptReplaceFunc, src, j, n.name);
    PatternArg(n, src, i);
    var p := i + |PrintArg(n.args[0], true)|;
    if |n.args| == 1 {
      ArgsEnd(n, src, p + 1);
      assert n.args == [n.args[0]];
    } else {
      ReplacementArg(n, src, p + 1);
      assert n.args == [n.args[0], n.args[1]];
    }
  }

  // ----- templates -----

  lemma AnyAtEnd(src: string)
    ensures AnyAt(src, |src|) == Done(EMPTY, |src|)
  {
  }

  lemma {:induction false} ItemsStart(n: Node, src: string, i: nat)
    requires WellFormedItems(n) && !StartsWithText(n) && At(src, i, PrintItems(n))
    ensures LbrackAt(src, i)
    decreases n
  {
    var w := PrintItems(n);
    if n.Func? {
      assert w == "${" + PrintFunc(n);
      assert w[0] == '$' == src[i] && w[1] == '{' == src[i + 1];
    } else {
      AtConcat(src, i, PrintItems(n.nodes[0]), PrintItems(n.nodes[1]));
      ItemsStart(n.nodes[0], src, i);
    }
  }

  /** A text or a substitution, at the end of the template or before a substitution. */
  lemma {:induction false} FirstItem(n: Node, src: string, i: nat)
    requires WellFormedItems(n) && !n.List? && At(src, i, PrintItems(n))
    requires var j := i + |PrintItems(n)|; n.Func? || j == |src| || LbrackAt(src, j)
    ensures var x := ScanAt(Config(AcceptRune, ANY, DOLLAR), src, i);
            if n.Text? then x == Lexeme(TokenIdent, n.value, i + |PrintItems(n)|)
            else x.tok == TokenLbrack && FuncAt(src, x.next) == Done(n, i + |PrintItems(n)|)
  {
    if n.Text? {
      ScanEscaped(Config(AcceptRune, ANY, DOLLAR), false, src, i, n.value);
    } else {
      hide FuncAt;
      ItemsStart(n, src, i);
      AtConcat(src, i, "${", PrintFunc(n));
      FuncRoundTrip(n, src, i + 2);
    }
  }

  lemma {:induction false} ItemsRoundTrip(n: Node, src: string, i: nat)
    requires WellFormedItems(n) && At(src, i, PrintItems(n)) && i + |PrintItems(n)| == |src|
    ensures AnyAt(src, i) == Done(n, |src|)
    decreases n
  {
    hide ScanAt, FuncAt;
    AnyAtEnd(src);
    if n.List? {
      var l, r := n.nodes[0], n.nodes[1];
      AtConcat(src, i, PrintItems(l), PrintItems(r));
      var j := i + |PrintItems(l)|;
      if l.Text? { ItemsStart(r, src, j); }
      FirstItem(l, src, i);
      ItemsRoundTrip(r, src, j);
      assert n.nodes == [l, r];
    } else {
      FirstItem(n, src, i);
    }
  }

  /** Parsing a printed tree gives the tree back, for every tree. */
  lemma {:induction false} ParseUndoesPrint(n: Node)
    requires WellFormed(n)
    ensures Template(Print(n)) == Done(n, |Print(n)|)
  {
    var src := Print(n);
    if n == EMPTY {
      AnyAtEnd(src);
    } else {
      ItemsRoundTrip(n, src, 0);
    }
  }
}
