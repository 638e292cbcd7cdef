/**
 What templates expand to, on template texts: one law for every kind of substitution, with the value of
 the variable and the text of the template on both sides, and how the parts of a template go together.
 */
module TemplateLaws {
  import opened Scan
  import opened Parse
  import opened Printer
  import opened Trim
  import opened Evaluator

  function ValueOf(e: Env, v: string): string { e.mapper(v).0 }

  /** A substitution that needs a value: with one it gives `text`, and else the variable is missing. */
  function IfSet(e: Env, v: string, text: string): Evaluated {
    if IsUnset(e, v) then Missing(v) else Expanded(text)
  }

  function EvaluatedOf(o: Outcome): Evaluated {
    match o
    case Unset(p) => Missing(p)
    case Output(t) => Expanded(t)
  }

  lemma EvalPrinted(e: Env, n: Node)
    requires WellFormed(n)
    ensures EvalSpec(e, Print(n)) == EvaluatedOf(Denote(e, n))
  {
    hide Denote, Template, WellFormed;
    ParseUndoesPrint(n);
  }

  lemma DenoteOne(e: Env, a: Node)
    ensures DenoteFrom(e, [a], 0, []) == if Denote(e, a).Unset? then UnsetIn(Denote(e, a).param)
                                         else Outputs([Denote(e, a).text])
  {
    hide Denote;
    if Denote(e, a).Output? { assert [] + [Denote(e, a).text] == [Denote(e, a).text]; }
  }

  lemma DenoteTwo(e: Env, a: Node, b: Node)
    requires Denote(e, a).Output? && Denote(e, b).Output?
    ensures DenoteFrom(e, [a, b], 0, []) == Outputs([Denote(e, a).text, Denote(e, b).text])
  {
    hide Denote;
    var s, t := Denote(e, a).text, Denote(e, b).text;
    assert DenoteFrom(e, [a, b], 2, [s, t]) == Outputs([s, t]);
    assert [s] + [t] == [s, t];
    assert DenoteFrom(e, [a, b], 1, [s]) == Outputs([s, t]);
    assert [] + [s] == [s];
  }

  /** The tree of a substitution whose arguments are known. */
  lemma FuncDenotes(e: Env, n: Node, texts: seq<string>)
    requires n.Func? && DenoteFrom(e, n.args, 0, []) == Outputs(texts)
    ensures Denote(e, n) == if IsUnset(e, n.param) && !IsDefaultOp(n.name) then Unset(n.param)
                            else Output(Apply(e.lib, n.name, ValueOf(e, n.param), texts))
  {
    hide Apply, DenoteFrom;
  }

  /** A substitution with text arguments. */
  lemma EvalTexts(e: Env, n: Node, texts: seq<string>)
    requires WellFormedFunc(n) && |n.args| == |texts| <= 2
    requires forall k :: 0 <= k < |texts| ==> n.args[k] == Text(texts[k])
    ensures EvalSpec(e, Print(n)) == if IsUnset(e, n.param) && !IsDefaultOp(n.name) then Missing(n.param)
                                     else Expanded(Apply(e.lib, n.name, ValueOf(e, n.param), texts))
  {
    assert WellFormed(n);
    hide EvalSpec, Apply, WellFormedFunc, Print;
    EvalPrinted(e, n);
    if |texts| == 0 {
      assert n.args == [] && texts == [];
    } else if |texts| == 1 {
      DenoteOne(e, Text(texts[0]));
      assert n.args == [Text(texts[0])] && texts == [texts[0]];
    } else {
      DenoteTwo(e, Text(texts[0]), Text(texts[1]));
      assert n.args == [Text(texts[0]), Text(texts[1])] && texts == [texts[0], texts[1]];
    }
    FuncDenotes(e, n, texts);
  }

  // ----- without arguments -----

  lemma PrintBare(v: string, op: string)
    requires !(op == "#")
    ensures Print(Func(v, op, [])) == "${" + v + op + "}"
  {
    var n := Func(v, op, []);
    assert !IsLen(n);
    assert PrintArgs(n, 0) == "}";
    assert "${" + (v + op + "}") == "${" + v + op + "}";
  }

  /** `${v}` is the value of the variable. */
  lemma PlainIsValue(e: Env, v: string)
    requires IsIdent(v)
    ensures EvalSpec(e, "${" + v + "}") == IfSet(e, v, ValueOf(e, v))
  {
    hide EvalSpec;
    var n := Func(v, "", []);
    PrintBare(v, "");
    assert "${" + v + "" + "}" == "${" + v + "}";
    assert WellFormedFunc(n);
    EvalTexts(e, n, []);
  }

  lemma CasingOps(op: string)
    requires IsCasing(op)
    ensures op in [",", ",,", "^", "^^", ",^", "^,"]
  {
    if |op| == 1 { assert op == [op[0]]; } else { assert op == [op[0], op[1]]; }
  }

  /** `${v,}`, `${v,,}`, `${v^}` and `${v^^}` change the case; other pairs of these characters do nothing. */
  lemma CasingChangesCase(e: Env, v: string, op: string)
    requires IsIdent(v) && IsCasing(op)
    ensures EvalSpec(e, "${" + v + op + "}") ==
            var x := ValueOf(e, v);
            IfSet(e, v, if op == "," then e.lib.lowerFirst(x)
                        else if op == ",," then e.lib.lower(x)
                        else if op == "^" then e.lib.upperFirst(x)
                        else if op == "^^" then e.lib.upper(x)
                        else x)
  {
    hide EvalSpec;
    var n := Func(v, op, []);
    PrintBare(v, op);
    assert WellFormedFunc(n);
    EvalTexts(e, n, []);
    hide Print;
    CasingOps(op);
  }

  /** `${#v}` is the length of the value. */
  lemma HashIsLength(e: Env, v: string)
    requires IsIdent(v)
    ensures EvalSpec(e, "${#" + v + "}") == IfSet(e, v, e.lib.itoa(|ValueOf(e, v)|))
  {
    hide EvalSpec;
    var n := Func(v, "#", []);
    assert IsLen(n) && PrintArgs(n, 0) == "}";
    assert Print(n) == "${#" + v + "}";
    assert WellFormedFunc(n);
    EvalTexts(e, n, []);
  }

  // ----- with text arguments -----

  lemma PrintOne(v: string, op: string, w: string)
    requires !IsReplace(op)
    ensures Print(Func(v, op, [Text(w)])) == "${" + v + op + w + "}"
  {
    var n := Func(v, op, [Text(w)]);
    assert PrintArgs(n, 1) == "}";
    assert PrintArgs(n, 0) == w + "" + "}";
    assert "${" + (v + op + (w + "" + "}")) == "${" + v + op + w + "}";
  }

  /** `${v=w}`, `${v:=w}`, `${v:-w}`, `${v:?w}` and `${v:+w}` are the value, or `w` if that is empty or unset. */
  lemma DefaultIsValueOrText(e: Env, v: string, op: string, w: string)
    requires IsIdent(v) && IsDefault(op) && IsRaw(w)
    ensures EvalSpec(e, "${" + v + op + w + "}") == Expanded(if |ValueOf(e, v)| > 0 then ValueOf(e, v) else w)
  {
    hide EvalSpec, IsRaw;
    var n := Func(v, op, [Text(w)]);
    PrintOne(v, op, w);
    assert WellFormedFunc(n);
    EvalTexts(e, n, [w]);
    hide Print;
    DefaultOps(op);
    assert Join([w], 0) == w + Join([w], 1);
  }

  lemma DefaultOps(op: string)
    requires IsDefault(op)
    ensures IsDefaultOp(op) && op in ["=", ":=", ":-", ":?", ":+"]
  {
    if |op| == 1 { assert op == "="; } else { assert op == [':', op[1]]; }
  }

  /** `${v#w}`, `${v##w}`, `${v%w}` and `${v%%w}` remove what matches the pattern from one end. */
  lemma RemovalRemoves(e: Env, v: string, op: string, w: string)
    requires IsIdent(v) && IsRemove(op) && IsRaw(w) && (|op| == 1 ==> w[0] != op[0])
    ensures EvalSpec(e, "${" + v + op + w + "}") ==
            var x := ValueOf(e, v);
            IfSet(e, v, if op == "#" then x[ShortestPrefix(w, x)..]
                        else if op == "##" then x[LongestPrefix(w, x)..]
                        else if op == "%" then x[..|x| - ShortestPrefix(Reversed(w), Reversed(x))]
                        else x[..|x| - LongestPrefix(Reversed(w), Reversed(x))])
    ensures Mirrors(w) && !IsUnset(e, v) && op[0] == '%' ==>
              var x := ValueOf(e, v);
              EvalSpec(e, "${" + v + op + w + "}") ==
              Expanded(x[..|x| - if |op| == 1 then ShortestSuffix(w, x) else LongestSuffix(w, x)])
  {
    hide EvalSpec, IsRaw, Mirrors, ShortestSuffix, LongestSuffix, ShortestPrefix, LongestPrefix;
    var n := Func(v, op, [Text(w)]);
    PrintOne(v, op, w);
    assert WellFormedFunc(n);
    EvalTexts(e, n, [w]);
    hide Print;
    RemoveOps(op);
    if Mirrors(w) { MirroredIsRight(w, ValueOf(e, v)); }
  }

  lemma RemoveOps(op: string)
    requires IsRemove(op)
    ensures op in ["#", "##", "%", "%%"] && !IsDefaultOp(op)
  {
    if |op| == 1 { assert op == [op[0]]; } else { assert op == [op[0], op[0]]; }
  }

  /** `${v:o}` is the substring from the offset on. */
  lemma OffsetIsSubstring(e: Env, v: string, o: string)
    requires IsIdent(v) && Offset(Text(o)) && IsRaw(o)
    ensures EvalSpec(e, "${" + v + ":" + o + "}") == IfSet(e, v, e.lib.substr(ValueOf(e, v), [o]))
  {
    hide EvalSpec, IsRaw;
    var n := Func(v, ":", [Text(o)]);
    PrintOne(v, ":", o);
    assert WellFormedFunc(n);
    EvalTexts(e, n, [o]);
  }

  lemma PrintTwo(n: Node, a: string, b: string)
    requires n.Func? && |n.args| == 2 && (IsSubstr(n.name) || IsReplace(n.name))
    requires a == PrintArg(n.args[0], IsReplace(n.name)) && b == PrintArg(n.args[1], IsReplace(n.name))
    ensures Print(n) == "${" + n.param + n.name + a + (if IsReplace(n.name) then "/" else ":") + b + "}"
  {
    hide PrintArg;
    var d := if IsReplace(n.name) then "/" else ":";
    assert !IsLen(n) && Delimiter(n, 0) == d && Delimiter(n, 1) == "";
    assert PrintArgs(n, 2) == "}";
    assert PrintArgs(n, 1) == b + "" + "}";
    assert PrintArgs(n, 0) == a + d + (b + "" + "}");
    assert "${" + (n.param + n.name + (a + d + (b + "" + "}"))) == "${" + n.param + n.name + a + d + b + "}";
  }

  /** `${v:o:l}` is the substring of that length. */
  lemma LengthIsSubstring(e: Env, v: string, o: string, l: string)
    requires IsIdent(v) && Offset(Text(o)) && Length(Text(l))
    ensures EvalSpec(e, "${" + v + ":" + o + ":" + l + "}") == IfSet(e, v, e.lib.substr(ValueOf(e, v), [o, l]))
  {
    hide EvalSpec, IsRaw;
    var n := Func(v, ":", [Text(o), Text(l)]);
    PrintTwo(n, o, l);
    assert WellFormedFunc(n);
    hide Print;
    EvalTexts(e, n, [o, l]);
  }

  /** `${v/p/r}`, `${v//p/r}`, `${v/#p/r}` and `${v/%p/r}` replace the pattern; both are read with their escapes. */
  lemma ReplacementReplaces(e: Env, v: string, op: string, p: string, r: string)
    requires IsIdent(v) && IsReplace(op) && Pattern(op, Text(p)) && Replacement(Text(r))
    ensures EvalSpec(e, "${" + v + op + Escaped(true, p, 0) + "/" + Escaped(true, r, 0) + "}") ==
            IfSet(e, v, e.lib.replace(op, ValueOf(e, v), [p, r]))
  {
    hide EvalSpec, IsNulFree, Escaped;
    var n := Func(v, op, [Text(p), Text(r)]);
    PrintTwo(n, Escaped(true, p, 0), Escaped(true, r, 0));
    assert WellFormedFunc(n);
    hide Print;
    EvalTexts(e, n, [p, r]);
    ReplaceOps(op);
  }

  lemma ReplaceOps(op: string)
    requires IsReplace(op)
    ensures op in ["/#", "/%", "/", "//"] && !IsDefaultOp(op) && op !in ["#", "##", "%", "%%", ":"]
  {
    if |op| == 1 { assert op == "/"; } else { assert op == ['/', op[1]]; }
  }

  /** Without a replacement the pattern is replaced by nothing given. */
  lemma PatternAlone(e: Env, v: string, op: string, p: string)
    requires IsIdent(v) && IsReplace(op) && Pattern(op, Text(p))
    ensures EvalSpec(e, "${" + v + op + Escaped(true, p, 0) + "/" + "}") ==
            IfSet(e, v, e.lib.replace(op, ValueOf(e, v), [p]))
  {
    hide EvalSpec, IsNulFree, Escaped;
    var n := Func(v, op, [Text(p)]);
    var a := Escaped(true, p, 0);
    assert PrintArgs(n, 1) == "}";
    assert PrintArgs(n, 0) == a + "/" + "}";
    assert Print(n) == "${" + (v + op + (a + "/" + "}")) == "${" + v + op + a + "/" + "}";
    assert WellFormedFunc(n);
    hide Print;
    EvalTexts(e, n, [p]);
    ReplaceOps(op);
  }

  // ----- parts -----

  /** All the texts, one after the other. */
  function Concat(texts: seq<string>): string {
    if |texts| == 0 then "" else Concat(texts[..|texts| - 1]) + texts[|texts| - 1]
  }

  lemma {:induction false} JoinIsConcat(texts: seq<string>)
    ensures Join(texts, 0) == Concat(texts)
  {
    if |texts| == 0 {
    } else {
      var init, last := texts[..|texts| - 1], texts[|texts| - 1];
      JoinIsConcat(init);
      JoinLast(init, last, 0);
      assert init + [last] == texts;
    }
  }

  /** A piece of a default stands for a text: itself, or what the substitution expands to as a template. */
  ghost predicate PieceIs(e: Env, a: Node, t: string) {
    if a.Text? then t == a.value else EvalSpec(e, Print(a)) == Expanded(t)
  }

  /** The pieces of a default as they are written. */
  function PiecesText(args: seq<Node>): string {
    if |args| == 0 then "" else PrintArg(args[0], false) + PiecesText(args[1..])
  }

  lemma {:induction false} PrintPieces(n: Node, k: nat)
    requires n.Func? && IsDefault(n.name) && k <= |n.args|
    ensures PrintArgs(n, k) == PiecesText(n.args[k..]) + "}"
    decreases |n.args| - k
  {
    if k == |n.args| {
    } else {
      hide PrintArg;
      PrintPieces(n, k + 1);
      assert n.args[k..][1..] == n.args[k + 1..];
      var a, r := PrintArg(n.args[k], false), PiecesText(n.args[k + 1..]);
      assert a + "" + (r + "}") == a + r + "}";
    }
  }

  lemma PieceDenotes(e: Env, a: Node, t: string)
    requires PieceIs(e, a, t) && (if a.Func? then WellFormedFunc(a) else a.Text?)
    ensures Denote(e, a) == Output(t)
  {
    hide WellFormedFunc, EvalSpec;
    if a.Func? {
      assert WellFormed(a);
      EvalPrinted(e, a);
    }
  }

  lemma {:induction false} PiecesDenote(e: Env, args: seq<Node>, texts: seq<string>, k: nat)
    requires |args| == |texts| && k <= |args| && forall i :: 0 <= i < |args| ==> Denote(e, args[i]) == Output(texts[i])
    ensures DenoteFrom(e, args, k, texts[..k]) == Outputs(texts)
    decreases |args| - k
  {
    hide Denote;
    if k == |args| {
      assert texts[..k] == texts;
    } else {
      assert texts[..k] + [texts[k]] == texts[..k + 1];
      PiecesDenote(e, args, texts, k + 1);
    }
  }

  lemma PrintDefault(v: string, op: string, args: seq<Node>)
    requires IsDefault(op)
    ensures Print(Func(v, op, args)) == "${" + v + op + PiecesText(args) + "}"
  {
    hide PiecesText;
    var n := Func(v, op, args);
    PrintPieces(n, 0);
    assert args[0..] == args;
    assert !IsLen(n);
    assert "${" + (v + op + (PiecesText(args) + "}")) == "${" + v + op + PiecesText(args) + "}";
  }

  lemma DefaultDenotes(e: Env, v: string, op: string, args: seq<Node>, texts: seq<string>)
    requires IsDefault(op) && WellFormedFunc(Func(v, op, args))
    requires |texts| == |args| && forall k :: 0 <= k < |args| ==> PieceIs(e, args[k], texts[k])
    ensures Denote(e, Func(v, op, args)) == Output(if |ValueOf(e, v)| > 0 then ValueOf(e, v) else Join(texts, 0))
  {
    hide PieceIs;
    forall k | 0 <= k < |args| ensures Denote(e, args[k]) == Output(texts[k]) {
      hide Denote;
      PieceDenotes(e, args[k], texts[k]);
    }
    PiecesDenote(e, args, texts, 0);
    assert texts[..0] == [];
    DefaultOps(op);
    hide WellFormedFunc, DenoteFrom;
  }

  /**
   A default of any number of pieces, with substitutions nested to any depth: the value, or if that is empty
   or unset what the pieces stand for, in order.
   */
  lemma DefaultIsConcatenation(e: Env, v: string, op: string, args: seq<Node>, texts: seq<string>)
    requires IsDefault(op) && WellFormedFunc(Func(v, op, args))
    requires |texts| == |args| && forall k :: 0 <= k < |args| ==> PieceIs(e, args[k], texts[k])
    ensures EvalSpec(e, "${" + v + op + PiecesText(args) + "}") ==
            Expanded(if |ValueOf(e, v)| > 0 then ValueOf(e, v) else Concat(texts))
  {
    hide EvalSpec, PieceIs, PiecesText, Denote, WellFormedFunc, PrintArgs, Join, Concat;
    var n := Func(v, op, args);
    PrintDefault(v, op, args);
    assert WellFormed(n);
    EvalPrinted(e, n);
    DefaultDenotes(e, v, op, args, texts);
    JoinIsConcat(texts);
  }

  /** A template of two parts: what the first expands to, and then the second; the first missing variable counts. */
  lemma PartsGoTogether(e: Env, l: Node, r: Node)
    requires WellFormedItems(List([l, r]))
    ensures !EvalSpec(e, Print(l)).BadTemplate? && !EvalSpec(e, Print(r)).BadTemplate?
    ensures EvalSpec(e, Print(l) + Print(r)) ==
            var x, y := EvalSpec(e, Print(l)), EvalSpec(e, Print(r));
            if x.Missing? then x else if y.Missing? then y else Expanded(x.text + y.text)
  {
    hide EvalSpec, WellFormedFunc, Denote, PrintItems;
    var n := List([l, r]);
    assert WellFormed(n) && WellFormed(l) && WellFormed(r);
    EvalPrinted(e, n);
    EvalPrinted(e, l);
    EvalPrinted(e, r);
    PrintPair(l, r);
    DenotePair(e, l, r);
  }

  lemma PrintPair(l: Node, r: Node)
    ensures Print(List([l, r])) == Print(l) + Print(r)
  {
  }

  lemma DenotePair(e: Env, l: Node, r: Node)
    ensures Denote(e, List([l, r])) ==
            var x, y := Denote(e, l), Denote(e, r);
            if x.Unset? then x else if y.Unset? then y else Output(x.text + y.text)
  {
    var x, y := Denote(e, l), Denote(e, r);
    if x.Output? && y.Output? {
      DenoteTwo(e, l, r);
      assert Join([x.text, y.text], 1) == y.text;
    } else if x.Output? {
      assert DenoteFrom(e, [l, r], 1, [] + [x.text]) == UnsetIn(y.param);
    }
  }

  /** Arguments are evaluated first: a variable that is missing in one of them counts before the own one. */
  lemma ArgumentsComeFirst(e: Env, n: Node, k: nat, p: string)
    requires WellFormedFunc(n) && k < |n.args| && n.args[k].Func? && EvalSpec(e, Print(n.args[k])) == Missing(p)
    requires forall i :: 0 <= i < k && n.args[i].Func? ==> !EvalSpec(e, Print(n.args[i])).Missing?
    ensures EvalSpec(e, Print(n)) == Missing(p)
  {
    hide EvalSpec, Print, Shape;
    assert WellFormed(n);
    EvalPrinted(e, n);
    forall i | 0 <= i <= k && n.args[i].Func?
      ensures EvalSpec(e, Print(n.args[i])) == EvaluatedOf(Denote(e, n.args[i]))
    {
      assert WellFormed(n.args[i]);
      EvalPrinted(e, n.args[i]);
    }
    MissingFirst(e, n.args, k, 0, []);
  }

  lemma {:induction false} MissingFirst(e: Env, args: seq<Node>, k: nat, i: nat, acc: seq<string>)
    requires i <= k < |args| && Denote(e, args[k]).Unset?
    requires forall h :: i <= h < k ==> Denote(e, args[h]).Output?
    ensures DenoteFrom(e, args, i, acc) == UnsetIn(Denote(e, args[k]).param)
    decreases k - i
  {
    hide Denote;
    if i == k {
    } else {
      MissingFirst(e, args, k, i + 1, acc + [Denote(e, args[i]).text]);
    }
  }
}
