/**
 The template evaluator of envsubst/template.go.

 `Denote` gives the value of a tree by recursion on the tree.  `Evaluate` is the source's evaluator,
 which swaps the writer of one shared state while it evaluates arguments; `Execute` is proved to
 return the denotation.  The last lemmas put scanner, parser and evaluator together.
 */
module Evaluator {
  import opened Scan
  import opened Parse
  import opened Printer
  import opened Trim
  import Image

  // ----- the string functions -----

  /** The functions of the Go library that the string functions are built from. */
  datatype Library = Library(
    lower: string -> string,
    upper: string -> string,
    lowerFirst: string -> string,
    upperFirst: string -> string,
    itoa: nat -> string,
    substr: (string, seq<string>) -> string,
    replace: (string, string, seq<string>) -> string)

  datatype Env = Env(lib: Library, mapper: string -> (string, bool))

  predicate IsDefaultOp(name: string) {
    name in ["-", "+", "=", "?", ":-", ":+", ":=", ":?"]
  }

  /** The pieces from `k` on, without a separator. */
  function Join(ss: seq<string>, k: nat): string
    requires k <= |ss|
    decreases |ss| - k
  {
    if k == |ss| then "" else ss[k] + Join(ss, k + 1)
  }

  function ToDefault(v: string, args: seq<string>): string {
    if |v| == 0 && |args| > 0 then Join(args, 0) else v
  }

  /** The function looked up by name, applied to the variable's value. */
  ghost function Apply(lib: Library, name: string, v: string, args: seq<string>): string {
    if name == "," then lib.lowerFirst(v)
    else if name == ",," then lib.lower(v)
    else if name == "^" then lib.upperFirst(v)
    else if name == "^^" then lib.upper(v)
    else if name == "#" && |args| == 0 then lib.itoa(|v|)
    else if name in ["#", "##", "%", "%%"] && |args| == 0 then v
    else if name == "#" then v[ShortestPrefix(args[0], v)..]
    else if name == "##" then v[LongestPrefix(args[0], v)..]
    else if name == "%" then v[..|v| - ShortestPrefix(Reversed(args[0]), Reversed(v))]
    else if name == "%%" then v[..|v| - LongestPrefix(Reversed(args[0]), Reversed(v))]
    else if name == ":" then lib.substr(v, args)
    else if name in ["/#", "/%", "/", "//"] then lib.replace(name, v, args)
    else ToDefault(v, args)
  }

  method CallFunc(lib: Library, name: string, v: string, args: seq<string>) returns (r: string)
    ensures r == Apply(lib, name, v, args)
    // where the operators of the pattern mirror each other, the reversed computation finds the suffix
    ensures name == "%" && |args| > 0 && Mirrors(args[0]) ==> r == v[..|v| - ShortestSuffix(args[0], v)]
    ensures name == "%%" && |args| > 0 && Mirrors(args[0]) ==> r == v[..|v| - LongestSuffix(args[0], v)]
  {
    hide Mirrors, ShortestSuffix, LongestSuffix;
    match name {
      case "," => r := lib.lowerFirst(v);
      case ",," => r := lib.lower(v);
      case "^" => r := lib.upperFirst(v);
      case "^^" => r := lib.upper(v);
      case "#" =>
        if |args| == 0 {
          r := lib.itoa(|v|);
        } else {
          r := TrimShortestPrefix(v, args);
        }
      case "##" => r := TrimLongestPrefix(v, args);
      case "%" => r := TrimShortestSuffix(v, args);
      case "%%" => r := TrimLongestSuffix(v, args);
      case ":" => r := lib.substr(v, args);
      case "/#" => r := lib.replace(name, v, args);
      case "/%" => r := lib.replace(name, v, args);
      case "/" => r := lib.replace(name, v, args);
      case "//" => r := lib.replace(name, v, args);
      case _ => r := ToDefault(v, args);
    }
  }

  // ----- the value of a tree -----

  datatype Outcome = Unset(param: string) | Output(text: string)
  datatype Outcomes = UnsetIn(param: string) | Outputs(texts: seq<string>)

  predicate IsUnset(e: Env, param: string) { !e.mapper(param).1 }

  /** The value of a tree, or the first variable that is unset where a value is needed. */
  ghost function Denote(e: Env, n: Node): Outcome
    decreases n, 0
  {
    match n
    case Text(t) => Output(t)
    case List(ns) =>
      var r := DenoteFrom(e, ns, 0, []);
      if r.UnsetIn? then Unset(r.param) else Output(Join(r.texts, 0))
    case Func(param, name, args) =>
      var r := DenoteFrom(e, args, 0, []);
      if r.UnsetIn? then Unset(r.param)
      else if IsUnset(e, param) && !IsDefaultOp(name) then Unset(param)
      else Output(Apply(e.lib, name, e.mapper(param).0, r.texts))
  }

  /** The values of the nodes from `k` on, after those in `acc`. */
  ghost function DenoteFrom(e: Env, ns: seq<Node>, k: nat, acc: seq<string>): Outcomes
    requires k <= |ns|
    decreases ns, 0, |ns| - k
  {
    if k == |ns| then Outputs(acc)
    else
      var r := Denote(e, ns[k]);
      if r.Unset? then UnsetIn(r.param) else DenoteFrom(e, ns, k + 1, acc + [r.text])
  }

  // ----- the evaluator -----

  class Buffer {
    var data: string

    constructor ()
      ensures data == ""
    {
      data := "";
    }

    method Reset()
      modifies this
      ensures data == ""
    {
      data := "";
    }

    method WriteString(s: string)
      modifies this
      ensures data == old(data) + s
    {
      data := data + s;
    }
  }

  datatype Err = Nil | VarNotSet(param: string)

  /** The state of an execution: the current writer and node, shared by the whole recursion. */
  class State {
    var writer: Buffer
    var node: Node
    const env: Env

    constructor (w: Buffer, n: Node, e: Env)
      ensures writer == w && node == n && env == e
    {
      writer, node, env := w, n, e;
    }
  }

  /** The error of a denotation. */
  function ErrOf(o: Outcome): Err {
    if o.Unset? then VarNotSet(o.param) else Nil
  }

  method Evaluate(s: State) returns (err: Err)
    modifies s, s.writer
    ensures err == ErrOf(Denote(s.env, old(s.node)))
    ensures err == Nil ==>
              s.writer == old(s.writer) && s.writer.data == old(s.writer.data) + Denote(s.env, old(s.node)).text
    decreases s.node, 1
  {
    match s.node
    case Text(t) =>
      s.writer.WriteString(t);
      err := Nil;
    case Func(param, name, args) =>
      err := EvalFunc(s, s.node);
    case List(ns) =>
      err := EvalList(s, s.node);
  }

  /** `acc` are the texts of the first `k` nodes. */
  ghost predicate Progress(e: Env, ns: seq<Node>, k: nat, acc: seq<string>)
    requires k <= |ns|
  {
    DenoteFrom(e, ns, 0, []) == DenoteFrom(e, ns, k, acc)
  }

  lemma {:induction false} ProgressOne(e: Env, ns: seq<Node>, k: nat, acc: seq<string>)
    requires k < |ns| && Progress(e, ns, k, acc)
    ensures Denote(e, ns[k]).Unset? ==> DenoteFrom(e, ns, 0, []) == UnsetIn(Denote(e, ns[k]).param)
    ensures Denote(e, ns[k]).Output? ==> Progress(e, ns, k + 1, acc + [Denote(e, ns[k]).text])
  {
  }

  lemma {:induction false} JoinLast(ss: seq<string>, t: string, k: nat)
    requires k <= |ss|
    ensures Join(ss + [t], k) == Join(ss, k) + t
    decreases |ss| - k
  {
    if k == |ss| {
      assert Join(ss + [t], k + 1) == "";
    } else {
      JoinLast(ss, t, k + 1);
    }
  }

  method EvalList(s: State, node: Node) returns (err: Err)
    requires node.List?
    modifies s, s.writer
    ensures err == ErrOf(Denote(s.env, node))
    ensures err == Nil ==>
              s.writer == old(s.writer) && s.writer.data == old(s.writer.data) + Denote(s.env, node).text
    decreases node, 0
  {
    ghost var e, w, before := s.env, s.writer, s.writer.data;
    ghost var acc: seq<string> := [];
    for k := 0 to |node.nodes|
      invariant s.writer == w && s.env == e
      invariant Progress(e, node.nodes, k, acc)
      invariant w.data == before + Join(acc, 0)
    {
      s.node := node.nodes[k];
      ProgressOne(e, node.nodes, k, acc);
      err := Evaluate(s);
      if err != Nil {
        return;
      }
      JoinLast(acc, Denote(e, node.nodes[k]).text, 0);
      acc := acc + [Denote(e, node.nodes[k]).text];
    }
    return Nil;
  }

  method EvalFunc(s: State, node: Node) returns (err: Err)
    requires node.Func?
    modifies s, s.writer
    ensures err == ErrOf(Denote(s.env, node))
    ensures err == Nil ==>
              s.writer == old(s.writer) && s.writer.data == old(s.writer.data) + Denote(s.env, node).text
    decreases node, 0
  {
    ghost var e := s.env;
    var w := s.writer;
    var buf := new Buffer();
    var args: seq<string> := [];
    for k := 0 to |node.args|
      invariant fresh(buf) && w.data == old(w.data)
      invariant s.env == e && (s.writer == w || s.writer == buf)
      invariant Progress(e, node.args, k, args)
    {
      buf.Reset();
      s.writer := buf;
      s.node := node.args[k];
      ProgressOne(e, node.args, k, args);
      err := Evaluate(s);
      if err != Nil {
        return;
      }
      assert buf.data == Denote(e, node.args[k]).text;
      args := args + [buf.data];
    }

    // restore the original writer
    s.writer := w;
    s.node := node;

    var (v, exists_) := s.env.mapper(node.param);
    if !exists_ && !IsDefaultOp(node.name) {
      return VarNotSet(node.param);
    }
    var text := CallFunc(s.env.lib, node.name, v, args);
    s.writer.WriteString(text);
    return Nil;
  }

  /** Applies a parsed template to a mapping. */
  method Execute(root: Node, e: Env) returns (str: string, err: Err)
    ensures err == ErrOf(Denote(e, root))
    ensures err == Nil ==> str == Denote(e, root).text
    ensures err != Nil ==> str == ""
  {
    var b := new Buffer();
    var s := new State(b, root, e);
    err := Evaluate(s);
    if err != Nil {
      return "", err;
    }
    return b.data, Nil;
  }

  // ----- when evaluation fails -----

  /** `f` is a node of the tree `n`, at any depth, arguments included. */
  ghost predicate Occurs(f: Node, n: Node)
    decreases n, 1
  {
    f == n || (n.Func? && OccursIn(f, n.args)) || (n.List? && OccursIn(f, n.nodes))
  }

  ghost predicate OccursIn(f: Node, ns: seq<Node>)
    decreases ns, 0
  {
    exists k :: 0 <= k < |ns| && Occurs(f, ns[k])
  }

  /** A substitution that needs a value which the mapping does not have. */
  predicate Needs(e: Env, f: Node) {
    f.Func? && IsUnset(e, f.param) && !IsDefaultOp(f.name)
  }

  ghost predicate SomeNeeds(e: Env, n: Node) { exists f :: Occurs(f, n) && Needs(e, f) }

  ghost predicate SomeNeedsFrom(e: Env, ns: seq<Node>, k: nat) {
    exists j :: k <= j < |ns| && SomeNeeds(e, ns[j])
  }

  /** Evaluation fails exactly when some substitution anywhere in the tree needs an unset variable. */
  lemma {:induction false} FailsIffSomeNeeds(e: Env, n: Node)
    ensures Denote(e, n).Unset? <==> SomeNeeds(e, n)
    ensures Denote(e, n).Unset? ==> exists f :: Occurs(f, n) && Needs(e, f) && f.param == Denote(e, n).param
    decreases n, 1
  {
    match n
    case Text(_) =>
    case List(ns) =>
      FromFailsIffSomeNeeds(e, ns, 0, []);
      NeedsBelow(e, ns);
    case Func(_, _, args) =>
      FromFailsIffSomeNeeds(e, args, 0, []);
      NeedsBelow(e, args);
      assert Occurs(n, n);
  }

  lemma {:induction false} NeedsBelow(e: Env, ns: seq<Node>)
    ensures SomeNeedsFrom(e, ns, 0) <==> exists f :: OccursIn(f, ns) && Needs(e, f)
  {
  }

  lemma {:induction false} FromFailsIffSomeNeeds(e: Env, ns: seq<Node>, k: nat, acc: seq<string>)
    requires k <= |ns|
    ensures DenoteFrom(e, ns, k, acc).UnsetIn? <==> SomeNeedsFrom(e, ns, k)
    ensures DenoteFrom(e, ns, k, acc).UnsetIn? ==>
              exists f :: OccursIn(f, ns) && Needs(e, f) && f.param == DenoteFrom(e, ns, k, acc).param
    decreases ns, 0, |ns| - k
  {
    if k < |ns| {
      FailsIffSomeNeeds(e, ns[k]);
      var r := Denote(e, ns[k]);
      if r.Unset? {
        var f :| Occurs(f, ns[k]) && Needs(e, f) && f.param == r.param;
        assert OccursIn(f, ns);
      } else {
        FromFailsIffSomeNeeds(e, ns, k + 1, acc + [r.text]);
      }
    }
  }

  // ----- scanner, parser and evaluator together -----

  /** Evaluating a template: the error of the parse, the unset variable, or the text. */
  datatype Evaluated = BadTemplate(error: ParseError) | Missing(param: string) | Expanded(text: string)

  ghost function EvalSpec(e: Env, template: string): Evaluated {
    match Template(template)
    case Fail(err) => BadTemplate(err)
    case Done(n, _) =>
      match Denote(e, n)
      case Unset(p) => Missing(p)
      case Output(t) => Expanded(t)
  }

  /** Returns the template itself when it does not parse, and nothing when a variable is missing. */
  method EvalTemplate(template: string, e: Env) returns (text: string, r: Evaluated)
    ensures r == EvalSpec(e, template)
    ensures text == match r case BadTemplate(_) => template case Missing(_) => "" case Expanded(t) => t
  {
    hide Denote, Template;
    var t := ParseTemplate(template);
    if t.Error? {
      return template, BadTemplate(t.error);
    }
    var str, err := Execute(t.node, e);
    if err != Nil {
      return str, Missing(err.param);
    }
    return str, Expanded(str);
  }

  /** The text with every dollar sign doubled. */
  function Doubled(s: string): string { Escaped(false, s, 0) }

  /** Doubling the dollar signs quotes any text without NUL, for every mapping. */
  lemma {:induction false} DoubledIsLiteral(e: Env, s: string)
    requires forall k :: 0 <= k < |s| ==> s[k] != EOF
    ensures EvalSpec(e, Doubled(s)) == Expanded(s)
  {
    hide Template, WellFormedItems;
    assert WellFormed(Text(s)) by { TextIsWellFormed(s); }
    assert Print(Text(s)) == Doubled(s);
    ParseUndoesPrint(Text(s));
  }

  lemma TextIsWellFormed(s: string)
    requires forall k :: 0 <= k < |s| ==> s[k] != EOF
    ensures WellFormed(Text(s))
  {
    if |s| == 0 { assert s == ""; }
  }

  /** Reprinting a template does not change what it evaluates to. */
  lemma {:induction false} ReprintKeepsMeaning(e: Env, template: string)
    requires Template(template).Done?
    ensures EvalSpec(e, Print(Template(template).node)) == EvalSpec(e, template)
  {
    hide Denote;
    Image.ReprintKeepsTree(template);
  }
}
