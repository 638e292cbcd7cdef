/**
 The parser of envsubst/parse/parse.go.

 The functions `AnyAt`, `FuncAt`, ... parse an immutable text.  The class `Tree` is the source's
 recursive-descent parser, which sets the accept function, the mode and the escape characters of a
 shared scanner before each token; its methods are proved to return what these functions return.
 */
module Parse {
  import opened Scan

  datatype Node =
    | Text(value: string)
    | Func(param: string, name: string, args: seq<Node>)
    | List(nodes: seq<Node>)

  datatype ParseError =
    | BadSubstitution | MissingClosingBrace | BadVariableName | BadFuncSubstitution | BadDefaultFunction

  datatype Parsed = Fail(error: ParseError) | Done(node: Node, next: nat)

  /** What parseAny returns at the end of the text. */
  const EMPTY: Node := Text("")

  const DOLLAR := EscapeChars(true, false)
  const ESCAPE_ALL := EscapeChars(true, true)

  const IDENT := Mode(true, false, false, false)
  const RBRACK := Mode(false, false, true, false)
  const IDENT_RBRACK := Mode(true, false, true, false)
  const ANY := Mode(true, true, false, true)

  /** The mode of a function parameter: the given one plus the opening bracket. */
  function ParamMode(escape: bool): Mode { Mode(true, true, false, escape) }

  /** A token scanned within a substitution. */
  function FuncToken(accept: Accept, mode: Mode, src: string, i: nat): (x: Lexeme)
    requires i <= |src|
    ensures i <= x.next <= |src|
    ensures x.tok != TokenEOF ==> i < x.next
    ensures x.tok == TokenIdent ==> |x.text| > 0
  {
    ScanAt(Config(accept, mode, ESCAPE_ALL), src, i)
  }

  function PeekAt(src: string, i: nat): char { if i < |src| then src[i] else EOF }

  // ----- the grammar on an immutable text -----

  function Close(n: Node, src: string, i: nat): (r: Parsed)
    requires i <= |src|
    ensures r.Done? ==> i < r.next <= |src|
  {
    if PeekAt(src, i) == '}' then Done(n, i + 1) else Fail(BadSubstitution)
  }

  function AnyAt(src: string, i: nat): (r: Parsed)
    requires i <= |src|
    ensures r.Done? ==> i <= r.next <= |src|
    decreases |src| - i
  {
    var x := ScanAt(Config(AcceptRune, ANY, DOLLAR), src, i);
    if x.tok == TokenEOF then Done(EMPTY, x.next)
    else if x.tok != TokenIdent && x.tok != TokenLbrack then Fail(BadSubstitution)
    else
      var left := if x.tok == TokenIdent then Done(Text(x.text), x.next) else FuncAt(src, x.next);
      if left.Fail? then left
      else
        var right := AnyAt(src, left.next);
        if right.Fail? then right
        else if right.node == EMPTY then Done(left.node, right.next)
        else Done(List([left.node, right.node]), right.next)
  }

  /** A substitution, past its opening bracket. */
  function FuncAt(src: string, i: nat): (r: Parsed)
    requires i <= |src|
    ensures r.Done? ==> i < r.next <= |src|
    decreases |src| - i, 0
  {
    if PeekAt(src, i) == '#' then LenAt(src, i)
    else
      var x := FuncToken(AcceptIdent, IDENT, src, i);
      if x.tok != TokenIdent then Fail(BadVariableName)
      else
        var c := PeekAt(src, x.next);
        if c == ':' then DefaultOrSubstrAt(x.text, src, x.next)
        else if c == '=' then DefaultAt(x.text, src, x.next)
        else if c == ',' || c == '^' then CasingAt(x.text, src, x.next)
        else if c == '/' then ReplaceAt(x.text, src, x.next)
        else if c == '#' then RemoveAt(x.text, AcceptHashFunc, src, x.next)
        else if c == '%' then RemoveAt(x.text, AcceptPercentFunc, src, x.next)
        else if c == '}' then Done(Func(x.text, "", []), x.next + 1)
        else Fail(MissingClosingBrace)
  }

  function ParamAt(accept: Accept, escape: bool, src: string, i: nat): (r: Parsed)
    requires i <= |src|
    ensures r.Done? ==> i < r.next <= |src|
    decreases |src| - i, 1
  {
    var x := FuncToken(accept, ParamMode(escape), src, i);
    if x.tok == TokenLbrack then FuncAt(src, x.next)
    else if x.tok == TokenIdent then Done(Text(x.text), x.next)
    else Fail(BadFuncSubstitution)
  }

  function DefaultOrSubstrAt(param: string, src: string, i: nat): (r: Parsed)
    requires i < |src|
    ensures r.Done? ==> i < r.next <= |src|
    decreases |src| - i, 3
  {
    var c := PeekAt(src, i + 1);
    if c == '=' || c == '-' || c == '?' || c == '+' then DefaultAt(param, src, i)
    // the position is restored by the width of the character peeked, which is 0 at the end
    else SubstrAt(param, src, if i + 1 == |src| then i + 1 else i)
  }

  function SubstrAt(param: string, src: string, i: nat): (r: Parsed)
    requires i <= |src|
    ensures r.Done? ==> i < r.next <= |src|
    decreases |src| - i, 2
  {
    var x := FuncToken(AcceptOneColon, IDENT, src, i);
    if x.tok != TokenIdent then Fail(BadSubstitution)
    else
      var a := ParamAt(RejectColonClose, false, src, x.next);
      if a.Fail? then a
      else
        var d := FuncToken(AcceptColon, IDENT_RBRACK, src, a.next);
        if d.tok == TokenRbrack then Done(Func(param, x.text, [a.node]), d.next)
        else if d.tok != TokenIdent then Fail(BadSubstitution)
        else
          var b := ParamAt(AcceptNotClosing, false, src, d.next);
          if b.Fail? then b else Close(Func(param, x.text, [a.node, b.node]), src, b.next)
  }

  function RemoveAt(param: string, accept: Accept, src: string, i: nat): (r: Parsed)
    requires i <= |src|
    ensures r.Done? ==> i < r.next <= |src|
    decreases |src| - i, 2
  {
    var x := FuncToken(accept, IDENT, src, i);
    if x.tok != TokenIdent then Fail(BadSubstitution)
    else
      var a := ParamAt(AcceptNotClosing, false, src, x.next);
      if a.Fail? then a else Close(Func(param, x.text, [a.node]), src, a.next)
  }

  function ReplaceAt(param: string, src: string, i: nat): (r: Parsed)
    requires i <= |src|
    ensures r.Done? ==> i < r.next <= |src|
    decreases |src| - i, 2
  {
    var x := FuncToken(AcceptReplaceFunc, IDENT, src, i);
    if x.tok != TokenIdent then Fail(BadSubstitution)
    else
      var a := ParamAt(AcceptNotSlash, true, src, x.next);
      if a.Fail? then a
      else
        var d := FuncToken(AcceptSlash, IDENT, src, a.next);
        if d.tok != TokenIdent then Fail(BadSubstitution)
        else if PeekAt(src, d.next) == '}' then Close(Func(param, x.text, [a.node]), src, d.next)
        else
          var b := ParamAt(AcceptNotClosing, true, src, d.next);
          if b.Fail? then b else Close(Func(param, x.text, [a.node, b.node]), src, b.next)
  }

  function DefaultAt(param: string, src: string, i: nat): (r: Parsed)
    requires i <= |src|
    ensures r.Done? ==> i < r.next <= |src|
    decreases |src| - i, 2
  {
    var x := FuncToken(if PeekAt(src, i) == '=' then AcceptOneEqual else AcceptDefaultFunc, IDENT, src, i);
    if x.tok != TokenIdent then Fail(BadDefaultFunction) else DefaultArgsAt(param, x.text, [], src, x.next)
  }

  /** The loop over the pieces of a default value; `args` are the pieces so far. */
  function DefaultArgsAt(param: string, name: string, args: seq<Node>, src: string, i: nat): (r: Parsed)
    requires i <= |src|
    ensures r.Done? ==> i < r.next <= |src|
    decreases |src| - i, 2
  {
    if PeekAt(src, i) == '}' then Close(Func(param, name, args), src, i)
    else
      var a := ParamAt(AcceptNotClosing, false, src, i);
      if a.Fail? then a else DefaultArgsAt(param, name, args + [a.node], src, a.next)
  }

  function CasingAt(param: string, src: string, i: nat): (r: Parsed)
    requires i <= |src|
    ensures r.Done? ==> i < r.next <= |src|
  {
    var x := FuncToken(AcceptCasingFunc, IDENT, src, i);
    if x.tok != TokenIdent then Fail(BadSubstitution) else Close(Func(param, x.text, []), src, x.next)
  }

  function LenAt(src: string, i: nat): (r: Parsed)
    requires i <= |src|
    ensures r.Done? ==> i < r.next <= |src|
  {
    var x := FuncToken(AcceptOneHash, IDENT, src, i);
    if x.tok != TokenIdent then Fail(BadSubstitution)
    else
      var p := FuncToken(AcceptIdent, IDENT, src, x.next);
      if p.tok != TokenIdent then Fail(BadSubstitution) else Close(Func(p.text, x.text, []), src, p.next)
  }

  /** Parsing a whole template. */
  function Template(src: string): Parsed { AnyAt(src, 0) }

  // ----- the parser on the shared scanner -----

  datatype Answer = Value(node: Node) | Error(error: ParseError)

  class Tree {
    var root: Node
    const scanner: Scanner

    /** The scanner has the text of `src` from `i` on before it. */
    ghost predicate At(src: string, i: nat)
      reads scanner
    {
      i <= |src| && scanner.Valid() && scanner.Remaining(src, i)
    }

    /** As `At`, within a substitution, where every escape character is on. */
    ghost predicate Within(src: string, i: nat)
      reads scanner
    {
      At(src, i) && scanner.escapeChars == ESCAPE_ALL
    }

    /** The answer `r` and the scanner's position are those of the parse `p`. */
    ghost predicate Returns(r: Answer, p: Parsed, src: string)
      reads scanner
    {
      match p
      case Fail(e) => r == Error(e)
      case Done(n, j) => r == Value(n) && Within(src, j)
    }

    constructor (text: string)
      ensures fresh(scanner) && At(text, 0)
    {
      var s := new Scanner(text);
      scanner, root := s, EMPTY;
    }

    /** Scans one token with the given accept function and mode. */
    method Next(accept: Accept, mode: Mode, ghost src: string, ghost i: nat) returns (tok: Token, text: string)
      requires Within(src, i)
      modifies scanner
      ensures Within(src, FuncToken(accept, mode, src, i).next)
      ensures tok == FuncToken(accept, mode, src, i).tok && text == FuncToken(accept, mode, src, i).text
    {
      hide SameFrom, ScanAt;
      scanner.accept := accept;
      scanner.mode := mode;
      tok := scanner.Scan(src, i);
      text := scanner.String();
    }

    method Peek(ghost src: string, ghost i: nat) returns (c: char)
      requires At(src, i)
      modifies scanner`pos, scanner`width
      ensures At(src, i) && scanner.pos == old(scanner.pos)
      ensures c == PeekAt(src, i) && scanner.width == if i < |src| then 1 else 0
    {
      c := scanner.Peek();
    }

    method ConsumeRbrack(n: Node, ghost src: string, ghost i: nat) returns (r: Answer)
      requires Within(src, i)
      modifies scanner
      ensures Returns(r, Close(n, src, i), src)
    {
      hide SameFrom;
      scanner.mode := RBRACK;
      var tok := scanner.Scan(src, i);
      if tok != TokenRbrack {
        return Error(BadSubstitution);
      }
      return Value(n);
    }

    method ParseAny(ghost src: string, ghost i: nat) returns (r: Answer)
      requires At(src, i)
      modifies scanner
      ensures AnyAt(src, i).Fail? ==> r == Error(AnyAt(src, i).error)
      ensures AnyAt(src, i).Done? ==> r == Value(AnyAt(src, i).node) && At(src, AnyAt(src, i).next)
      decreases |src| - i
    {
      hide SameFrom, ScanAt, FuncAt;
      scanner.accept := AcceptRune;
      scanner.mode := ANY;
      scanner.escapeChars := DOLLAR;
      ghost var x := ScanAt(Config(AcceptRune, ANY, DOLLAR), src, i);
      var tok := scanner.Scan(src, i);
      ghost var j := x.next;
      var left: Answer;
      if tok == TokenIdent {
        left := Value(Text(scanner.String()));
      } else if tok == TokenEOF {
        return Value(EMPTY);
      } else if tok == TokenLbrack {
        left := ParseFunc(src, x.next);
        if left.Error? {
          return left;
        }
        j := FuncAt(src, x.next).next;
      } else {
        return Error(BadSubstitution);
      }
      var right := ParseAny(src, j);
      if right.Error? {
        return right;
      }
      if right.node == EMPTY {
        return left;
      }
      return Value(List([left.node, right.node]));
    }

    method ParseFunc(ghost src: string, ghost i: nat) returns (r: Answer)
      requires At(src, i)
      modifies scanner
      ensures Returns(r, FuncAt(src, i), src)
      decreases |src| - i, 0
    {
      hide SameFrom, FuncToken, DefaultOrSubstrAt, DefaultAt, CasingAt, ReplaceAt, RemoveAt, LenAt;
      scanner.escapeChars := ESCAPE_ALL;
      var c := Peek(src, i);
      if c == '#' {
        r := ParseLenFunc(src, i);
        return;
      }
      ghost var j := FuncToken(AcceptIdent, IDENT, src, i).next;
      var tok, name := Next(AcceptIdent, IDENT, src, i);
      if tok != TokenIdent {
        return Error(BadVariableName);
      }
      c := Peek(src, j);
      match c {
        case ':' => r := ParseDefaultOrSubstr(name, src, j);
        case '=' => r := ParseDefaultFunc(name, src, j);
        case ',' => r := ParseCasingFunc(name, src, j);
        case '^' => r := ParseCasingFunc(name, src, j);
        case '/' => r := ParseReplaceFunc(name, src, j);
        case '#' => r := ParseRemoveFunc(name, AcceptHashFunc, src, j);
        case '%' => r := ParseRemoveFunc(name, AcceptPercentFunc, src, j);
        case _ =>
          r := ParseBare(name, src, j);
      }
    }

    /** The end of parseFunc: no operator follows the name. */
    method ParseBare(name: string, ghost src: string, ghost i: nat) returns (r: Answer)
      requires Within(src, i)
      modifies scanner
      ensures var bare := if PeekAt(src, i) == '}' then Done(Func(name, "", []), i + 1) else Fail(MissingClosingBrace);
              Returns(r, bare, src)
    {
      hide SameFrom;
      var tok, _ := Next(AcceptIdent, RBRACK, src, i);
      if tok == TokenRbrack {
        return Value(Func(name, "", []));
      }
      return Error(MissingClosingBrace);
    }

    method ParseParam(accept: Accept, escape: bool, ghost src: string, ghost i: nat) returns (r: Answer)
      requires Within(src, i)
      modifies scanner
      ensures Returns(r, ParamAt(accept, escape, src, i), src)
      decreases |src| - i, 1
    {
      hide SameFrom, FuncAt;
      ghost var x := FuncToken(accept, ParamMode(escape), src, i);
      var tok, text := Next(accept, ParamMode(escape), src, i);
      if tok == TokenLbrack {
        r := ParseFunc(src, x.next);
      } else if tok == TokenIdent || tok == TokenRbrack {
        r := Value(Text(text));
      } else {
        r := Error(BadFuncSubstitution);
      }
    }

    method ParseDefaultOrSubstr(name: string, ghost src: string, ghost i: nat) returns (r: Answer)
      requires Within(src, i) && i < |src|
      modifies scanner
      ensures Returns(r, DefaultOrSubstrAt(name, src, i), src)
      decreases |src| - i, 3
    {
      hide DefaultAt, SubstrAt;
      ghost var p := scanner.pos;
      var _ := scanner.Read();
      assert At(src, i + 1);
      var c := Peek(src, i + 1);
      scanner.Unread();
      if c == '=' || c == '-' || c == '?' || c == '+' {
        assert scanner.pos == p && At(src, i);
        r := ParseDefaultFunc(name, src, i);
      } else {
        r := ParseSubstrFunc(name, src, if i + 1 == |src| then i + 1 else i);
      }
    }

    method ParseSubstrFunc(name: string, ghost src: string, ghost i: nat) returns (r: Answer)
      requires Within(src, i)
      modifies scanner
      ensures Returns(r, SubstrAt(name, src, i), src)
      decreases |src| - i, 2
    {
      hide SameFrom, FuncToken, ParamAt, Close;
      ghost var x := FuncToken(AcceptOneColon, IDENT, src, i);
      var tok, op := Next(AcceptOneColon, IDENT, src, i);
      if tok != TokenIdent {
        return Error(BadSubstitution);
      }
      var a := ParseParam(RejectColonClose, false, src, x.next);
      if a.Error? {
        return a;
      }
      var args := [a.node];
      ghost var j := ParamAt(RejectColonClose, false, src, x.next).next;
      ghost var d := FuncToken(AcceptColon, IDENT_RBRACK, src, j);
      var delim;
      tok, delim := Next(AcceptColon, IDENT_RBRACK, src, j);
      if tok == TokenRbrack {
        return Value(Func(name, op, args));
      }
      if tok != TokenIdent {
        return Error(BadSubstitution);
      }
      var b := ParseParam(AcceptNotClosing, false, src, d.next);
      if b.Error? {
        return b;
      }
      args := args + [b.node];
      assert args == [a.node, b.node];
      r := ConsumeRbrack(Func(name, op, args), src, ParamAt(AcceptNotClosing, false, src, d.next).next);
    }

    method ParseRemoveFunc(name: string, accept: Accept, ghost src: string, ghost i: nat) returns (r: Answer)
      requires Within(src, i)
      modifies scanner
      ensures Returns(r, RemoveAt(name, accept, src, i), src)
      decreases |src| - i, 2
    {
      hide SameFrom, FuncToken, ParamAt, Close;
      ghost var x := FuncToken(accept, IDENT, src, i);
      var tok, op := Next(accept, IDENT, src, i);
      if tok != TokenIdent {
        return Error(BadSubstitution);
      }
      var a := ParseParam(AcceptNotClosing, false, src, x.next);
      if a.Error? {
        return a;
      }
      r := ConsumeRbrack(Func(name, op, [a.node]), src, ParamAt(AcceptNotClosing, false, src, x.next).next);
    }

    method ParseReplaceFunc(name: string, ghost src: string, ghost i: nat) returns (r: Answer)
      requires Within(src, i)
      modifies scanner
      ensures Returns(r, ReplaceAt(name, src, i), src)
      decreases |src| - i, 2
    {
      hide SameFrom, FuncToken, ParamAt, Close;
      ghost var x := FuncToken(AcceptReplaceFunc, IDENT, src, i);
      var tok, op := Next(AcceptReplaceFunc, IDENT, src, i);
      if tok != TokenIdent {
        return Error(BadSubstitution);
      }
      var a := ParseParam(AcceptNotSlash, true, src, x.next);
      if a.Error? {
        return a;
      }
      var args := [a.node];
      ghost var j := ParamAt(AcceptNotSlash, true, src, x.next).next;
      ghost var d := FuncToken(AcceptSlash, IDENT, src, j);
      var delim;
      tok, delim := Next(AcceptSlash, IDENT, src, j);
      if tok != TokenIdent {
        return Error(BadSubstitution);
      }
      var c := Peek(src, d.next);
      if c == '}' {
        r := ConsumeRbrack(Func(name, op, args), src, d.next);
        return;
      }
      var b := ParseParam(AcceptNotClosing, true, src, d.next);
      if b.Error? {
        return b;
      }
      args := args + [b.node];
      assert args == [a.node, b.node];
      r := ConsumeRbrack(Func(name, op, args), src, ParamAt(AcceptNotClosing, true, src, d.next).next);
    }

    method ParseDefaultFunc(name: string, ghost src: string, ghost i: nat) returns (r: Answer)
      requires Within(src, i)
      modifies scanner
      ensures Returns(r, DefaultAt(name, src, i), src)
      decreases |src| - i, 2
    {
      hide SameFrom, FuncToken, ParamAt, Close;
      var accept := AcceptDefaultFunc;
      var c := Peek(src, i);
      if c == '=' {
        accept := AcceptOneEqual;
      }
      ghost var j := FuncToken(accept, IDENT, src, i).next;
      var tok, op := Next(accept, IDENT, src, i);
      if tok != TokenIdent {
        return Error(BadDefaultFunction);
      }
      var args: seq<Node> := [];
      while true
        invariant i < j <= |src| && Within(src, j)
        invariant DefaultAt(name, src, i) == DefaultArgsAt(name, op, args, src, j)
        decreases |src| - j
      {
        c := Peek(src, j);
        if c == '}' {
          r := ConsumeRbrack(Func(name, op, args), src, j);
          return;
        }
        ghost var p := ParamAt(AcceptNotClosing, false, src, j);
        var a := ParseParam(AcceptNotClosing, false, src, j);
        if a.Error? {
          return a;
        }
        args := args + [a.node];
        j := p.next;
      }
    }

    method ParseCasingFunc(name: string, ghost src: string, ghost i: nat) returns (r: Answer)
      requires Within(src, i)
      modifies scanner
      ensures Returns(r, CasingAt(name, src, i), src)
    {
      hide SameFrom, FuncToken, Close;
      ghost var x := FuncToken(AcceptCasingFunc, IDENT, src, i);
      var tok, op := Next(AcceptCasingFunc, IDENT, src, i);
      if tok != TokenIdent {
        return Error(BadSubstitution);
      }
      r := ConsumeRbrack(Func(name, op, []), src, x.next);
    }

    method ParseLenFunc(ghost src: string, ghost i: nat) returns (r: Answer)
      requires Within(src, i)
      modifies scanner
      ensures Returns(r, LenAt(src, i), src)
    {
      hide SameFrom, FuncToken, Close;
      ghost var x := FuncToken(AcceptOneHash, IDENT, src, i);
      var tok, op := Next(AcceptOneHash, IDENT, src, i);
      if tok != TokenIdent {
        return Error(BadSubstitution);
      }
      ghost var p := FuncToken(AcceptIdent, IDENT, src, x.next);
      var name;
      tok, name := Next(AcceptIdent, IDENT, src, x.next);
      if tok != TokenIdent {
        return Error(BadSubstitution);
      }
      r := ConsumeRbrack(Func(name, op, []), src, p.next);
    }
  }

  /** Parses a template: the scanner that edits its buffer finds the tree of the text as given. */
  method ParseTemplate(text: string) returns (r: Answer)
    ensures r == match Template(text) case Done(n, _) => Value(n) case Fail(e) => Error(e)
  {
    var t := new Tree(text);
    r := t.ParseAny(text, 0);
    if r.Value? {
      t.root := r.node;
    }
  }
}
