/**
 The scanner of envsubst/parse/scan.go.

 `ScanAt` reads one token of an immutable source text.  `Scanner` is the source's scanner, which
 deletes escape characters from its own buffer while it scans; its `Scan` is proved to return the
 token that `ScanAt` finds, and to leave the unread text of the source in its buffer.
 Characters have width 1 and NUL is the end-of-input sentinel.
 */
module Scan {

  const EOF := '\0'

  datatype Token = TokenIllegal | TokenEOF | TokenIdent | TokenLbrack | TokenRbrack

  /** The mode bits. */
  datatype Mode = Mode(ident: bool, lbrack: bool, rbrack: bool, escape: bool)

  /** The escape bits: which characters escape. */
  datatype EscapeChars = EscapeChars(dollar: bool, backslash: bool)

  /** The accept functions. */
  datatype Accept =
    | AcceptRune | AcceptIdent | AcceptColon | AcceptOneHash | AcceptNotClosing | AcceptHashFunc
    | AcceptPercentFunc | AcceptDefaultFunc | AcceptReplaceFunc | AcceptOneEqual | AcceptOneColon
    | RejectColonClose | AcceptSlash | AcceptNotSlash | AcceptCasingFunc

  predicate IsIdentChar(r: char) {
    'a' <= r <= 'z' || 'A' <= r <= 'Z' || '0' <= r <= '9' || r == '_'
  }

  /** Is `r` accepted as the `i`-th character of a token, counting from 1? */
  predicate Accepts(f: Accept, r: char, i: int) {
    match f
    case AcceptRune => true
    case AcceptIdent => IsIdentChar(r)
    case AcceptColon => r == ':'
    case AcceptOneHash => r == '#' && i == 1
    case AcceptNotClosing => r != '}'
    case AcceptHashFunc => r == '#' && i < 3
    case AcceptPercentFunc => r == '%' && i < 3
    case AcceptDefaultFunc => (i == 1 && r == ':') || (i == 2 && (r == '=' || r == '-' || r == '?' || r == '+'))
    case AcceptReplaceFunc => (i == 1 && r == '/') || (i == 2 && (r == '/' || r == '#' || r == '%'))
    case AcceptOneEqual => i == 1 && r == '='
    case AcceptOneColon => i == 1 && r == ':'
    case RejectColonClose => r != ':' && r != '}'
    case AcceptSlash => r == '/'
    case AcceptNotSlash => r != '/'
    case AcceptCasingFunc => (r == ',' || r == '^') && i < 3
  }

  datatype Config = Config(accept: Accept, mode: Mode, esc: EscapeChars)

  // ----- tokens of an immutable text -----

  datatype Lexeme = Lexeme(tok: Token, text: string, next: nat)

  predicate LbrackAt(src: string, i: nat) {
    i + 1 < |src| && src[i] == '$' && src[i + 1] == '{'
  }

  /** The character at `i` escapes the next one. */
  predicate EscapedAt(c: Config, src: string, i: nat) {
    && c.mode.escape && i + 1 < |src|
    && ((src[i] == '$' && c.esc.dollar && src[i + 1] == '$')
        || (src[i] == '\\' && c.esc.backslash && (src[i + 1] == '/' || src[i + 1] == '\\')))
  }

  /** Does the scanner look one character ahead on `r`? */
  predicate LooksAhead(c: Config, r: char) {
    || (r == '$' && (c.mode.lbrack || (c.mode.escape && c.esc.dollar)))
    || (r == '\\' && c.mode.escape && c.esc.backslash)
  }

  /** The rest of an identifier token whose text so far is `acc`. */
  function Run(c: Config, src: string, i: nat, acc: string): (x: Lexeme)
    requires i <= |src|
    ensures x.tok == TokenIdent && i <= x.next <= |src| && |x.text| >= |acc|
    decreases |src| - i
  {
    if i == |src| || src[i] == EOF || (c.mode.lbrack && LbrackAt(src, i)) then
      Lexeme(TokenIdent, acc, i)
    else if !EscapedAt(c, src, i) && !Accepts(c.accept, src[i], |acc| + 1) then
      // a look-ahead at the end of the text leaves width 0, so the rejected character is kept
      if i + 1 == |src| && LooksAhead(c, src[i]) then Lexeme(TokenIdent, acc + [src[i]], i + 1)
      else Lexeme(TokenIdent, acc, i)
    else
      var k := if EscapedAt(c, src, i) then i + 1 else i;
      Run(c, src, k + 1, acc + [src[k]])
  }

  function ScanAt(c: Config, src: string, i: nat): (x: Lexeme)
    requires i <= |src|
    ensures i <= x.next <= |src|
    ensures x.tok != TokenEOF ==> i < x.next
    ensures x.tok == TokenIdent ==> |x.text| > 0
  {
    if i == |src| then Lexeme(TokenEOF, [], i)
    else if src[i] == EOF then Lexeme(TokenEOF, [src[i]], i + 1)
    else if c.mode.lbrack && LbrackAt(src, i) then Lexeme(TokenLbrack, [src[i], src[i + 1]], i + 2)
    else if c.mode.rbrack && src[i] == '}' then Lexeme(TokenRbrack, [src[i]], i + 1)
    else if !c.mode.ident then Lexeme(TokenIllegal, [src[i]], i + 1)
    else if EscapedAt(c, src, i) then Run(c, src, i + 2, [src[i + 1]])
    else if Accepts(c.accept, src[i], 1) then Run(c, src, i + 1, [src[i]])
    else Lexeme(TokenIllegal, [src[i]], i + 1)
  }

  // ----- buffers -----

  /** `buf` from `pos` on holds the same text as `src` from `i` on. */
  ghost predicate SameFrom(buf: string, pos: nat, src: string, i: nat) {
    && pos <= |buf| && i <= |src| && |buf| - pos == |src| - i
    && forall j {:trigger src[j]} :: i <= j < |src| ==> src[j] == buf[pos + j - i]
  }

  /** Equal unread text gives equal look-ahead. */
  lemma SameAhead(c: Config, buf: string, pos: nat, src: string, i: nat)
    requires SameFrom(buf, pos, src, i)
    ensures NextAt(c, buf, pos) == NextAt(c, src, i)
    ensures LbrackAt(buf, pos) <==> LbrackAt(src, i)
    ensures EscapedAt(c, buf, pos) <==> EscapedAt(c, src, i)
    ensures pos < |buf| ==> buf[pos] == src[i] && SameFrom(buf, pos + 1, src, i + 1)
  {
  }

  /** The buffer with the character at `k` deleted. */
  function Without(buf: string, k: nat): (r: string)
    requires k < |buf|
    ensures |r| == |buf| - 1
    ensures forall j :: 0 <= j < k ==> r[j] == buf[j]
    ensures forall j {:trigger r[j]} :: k <= j < |r| ==> r[j] == buf[j + 1]
  {
    buf[..k] + buf[k + 1..]
  }

  /** Deleting an escape character leaves the escaped one as the last of the token. */
  lemma DeleteEscape(buf: string, start: nat, pos: nat, src: string, i: nat)
    requires start <= pos && pos + 1 < |buf| && SameFrom(buf, pos, src, i)
    ensures i + 1 < |src|
    ensures Without(buf, pos)[start..pos + 1] == buf[start..pos] + [src[i + 1]]
    ensures SameFrom(Without(buf, pos), pos + 1, src, i + 2)
  {
  }

  lemma ExtendToken(buf: string, start: nat, pos: nat, src: string, i: nat)
    requires start <= pos < |buf| && SameFrom(buf, pos, src, i)
    ensures i < |src| && buf[start..pos + 1] == buf[start..pos] + [src[i]]
  {
  }

  // ----- one round of the identifier loop -----

  predicate StopsAt(c: Config, src: string, i: nat) {
    i >= |src| || src[i] == EOF || (c.mode.lbrack && LbrackAt(src, i))
  }

  datatype Next = Stop | Escape | Plain

  function NextAt(c: Config, src: string, i: nat): Next {
    if StopsAt(c, src, i) then Stop else if EscapedAt(c, src, i) then Escape else Plain
  }

  /** `buf[start..pos]` is the beginning of the token `goal`, whose other characters start at `src[k]`. */
  ghost predicate Partial(c: Config, buf: string, start: nat, pos: nat, src: string, k: nat, goal: Lexeme) {
    && start < pos <= |buf|
    && SameFrom(buf, pos, src, k)
    && Run(c, src, k, buf[start..pos]) == goal
  }

  /** `buf[start..pos]` is the token `goal`. */
  ghost predicate Complete(buf: string, start: nat, pos: nat, src: string, goal: Lexeme) {
    && start <= pos <= |buf|
    && buf[start..pos] == goal.text
    && SameFrom(buf, pos, src, goal.next)
  }

  lemma PartialStops(c: Config, buf: string, start: nat, pos: nat, src: string, k: nat, goal: Lexeme)
    requires Partial(c, buf, start, pos, src, k, goal) && NextAt(c, buf, pos) == Stop
    ensures Complete(buf, start, pos, src, goal)
  {
    SameAhead(c, buf, pos, src, k);
  }

  lemma PartialEscapes(c: Config, buf: string, start: nat, pos: nat, src: string, k: nat, goal: Lexeme)
    requires Partial(c, buf, start, pos, src, k, goal) && NextAt(c, buf, pos) == Escape
    ensures k + 2 <= |src| && Partial(c, Without(buf, pos), start, pos + 1, src, k + 2, goal)
  {
    SameAhead(c, buf, pos, src, k);
    DeleteEscape(buf, start, pos, src, k);
  }

  lemma PartialAccepts(c: Config, buf: string, start: nat, pos: nat, src: string, k: nat, goal: Lexeme)
    requires Partial(c, buf, start, pos, src, k, goal) && NextAt(c, buf, pos) == Plain
    requires Accepts(c.accept, buf[pos], pos + 1 - start)
    ensures k + 1 <= |src| && Partial(c, buf, start, pos + 1, src, k + 1, goal)
  {
    SameAhead(c, buf, pos, src, k);
    ExtendToken(buf, start, pos, src, k);
  }

  lemma PartialRejects(c: Config, buf: string, start: nat, pos: nat, src: string, k: nat, goal: Lexeme)
    requires Partial(c, buf, start, pos, src, k, goal) && NextAt(c, buf, pos) == Plain
    requires !Accepts(c.accept, buf[pos], pos + 1 - start)
    ensures Complete(buf, start, if pos + 1 == |buf| && LooksAhead(c, buf[pos]) then pos + 1 else pos, src, goal)
  {
  }

  /** The first character of an identifier starts the token that `ScanAt` finds. */
  lemma PartialStarts(c: Config, buf: string, start: nat, src: string, i: nat)
    requires start < |buf| && SameFrom(buf, start, src, i) && NextAt(c, buf, start) != Stop
    requires c.mode.ident && !(c.mode.rbrack && buf[start] == '}')
    ensures NextAt(c, buf, start) == Escape ==>
              Partial(c, Without(buf, start), start, start + 1, src, i + 2, ScanAt(c, src, i))
    ensures NextAt(c, buf, start) == Plain && Accepts(c.accept, buf[start], 1) ==>
              Partial(c, buf, start, start + 1, src, i + 1, ScanAt(c, src, i))
  {
    SameAhead(c, buf, start, src, i);
    if NextAt(c, buf, start) == Escape {
      DeleteEscape(buf, start, start, src, i);
      assert Without(buf, start)[start..start + 1] == [src[i + 1]];
    } else {
      assert buf[start..start + 1] == [src[i]];
    }
  }

  lemma OtherTokens(c: Config, buf: string, start: nat, src: string, i: nat)
    requires SameFrom(buf, start, src, i)
    ensures start == |buf| ==> Complete(buf, start, start, src, ScanAt(c, src, i))
    ensures start < |buf| && (buf[start] == EOF || (c.mode.rbrack && buf[start] == '}')) ==>
              Complete(buf, start, start + 1, src, ScanAt(c, src, i))
    ensures start < |buf| && NextAt(c, buf, start) != Stop && ScanAt(c, src, i).tok == TokenIllegal ==>
              Complete(buf, start, start + 1, src, ScanAt(c, src, i))
    ensures c.mode.lbrack && LbrackAt(buf, start) ==> Complete(buf, start, start + 2, src, ScanAt(c, src, i))
  {
  }

  // ----- the scanner -----

  class Scanner {
    var buf: string
    var pos: nat
    var start: nat
    var width: nat
    var mode: Mode
    var escapeChars: EscapeChars
    var accept: Accept

    ghost predicate Valid()
      reads this
    {
      start <= pos <= |buf|
    }

    /** The unread buffer is the text of `src` from `i` on. */
    ghost predicate Remaining(src: string, i: nat)
      reads this
    {
      pos <= |buf| && SameFrom(buf, pos, src, i)
    }

    function Cfg(): Config
      reads this
    {
      Config(accept, mode, escapeChars)
    }

    constructor (text: string)
      ensures Valid() && Remaining(text, 0)
    {
      buf, pos, start, width := text, 0, 0, 0;
      mode := Mode(false, false, false, false);
      escapeChars := EscapeChars(false, false);
      accept := AcceptRune;
    }

    method Read() returns (r: char)
      requires Valid()
      modifies this`pos, this`width
      ensures Valid()
      ensures if old(pos) == |buf| then r == EOF && width == 0 && pos == old(pos)
              else r == buf[old(pos)] && width == 1 && pos == old(pos) + 1
    {
      if pos >= |buf| {
        width := 0;
        return EOF;
      }
      r := buf[pos];
      width := 1;
      pos := pos + width;
    }

    method Unread()
      requires start + width <= pos <= |buf|
      modifies this`pos
      ensures Valid() && pos == old(pos) - width
    {
      pos := pos - width;
    }

    /** Deletes the character just read from the buffer; the position moves onto the next one. */
    method Skip()
      requires Valid() && start < pos < |buf|
      modifies this`buf
      ensures Valid() && buf == Without(old(buf), pos - 1)
    {
      var l := buf[..pos - 1];
      var r := buf[pos..];
      buf := l + r;
    }

    method Peek() returns (r: char)
      requires Valid()
      modifies this`pos, this`width
      ensures Valid() && pos == old(pos)
      ensures if pos == |buf| then r == EOF && width == 0 else r == buf[pos] && width == 1
    {
      r := Read();
      Unread();
    }

    /** The text of the token scanned last. */
    function String(): string
      requires Valid()
      reads this
    {
      buf[start..pos]
    }

    method ScanLbrack(r: char) returns (b: bool)
      requires Valid() && start < pos && width == 1 && r == buf[pos - 1]
      modifies this`pos, this`width
      ensures Valid()
      ensures b <==> mode.lbrack && LbrackAt(buf, old(pos) - 1)
      ensures pos == if b then old(pos) + 1 else old(pos)
      ensures b ==> width == 1
      ensures !b ==> width == if mode.lbrack && r == '$' && pos == |buf| then 0 else 1
    {
      if !mode.lbrack {
        return false;
      }
      if r == '$' {
        var q := Read();
        if q == '{' {
          return true;
        }
        Unread();
      }
      return false;
    }

    method ScanEscaped(r: char) returns (b: bool)
      requires Valid() && start < pos && r == buf[pos - 1]
      modifies this`pos, this`width
      ensures Valid() && pos == old(pos)
      ensures b <==> EscapedAt(Cfg(), buf, pos - 1)
      ensures width == (if mode.escape && ((r == '$' && escapeChars.dollar) || (r == '\\' && escapeChars.backslash))
                        then (if pos == |buf| then 0 else 1) else old(width))
    {
      if !mode.escape {
        return false;
      }
      if r == '$' && escapeChars.dollar {
        var q := Peek();
        if q == '$' {
          return true;
        }
      }
      if r == '\\' && escapeChars.backslash {
        var q := Peek();
        return q == '/' || q == '\\';
      }
      return false;
    }

    /** Scans the rest of an identifier whose first character, `src[i]`, has just been read. */
    method ScanIdent(r: char, ghost src: string, ghost i: nat) returns (b: bool)
      requires start + 1 == pos <= |buf| && SameFrom(buf, start, src, i)
      requires r == buf[start] && NextAt(Cfg(), buf, start) != Stop && !(mode.rbrack && r == '}')
      modifies this`buf, this`pos, this`width
      ensures b <==> mode.ident && (EscapedAt(Cfg(), src, i) || Accepts(accept, r, 1))
      ensures b ==> Complete(buf, start, pos, src, ScanAt(Cfg(), src, i))
      ensures !b ==> buf == old(buf) && pos == old(pos)
    {
      hide Partial, Complete, ScanAt;
      ghost var c := Cfg();
      SameAhead(c, buf, start, src, i);
      if !mode.ident {
        return false;
      }
      PartialStarts(c, buf, start, src, i);
      var escaped := ScanEscaped(r);
      ghost var k := i + 1;
      if escaped {
        Skip();
        k := i + 2;
      } else if !Accepts(accept, r, pos - start) {
        return false;
      }
      b := true;
      var more := true;
      while more
        invariant start < pos <= |buf|
        invariant more ==> k <= |src| && Partial(c, buf, start, pos, src, k, ScanAt(c, src, i))
        invariant !more ==> Complete(buf, start, pos, src, ScanAt(c, src, i))
        decreases more, |src| - k
      {
        more, k := ScanNext(src, k, ScanAt(c, src, i));
      }
    }

    /** Reads the next character of a token and tells what it is; on `Stop` nothing is consumed. */
    method Classify() returns (what: Next)
      requires start < pos <= |buf|
      modifies this`pos, this`width
      ensures what == NextAt(Cfg(), buf, old(pos))
      ensures pos == (if what == Stop then old(pos) else old(pos) + 1) <= |buf|
      ensures what == Plain ==> width == if pos == |buf| && LooksAhead(Cfg(), buf[pos - 1]) then 0 else 1
    {
      var r := Read();
      if r == EOF {
        Unread();
        return Stop;
      }
      var b := ScanLbrack(r);
      if b {
        Unread();
        Unread();
        return Stop;
      }
      b := ScanEscaped(r);
      return if b then Escape else Plain;
    }

    /** One round of scanIdent's loop: `more` tells whether a character was added to the token. */
    method ScanNext(ghost src: string, ghost k: nat, ghost goal: Lexeme) returns (more: bool, ghost k': nat)
      requires start < pos <= |buf| && Partial(Cfg(), buf, start, pos, src, k, goal)
      modifies this`buf, this`pos, this`width
      ensures start < pos <= |buf|
      ensures more ==> k < k' <= |src| && Partial(Cfg(), buf, start, pos, src, k', goal)
      ensures !more ==> Complete(buf, start, pos, src, goal)
    {
      hide Partial, Complete;
      k' := k;
      ghost var c, p := Cfg(), pos;
      var what := Classify();
      if what == Stop {
        PartialStops(c, buf, start, p, src, k, goal);
        return false, k;
      }
      if what == Escape {
        PartialEscapes(c, buf, start, p, src, k, goal);
        Skip();
        return true, k + 2;
      }
      if !Accepts(accept, buf[pos - 1], pos - start) {
        PartialRejects(c, buf, start, p, src, k, goal);
        Unread();
        return false, k;
      }
      PartialAccepts(c, buf, start, p, src, k, goal);
      return true, k + 1;
    }

    method Scan(ghost src: string, ghost i: nat) returns (tok: Token)
      requires Valid() && Remaining(src, i)
      modifies this`buf, this`pos, this`start, this`width
      ensures tok == ScanAt(Cfg(), src, i).tok
      ensures Complete(buf, start, pos, src, ScanAt(Cfg(), src, i))
    {
      hide Complete;
      start := pos;
      ghost var c := Cfg();
      SameAhead(c, buf, pos, src, i);
      OtherTokens(c, buf, pos, src, i);
      var r := Read();
      if r == EOF {
        return TokenEOF;
      }
      var b := ScanLbrack(r);
      if b {
        return TokenLbrack;
      }
      if mode.rbrack && r == '}' {
        return TokenRbrack;
      }
      b := ScanIdent(r, src, i);
      return if b then TokenIdent else TokenIllegal;
    }
  }
}
