/**
 JSON pointers as ssa/manager_apply.go reads them and as ssa/patch.go writes them, against section 4
 of RFC 6901.
 */
module JsonPointer {
  import opened Prelude

  // ----- escapes -----

  /** `s` with every `~` that `d` follows, and that `d`, replaced by `to`. */
  function ReplaceAll(s: string, d: char, to: char): string {
    if |s| == 0 then ""
    else if s[0] == '~' && |s| > 1 && s[1] == d then [to] + ReplaceAll(s[2..], d, to)
    else [s[0]] + ReplaceAll(s[1..], d, to)
  }

  /** The decoder of the standard: one pass, both escapes. */
  function Decode(s: string): string {
    if |s| == 0 then ""
    else if s[0] == '~' && |s| > 1 && s[1] == '1' then "/" + Decode(s[2..])
    else if s[0] == '~' && |s| > 1 && s[1] == '0' then "~" + Decode(s[2..])
    else [s[0]] + Decode(s[1..])
  }

  function Encode(s: string): string {
    if |s| == 0 then ""
    else (if s[0] == '/' then "~1" else if s[0] == '~' then "~0" else [s[0]]) + Encode(s[1..])
  }

  /** The first pass does not touch what the second looks for. */
  lemma FirstKept(s: string)
    requires |s| > 0
    ensures |ReplaceAll(s, '1', '/')| > 0
    ensures ReplaceAll(s, '1', '/')[0] == '0' <==> s[0] == '0'
  {
  }

  /** The two replacements, one after the other, are the decoder, on every text. */
  lemma {:induction false} TwoPassesAreOne(s: string)
    ensures ReplaceAll(ReplaceAll(s, '1', '/'), '0', '~') == Decode(s)
  {
    if |s| == 0 {
    } else if s[0] == '~' && |s| > 1 && s[1] == '1' {
      TwoPassesAreOne(s[2..]);
      PassesOver('/', ReplaceAll(s[2..], '1', '/'));
    } else if s[0] == '~' && |s| > 1 && s[1] == '0' {
      TwoPassesAreOne(s[2..]);
      var rest := ReplaceAll(s[2..], '1', '/');
      assert ReplaceAll(s, '1', '/') == "~0" + rest by {
        assert s[1..][0] == '0' && s[1..][1..] == s[2..];
        assert ['~'] + (['0'] + rest) == "~0" + rest;
      }
      assert ("~0" + rest)[2..] == rest;
    } else {
      TwoPassesAreOne(s[1..]);
      var rest := ReplaceAll(s[1..], '1', '/');
      if |s| > 1 { FirstKept(s[1..]); }
      PassesOver(s[0], rest);
    }
  }

  lemma PassesOver(x: char, rest: string)
    requires x != '~' || |rest| == 0 || rest[0] != '0'
    ensures ReplaceAll([x] + rest, '0', '~') == [x] + ReplaceAll(rest, '0', '~')
  {
    assert ([x] + rest)[1..] == rest;
  }

  lemma {:induction false} DecodeUndoesEncode(s: string)
    ensures Decode(Encode(s)) == s
  {
    if |s| == 0 {
    } else {
      DecodeUndoesEncode(s[1..]);
      var rest := Encode(s[1..]);
      assert ("~1" + rest)[2..] == rest && ("~0" + rest)[2..] == rest && ([s[0]] + rest)[1..] == rest;
    }
  }

  predicate NoSlash(s: string) { forall k :: 0 <= k < |s| ==> s[k] != '/' }

  lemma {:induction false} EncodeHasNoSlash(s: string)
    ensures NoSlash(Encode(s)) && (|s| == 0 <==> |Encode(s)| == 0)
  {
    if |s| == 0 {
    } else {
      EncodeHasNoSlash(s[1..]);
    }
  }

  // ----- segments -----

  function Split(s: string): (r: seq<string>)
    ensures |r| > 0
  {
    if |s| == 0 then [""]
    else if s[0] == '/' then [""] + Split(s[1..])
    else var r := Split(s[1..]); [[s[0]] + r[0]] + r[1..]
  }

  /** The segments from `k` on, with a slash between two of them. */
  function Join(segments: seq<string>, k: nat): string
    requires k < |segments|
    decreases |segments| - k
  {
    if k == |segments| - 1 then segments[k] else segments[k] + "/" + Join(segments, k + 1)
  }

  lemma {:induction false} SplitOne(a: string)
    requires NoSlash(a)
    ensures Split(a) == [a]
  {
    if |a| == 0 {
    } else {
      SplitOne(a[1..]);
      assert [a[0]] + a[1..] == a;
    }
  }

  lemma {:induction false} SplitFirst(a: string, rest: string)
    requires NoSlash(a)
    ensures Split(a + "/" + rest) == [a] + Split(rest)
  {
    var s := a + "/" + rest;
    if |a| == 0 {
      assert s[1..] == rest;
    } else {
      SplitFirst(a[1..], rest);
      assert s[1..] == a[1..] + "/" + rest;
      assert [a[0]] + a[1..] == a;
    }
  }

  lemma {:induction false} SplitUndoesJoin(segments: seq<string>, k: nat)
    requires k < |segments| && forall j :: 0 <= j < |segments| ==> NoSlash(segments[j])
    ensures Split(Join(segments, k)) == segments[k..]
    decreases |segments| - k
  {
    assert NoSlash(segments[k]);
    if k == |segments| - 1 {
      SplitOne(segments[k]);
    } else {
      SplitUndoesJoin(segments, k + 1);
      SplitFirst(segments[k], Join(segments, k + 1));
    }
  }

  function Encoded(segments: seq<string>): (r: seq<string>)
    ensures |r| == |segments| && forall k :: 0 <= k < |r| ==> r[k] == Encode(segments[k])
  {
    seq(|segments|, k requires 0 <= k < |segments| => Encode(segments[k]))
  }

  function Decoded(segments: seq<string>): (r: seq<string>)
    ensures |r| == |segments| && forall k :: 0 <= k < |r| ==> r[k] == Decode(segments[k])
  {
    seq(|segments|, k requires 0 <= k < |segments| => Decode(segments[k]))
  }

  /** The JSON pointer to a list of field names. */
  function Pointer(segments: seq<string>): string
    requires |segments| > 0
  {
    "/" + Join(Encoded(segments), 0)
  }

  lemma JoinIsEmptyIff(segments: seq<string>)
    requires |segments| > 0
    ensures |Join(segments, 0)| == 0 <==> segments == [""]
  {
  }

  function TrimSlash(pointer: string): string {
    if |pointer| > 0 && pointer[0] == '/' then pointer[1..] else pointer
  }

  /** What a JSON pointer stands for: the names between its slashes. */
  function Names(pointer: string): seq<string> { Decoded(Split(TrimSlash(pointer))) }

  /** A JSON pointer made of a list of names stands for that list, whatever the names are. */
  lemma NamesOfPointer(names: seq<string>)
    requires |names| > 0
    ensures Names(Pointer(names)) == names
    ensures |TrimSlash(Pointer(names))| == 0 <==> names == [""]
  {
    var e := Encoded(names);
    assert TrimSlash(Pointer(names)) == Join(e, 0);
    forall j | 0 <= j < |e| ensures NoSlash(e[j]) && Decode(e[j]) == names[j] {
      EncodeHasNoSlash(names[j]);
      DecodeUndoesEncode(names[j]);
    }
    SplitUndoesJoin(e, 0);
    assert e[0..] == e;
    assert Decoded(e) == names;
    JoinIsEmptyIff(e);
    EncodeHasNoSlash(names[0]);
  }

  // ----- from names to the segments of a field set -----

  /** How an index is read, and how the key of a list item is found: both are given. */
  datatype Lookup = Lookup(
    index: string -> Option<int>,
    mergeKey: (seq<string>, int, seq<string>) -> Option<string>)

  /** The segments of the first `n` names. */
  function SegmentsOf(l: Lookup, names: seq<string>, n: nat): (r: Option<seq<string>>)
    requires n <= |names|
    ensures r.Some? ==> |r.value| == n
  {
    if n == 0 then Some([]) else
    match SegmentsOf(l, names, n - 1)
    case None => None
    case Some(before) =>
      match l.index(names[n - 1])
      case None => Some(before + ["f:" + names[n - 1]])
      case Some(idx) =>
        match l.mergeKey(names[..n - 1], idx, before)
        case None => None
        case Some(key) => Some(before + [key])
  }

  lemma {:induction false} NoSegmentsAfter(l: Lookup, names: seq<string>, n: nat, m: nat)
    requires n <= m <= |names| && SegmentsOf(l, names, n).None?
    ensures SegmentsOf(l, names, m).None?
  {
    if n < m { NoSegmentsAfter(l, names, n, m - 1); }
  }

  /** Segment `k`: a field, or for an index the key of the item, asked for with the names and segments before it. */
  predicate SegmentIs(l: Lookup, names: seq<string>, segments: seq<string>, k: nat)
    requires k < |names| && k < |segments|
  {
    match l.index(names[k])
    case None => segments[k] == "f:" + names[k]
    case Some(idx) => l.mergeKey(names[..k], idx, segments[..k]) == Some(segments[k])
  }

  /** The segments are those that are right one by one. */
  lemma {:induction false} SegmentsIff(l: Lookup, names: seq<string>, n: nat, segments: seq<string>)
    requires n <= |names|
    ensures SegmentsOf(l, names, n) == Some(segments) <==>
            |segments| == n && forall k :: 0 <= k < n ==> SegmentIs(l, names, segments, k)
  {
    if n == 0 {
    } else if |segments| == n {
      var before := segments[..n - 1];
      SegmentsIff(l, names, n - 1, before);
      forall k | 0 <= k < n - 1 ensures SegmentIs(l, names, segments, k) <==> SegmentIs(l, names, before, k) {
        assert before[..k] == segments[..k];
      }
      assert before + [segments[n - 1]] == segments;
      if SegmentsOf(l, names, n) == Some(segments) {
        assert SegmentsOf(l, names, n - 1).value == before;
        assert SegmentIs(l, names, segments, n - 1);
      }
      if forall k :: 0 <= k < n ==> SegmentIs(l, names, segments, k) {
        forall k | 0 <= k < n - 1 ensures SegmentIs(l, names, before, k) { assert SegmentIs(l, names, segments, k); }
        assert SegmentIs(l, names, segments, n - 1);
      }
    }
  }

  /** Every name as a field. */
  function Fields(names: seq<string>, n: nat): (r: seq<string>)
    requires n <= |names|
    ensures |r| == n && forall k :: 0 <= k < n ==> r[k] == "f:" + names[k]
  {
    seq(n, k requires 0 <= k < n => "f:" + names[k])
  }

  lemma {:induction false} PlainSegments(l: Lookup, names: seq<string>, n: nat)
    requires n <= |names| && forall k :: 0 <= k < n ==> l.index(names[k]).None?
    ensures SegmentsOf(l, names, n) == Some(Fields(names, n))
  {
    if n == 0 {
      assert Fields(names, 0) == [];
    } else {
      PlainSegments(l, names, n - 1);
      assert Fields(names, n) == Fields(names, n - 1) + ["f:" + names[n - 1]];
    }
  }

  /** Decodes the segments, one after the other, where they stand. */
  method DecodeSegments(rawSegments: seq<string>) returns (raw: seq<string>)
    ensures raw == Decoded(rawSegments)
  {
    hide Decode, ReplaceAll;
    raw := rawSegments;
    for i := 0 to |raw|
      invariant |raw| == |rawSegments|
      invariant forall k :: 0 <= k < i ==> raw[k] == Decode(rawSegments[k])
      invariant forall k :: i <= k < |raw| ==> raw[k] == rawSegments[k]
    {
      TwoPassesAreOne(raw[i]);
      var s := ReplaceAll(raw[i], '1', '/');
      raw := raw[i := ReplaceAll(s, '0', '~')];
    }
  }

  /** The segments of a JSON pointer; there are none for one without text. */
  function PointerSegments(l: Lookup, pointer: string): Option<seq<string>> {
    if |TrimSlash(pointer)| == 0 then None else SegmentsOf(l, Names(pointer), |Names(pointer)|)
  }

  method PointerToFieldsV1Segments(l: Lookup, pointer: string) returns (r: Option<seq<string>>)
    ensures r == PointerSegments(l, pointer)
  {
    hide Split, Decoded;
    var text := TrimSlash(pointer);
    if |text| == 0 {
      return None;
    }
    var raw := DecodeSegments(Split(text));
    var segments: seq<string>, objPath: seq<string> := [], [];
    for i := 0 to |raw|
      invariant objPath == raw[..i]
      invariant SegmentsOf(l, raw, i) == Some(segments)
    {
      var idx := l.index(raw[i]);
      if idx.None? {
        segments := segments + ["f:" + raw[i]];
      } else {
        var key := l.mergeKey(objPath, idx.value, segments);
        if key.None? {
          NoSegmentsAfter(l, raw, i + 1, |raw|);
          return None;
        }
        segments := segments + [key.value];
      }
      objPath := objPath + [raw[i]];
    }
    return Some(segments);
  }

  /** Field names that are no indices come back as they went in, but for a single empty one. */
  lemma FieldNamesRoundTrip(l: Lookup, names: seq<string>)
    requires |names| > 0 && forall k :: 0 <= k < |names| ==> l.index(names[k]).None?
    ensures PointerSegments(l, Pointer(names)) == if names == [""] then None else Some(Fields(names, |names|))
  {
    hide Names, Pointer, Fields;
    NamesOfPointer(names);
    PlainSegments(l, names, |names|);
  }

  // ----- annotation keys -----

  /** The only escape that the removal of annotations writes. */
  function EscapeSlashes(key: string): string {
    if |key| == 0 then ""
    else (if key[0] == '/' then "~1" else [key[0]]) + EscapeSlashes(key[1..])
  }

  /** Somewhere in the key, a `~` stands before a digit that makes it an escape. */
  predicate LooksEscaped(key: string) {
    exists k :: 0 <= k < |key| - 1 && key[k] == '~' && (key[k + 1] == '0' || key[k + 1] == '1')
  }

  lemma LooksEscapedRest(key: string)
    requires |key| > 0
    ensures LooksEscaped(key) <==>
            (|key| > 1 && key[0] == '~' && (key[1] == '0' || key[1] == '1')) || LooksEscaped(key[1..])
  {
  }

  lemma DecodeTail(x: char, rest: string)
    requires x != '~' || |rest| == 0 || (rest[0] != '0' && rest[0] != '1')
    ensures Decode([x] + rest) == [x] + Decode(rest)
  {
    assert ([x] + rest)[1..] == rest;
  }

  lemma {:induction false} DecodedKeyIff(key: string)
    ensures |Decode(EscapeSlashes(key))| <= |key|
    ensures Decode(EscapeSlashes(key)) == key <==> !LooksEscaped(key)
  {
    if |key| == 0 {
    } else {
      LooksEscapedRest(key);
      var rest := EscapeSlashes(key[1..]);
      DecodedKeyIff(key[1..]);
      if key[0] == '/' {
        assert ("~1" + rest)[2..] == rest;
      } else if |key| > 1 && key[0] == '~' && (key[1] == '0' || key[1] == '1') {
        DecodedKeyIff(key[2..]);
        assert key[1..][1..] == key[2..];
        var s := EscapeSlashes(key);
        assert s[2..] == EscapeSlashes(key[2..]);
      } else {
        DecodeTail(key[0], rest);
      }
      assert key == [key[0]] + key[1..];
    }
  }

  predicate Plain(s: string) { forall k :: 0 <= k < |s| ==> s[k] != '/' && s[k] != '~' }

  lemma NamesOfKey(a: string, b: string, key: string)
    requires Plain(a) && Plain(b)
    ensures Names("/" + (a + "/" + (b + "/" + EscapeSlashes(key)))) == [a, b, key] <==> !LooksEscaped(key)
  {
    hide Split, Decode, EscapeSlashes, LooksEscaped;
    var e := EscapeSlashes(key);
    EscapeHasNoSlash(key);
    var text := a + "/" + (b + "/" + e);
    assert TrimSlash("/" + text) == text;
    SplitFirst(a, b + "/" + e);
    SplitFirst(b, e);
    SplitOne(e);
    assert Split(text) == [a, b, e];
    DecodePlain(a);
    DecodePlain(b);
    assert Decoded([a, b, e]) == [a, b, Decode(e)];
    DecodedKeyIff(key);
    assert [a, b, Decode(e)] == [a, b, key] <==> Decode(e) == key by {
      assert [a, b, Decode(e)][2] == Decode(e) && [a, b, key][2] == key;
    }
  }

  function AnnotationPath(key: string): string { "/metadata/annotations/" + EscapeSlashes(key) }

  /** The path of a removed annotation names the annotation exactly when its key does not look escaped. */
  lemma AnnotationPathIff(key: string)
    ensures Names(AnnotationPath(key)) == ["metadata", "annotations", key] <==> !LooksEscaped(key)
  {
    hide Names, EscapeSlashes, LooksEscaped;
    NamesOfKey("metadata", "annotations", key);
    assert AnnotationPath(key) == "/" + ("metadata" + "/" + ("annotations" + "/" + EscapeSlashes(key)));
  }

  /** The removal of the annotation `a~1b` aims at `a/b`. */
  lemma EscapedKeyIsMissed()
    ensures Decode(EscapeSlashes("a~1b")) == "a/b"
    ensures Names(AnnotationPath("a~1b")) != ["metadata", "annotations", "a~1b"]
  {
    var key := "a~1b";
    assert EscapeSlashes(key[3..]) == "b" && EscapeSlashes(key[2..]) == "1b" && EscapeSlashes(key[1..]) == "~1b";
    assert EscapeSlashes(key) == key;
    assert Decode(key[3..]) == "b" && Decode(key[1..]) == "/b";
    assert LooksEscaped(key) by { assert key[1] == '~' && key[1 + 1] == '1'; }
    hide Names, AnnotationPath;
    AnnotationPathIff(key);
  }

  lemma {:induction false} EscapeHasNoSlash(key: string)
    ensures NoSlash(EscapeSlashes(key))
  {
    if |key| == 0 {
    } else {
      EscapeHasNoSlash(key[1..]);
    }
  }

  lemma {:induction false} DecodePlain(s: string)
    requires Plain(s)
    ensures Decode(s) == s
  {
    if |s| == 0 {
    } else {
      DecodePlain(s[1..]);
      assert [s[0]] + s[1..] == s;
    }
  }
}
