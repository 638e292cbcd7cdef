/**
 The hand-over of field ownership of ssa/patch.go: the entries of the listed managers are merged into
 the entry of one target manager.  Entries are compared as the source compares them, by value except
 for their times and field sets, which are compared by reference.
 */
module ManagedFields {
  import opened Prelude

  type Path = string

  class Time {
    const seconds: int
    constructor (s: int) ensures seconds == s { seconds := s; }
  }

  class FieldsV1 {
    const raw: string
    constructor (s: string) ensures raw == s { raw := s; }
  }

  const APPLY := "Apply"

  datatype Entry = Entry(
    manager: string,
    operation: string,
    apiVersion: string,
    time: Time?,
    fieldsType: string,
    fields: FieldsV1?,
    subresource: string)

  datatype FieldManager = FieldManager(name: string, exactMatch: bool, operation: string)

  /** How a set of field paths is written; not every text is such a set. */
  datatype Codec = Codec(decode: string -> Option<set<Path>>, encode: set<Path> -> string)

  ghost predicate Lawful(c: Codec) {
    forall s: set<Path> :: c.decode(c.encode(s)) == Some(s)
  }

  const EMPTY := Entry("", "", "", null, "", null, "")

  /** The same field set is not shared by two entries; every decoded object is like this. */
  predicate Unshared(objEntries: seq<Entry>) {
    forall i, j :: 0 <= i < j < |objEntries| && objEntries[i].fields != null ==>
        objEntries[i].fields != objEntries[j].fields
  }

  predicate MatchFieldManager(e: Entry, m: FieldManager) {
    && e.operation == m.operation && e.subresource == ""
    && if m.exactMatch then e.manager == m.name
       else HasPrefix(e.manager, m.name)
  }

  /** By operation, outside any subresource, and by name: the same or, unless it has to be exact, a longer one. */
  lemma MatchIff(e: Entry, m: FieldManager)
    ensures MatchFieldManager(e, m) <==>
            && e.operation == m.operation && e.subresource == ""
            && (e.manager == m.name || (!m.exactMatch && exists rest :: e.manager == m.name + rest))
  {
    if HasPrefix(e.manager, m.name) { assert e.manager == m.name + e.manager[|m.name|..]; }
    if rest :| e.manager == m.name + rest { assert e.manager[..|m.name|] == m.name; }
  }

  predicate Matched(e: Entry, managers: seq<FieldManager>) {
    exists k :: 0 <= k < |managers| && MatchFieldManager(e, managers[k])
  }

  predicate IsTarget(e: Entry, name: string) { e.manager == name && e.operation == APPLY }

  /** The last entry of the target manager, on any subresource. */
  function Previous(objEntries: seq<Entry>, n: nat, name: string): (e: Entry)
    requires n <= |objEntries|
    ensures e == EMPTY || (IsTarget(e, name) && exists k :: 0 <= k < n && objEntries[k] == e)
    ensures e == EMPTY ==> forall k :: 0 <= k < n ==> !IsTarget(objEntries[k], name)
  {
    if n == 0 then EMPTY
    else if IsTarget(objEntries[n - 1], name) then objEntries[n - 1]
    else Previous(objEntries, n - 1, name)
  }

  /** The request: the entries of an object, the managers to replace and the name that replaces them. */
  datatype Request = Request(entries: seq<Entry>, managers: seq<FieldManager>, name: string)

  function Prev(q: Request): Entry { Previous(q.entries, |q.entries|, q.name) }

  /** Entry `k` is taken over while the target entry is still the one the object came with. */
  predicate Edits(q: Request, k: nat)
    requires k < |q.entries|
  {
    Matched(q.entries[k], q.managers) && q.entries[k] != Prev(q)
  }

  /** Something before `k` has given the target entry another field set, or made it. */
  predicate Changed(q: Request, k: nat)
    requires k <= |q.entries|
  {
    exists j :: 0 <= j < k && Edits(q, j) && (Prev(q) == EMPTY || q.entries[j].fields != null)
  }

  /** Entry `k` is passed over as the target entry itself. */
  predicate Skipped(q: Request, k: nat)
    requires k < |q.entries|
  {
    q.entries[k] == Prev(q) && !Changed(q, k)
  }

  predicate Absorbed(q: Request, k: nat)
    requires k < |q.entries|
  {
    !Skipped(q, k) && Matched(q.entries[k], q.managers)
  }

  /** The entries among the first `n` that stay. */
  function Kept(q: Request, n: nat): seq<Entry>
    requires n <= |q.entries|
  {
    if n == 0 then []
    else if Skipped(q, n - 1) || Matched(q.entries[n - 1], q.managers) then Kept(q, n - 1)
    else Kept(q, n - 1) + [q.entries[n - 1]]
  }

  function Paths(c: Codec, e: Entry): set<Path> {
    if e.fields == null then {} else
    match c.decode(e.fields.raw)
    case Some(s) => s
    case None => {}
  }

  /** The field paths of the target entry and of what it has absorbed among the first `n`. */
  function MergedPaths(c: Codec, q: Request, n: nat): set<Path>
    requires n <= |q.entries|
  {
    if n == 0 then Paths(c, Prev(q))
    else MergedPaths(c, q, n - 1) + if Absorbed(q, n - 1) then Paths(c, q.entries[n - 1]) else {}
  }

  predicate Decodes(c: Codec, e: Entry) { e.fields == null || c.decode(e.fields.raw).Some? }

  /** How many field sets have to go into one, among the target entry and the first `n`. */
  function Sources(q: Request, n: nat): nat
    requires n <= |q.entries|
  {
    if n == 0 then (if Prev(q).fields == null then 0 else 1)
    else Sources(q, n - 1) + if Absorbed(q, n - 1) && q.entries[n - 1].fields != null then 1 else 0
  }

  /** All of them can be read. */
  predicate SourcesDecode(c: Codec, q: Request, n: nat)
    requires n <= |q.entries|
  {
    if n == 0 then Decodes(c, Prev(q))
    else SourcesDecode(c, q, n - 1) && (Absorbed(q, n - 1) ==> Decodes(c, q.entries[n - 1]))
  }

  /** All field paths that the first `n` entries own. */
  function Owned(c: Codec, entries: seq<Entry>, n: nat): set<Path>
    requires n <= |entries|
  {
    if n == 0 then {} else Owned(c, entries, n - 1) + Paths(c, entries[n - 1])
  }

  lemma {:induction false} OwnedHas(c: Codec, entries: seq<Entry>, n: nat, k: nat)
    requires k < n <= |entries|
    ensures Paths(c, entries[k]) <= Owned(c, entries, n)
  {
    if k < n - 1 { OwnedHas(c, entries, n - 1, k); }
  }

  lemma {:induction false} OwnedPrefix(c: Codec, a: seq<Entry>, b: seq<Entry>, n: nat)
    requires n <= |a| && n <= |b| && forall k :: 0 <= k < n ==> a[k] == b[k]
    ensures Owned(c, a, n) == Owned(c, b, n)
  {
    if n == 0 {
    } else {
      OwnedPrefix(c, a, b, n - 1);
    }
  }

  lemma OwnedAppend(c: Codec, a: seq<Entry>, e: Entry)
    ensures Owned(c, a + [e], |a| + 1) == Owned(c, a, |a|) + Paths(c, e)
  {
    OwnedPrefix(c, a + [e], a, |a|);
  }

  lemma {:induction false} KeptAndMerged(c: Codec, q: Request, n: nat)
    requires n <= |q.entries|
    ensures Owned(c, Kept(q, n), |Kept(q, n)|) + MergedPaths(c, q, n) == Owned(c, q.entries, n) + Paths(c, Prev(q))
  {
    hide Skipped, Matched, Paths, Prev;
    if n == 0 {
    } else {
      KeptAndMerged(c, q, n - 1);
      OwnedAppend(c, Kept(q, n - 1), q.entries[n - 1]);
      if Skipped(q, n - 1) { SkippedIsPrev(q, n - 1); }
    }
  }

  lemma SkippedIsPrev(q: Request, k: nat)
    requires k < |q.entries| && Skipped(q, k)
    ensures q.entries[k] == Prev(q)
  {
  }

  /** Whatever a listed manager owned is owned by the target entry. */
  lemma {:induction false} MatchedIsMerged(c: Codec, q: Request, n: nat, k: nat)
    requires k < n <= |q.entries| && Matched(q.entries[k], q.managers)
    ensures Paths(c, q.entries[k]) <= MergedPaths(c, q, n)
  {
    hide Matched, Paths, Prev, Changed;
    PrevIsMerged(c, q, n);
    if k < n - 1 { MatchedIsMerged(c, q, n - 1, k); }
  }

  lemma {:induction false} PrevIsMerged(c: Codec, q: Request, n: nat)
    requires n <= |q.entries|
    ensures Paths(c, Prev(q)) <= MergedPaths(c, q, n)
  {
    hide Absorbed, Paths, Prev;
    if n == 0 {
    } else {
      PrevIsMerged(c, q, n - 1);
    }
  }

  /** Nothing is lost and nothing is gained: the entries own the same field paths as before. */
  lemma OwnershipConserved(c: Codec, q: Request, last: Entry)
    requires Paths(c, last) == MergedPaths(c, q, |q.entries|)
    ensures var out := Kept(q, |q.entries|) + [last];
            Owned(c, out, |out|) == Owned(c, q.entries, |q.entries|)
  {
    var n := |q.entries|;
    KeptAndMerged(c, q, n);
    OwnedAppend(c, Kept(q, n), last);
    if Prev(q) != EMPTY {
      var k :| 0 <= k < n && q.entries[k] == Prev(q);
      OwnedHas(c, q.entries, n, k);
    }
  }

  // ----- who keeps what -----

  /** An entry of another manager that no listed manager claims. */
  predicate Foreign(q: Request, e: Entry) {
    !IsTarget(e, q.name) && e != EMPTY && !Matched(e, q.managers)
  }

  function ForeignOf(q: Request, entries: seq<Entry>, n: nat): seq<Entry>
    requires n <= |entries|
  {
    if n == 0 then []
    else if Foreign(q, entries[n - 1]) then ForeignOf(q, entries, n - 1) + [entries[n - 1]]
    else ForeignOf(q, entries, n - 1)
  }

  lemma {:induction false} ForeignPrefix(q: Request, a: seq<Entry>, b: seq<Entry>, n: nat)
    requires n <= |a| && n <= |b| && forall k :: 0 <= k < n ==> a[k] == b[k]
    ensures ForeignOf(q, a, n) == ForeignOf(q, b, n)
  {
    if n == 0 {
    } else {
      ForeignPrefix(q, a, b, n - 1);
    }
  }

  lemma ForeignAppend(q: Request, a: seq<Entry>, e: Entry)
    ensures ForeignOf(q, a + [e], |a| + 1) == ForeignOf(q, a, |a|) + if Foreign(q, e) then [e] else []
  {
    hide Foreign;
    ForeignPrefix(q, a + [e], a, |a|);
  }

  lemma SkippedIsNotForeign(q: Request, k: nat)
    requires k < |q.entries| && (Skipped(q, k) || Matched(q.entries[k], q.managers))
    ensures !Foreign(q, q.entries[k])
  {
  }

  /** Entries of other managers stay as they are and in the order in which they were. */
  lemma {:induction false} ForeignKept(q: Request, n: nat)
    requires n <= |q.entries|
    ensures ForeignOf(q, Kept(q, n), |Kept(q, n)|) == ForeignOf(q, q.entries, n)
  {
    hide Skipped, Matched, Prev, Foreign;
    if n == 0 {
    } else {
      ForeignKept(q, n - 1);
      if Skipped(q, n - 1) || Matched(q.entries[n - 1], q.managers) {
        SkippedIsNotForeign(q, n - 1);
      } else {
        ForeignAppend(q, Kept(q, n - 1), q.entries[n - 1]);
      }
    }
  }

  lemma {:induction false} KeptIsUnmatched(q: Request, n: nat, k: nat)
    requires n <= |q.entries| && k < |Kept(q, n)|
    ensures !Matched(Kept(q, n)[k], q.managers)
  {
    hide Skipped, Matched, Prev;
    if n > 0 && k < |Kept(q, n - 1)| { KeptIsUnmatched(q, n - 1, k); }
  }

  /** The last entry is the target's, and no listed manager claims any other. */
  predicate Settled(q: Request) {
    && |q.entries| > 0 && IsTarget(q.entries[|q.entries| - 1], q.name)
    && forall k :: 0 <= k < |q.entries| - 1 ==> !Matched(q.entries[k], q.managers)
  }

  predicate NeedsPatch(q: Request) {
    exists k :: 0 <= k < |q.entries| && Edits(q, k)
  }

  /** The entries agree on all that matching looks at; writing and reading an entry again keeps it. */
  predicate SameText(a: Entry, b: Entry) {
    a.manager == b.manager && a.operation == b.operation && a.subresource == b.subresource
  }

  /** When nothing is handed over no field sets have to be joined, so nothing can fail. */
  lemma {:induction false} NoSources(q: Request, n: nat)
    requires n <= |q.entries| && !NeedsPatch(q)
    ensures Sources(q, n) == Sources(q, 0) < 2
  {
    if n == 0 {
    } else {
      NoSources(q, n - 1);
      assert !Edits(q, n - 1) && !Absorbed(q, n - 1);
    }
  }

  /** A second run, on the entries as they come back from the server, asks for nothing. */
  lemma SettledNeedsNoPatch(q: Request, again: Request)
    requires Settled(q) && again.managers == q.managers && again.name == q.name
    requires |again.entries| == |q.entries|
    requires forall k :: 0 <= k < |q.entries| ==> SameText(q.entries[k], again.entries[k])
    ensures !NeedsPatch(again) && Sources(again, |again.entries|) < 2
  {
    assert !NeedsPatch(again);
    NoSources(again, |again.entries|);
  }

  lemma {:induction false} KeptHas(q: Request, n: nat, k: nat)
    requires k < n <= |q.entries| && !Skipped(q, k) && !Matched(q.entries[k], q.managers)
    ensures q.entries[k] in Kept(q, n)
  {
    hide Skipped, Matched, Prev;
    if k < n - 1 { KeptHas(q, n - 1, k); }
  }

  lemma {:induction false} KeptFrom(q: Request, n: nat, e: Entry) returns (k: nat)
    requires n <= |q.entries| && e in Kept(q, n)
    ensures k < n && q.entries[k] == e && !Skipped(q, k) && !Matched(e, q.managers)
  {
    hide Skipped, Matched, Prev;
    if n == 0 {
    } else {
      if e in Kept(q, n - 1) { k := KeptFrom(q, n - 1, e); } else { k := n - 1; }
    }
  }

  /** A listed manager claims entry `j`, which differs from entry `p` and has a field set. */
  predicate HandsOver(q: Request, j: nat, p: nat)
    requires j < |q.entries| && p < |q.entries|
  {
    Matched(q.entries[j], q.managers) && q.entries[j] != q.entries[p] && q.entries[j].fields != null
  }

  /**
   The target entry the object came with is left behind, beside the merged one, exactly when no
   listed manager claims it and an entry before it has handed its own field set over.
   */
  lemma OldTargetStaysIff(q: Request, p: nat)
    requires p < |q.entries| && IsTarget(q.entries[p], q.name)
    requires forall k :: p < k < |q.entries| ==> !IsTarget(q.entries[k], q.name)
    ensures q.entries[p] in Kept(q, |q.entries|) <==>
            && !Matched(q.entries[p], q.managers)
            && exists j :: 0 <= j < p && HandsOver(q, j, p)
  {
    LastIsPrevious(q, p, |q.entries|);
    if q.entries[p] in Kept(q, |q.entries|) {
      var k := KeptFrom(q, |q.entries|, q.entries[p]);
      var j :| 0 <= j < k && Edits(q, j) && (Prev(q) == EMPTY || q.entries[j].fields != null);
      assert k <= p && HandsOver(q, j, p);
    }
    if !Matched(q.entries[p], q.managers) && Changed(q, p) { KeptHas(q, |q.entries|, p); }
    if j: nat :| j < p && HandsOver(q, j, p) {
      assert Edits(q, j);
    }
  }

  lemma {:induction false} LastIsPrevious(q: Request, p: nat, n: nat)
    requires p < n <= |q.entries| && IsTarget(q.entries[p], q.name)
    requires forall k :: p < k < |q.entries| ==> !IsTarget(q.entries[k], q.name)
    ensures Previous(q.entries, n, q.name) == q.entries[p]
  {
    if p < n - 1 { LastIsPrevious(q, p, n - 1); }
  }

  /** Two entries, the listed manager's before the target's: the target is left with two entries. */
  lemma OldTargetLeftBehind(f: FieldsV1, g: FieldsV1)
    ensures var target := Entry("flux", APPLY, "v1", null, "FieldsV1", g, "");
            var taken := Entry("kubectl", "Update", "v1", null, "FieldsV1", f, "");
            Kept(Request([taken, target], [FieldManager("kubectl", true, "Update")], "flux"), 2) == [target]
  {
    var target := Entry("flux", APPLY, "v1", null, "FieldsV1", g, "");
    var taken := Entry("kubectl", "Update", "v1", null, "FieldsV1", f, "");
    var q := Request([taken, target], [FieldManager("kubectl", true, "Update")], "flux");
    assert Prev(q) == target;
    assert MatchFieldManager(taken, q.managers[0]);
    assert Edits(q, 0) && Changed(q, 1);
    assert Kept(q, 1) == [];
    assert !Matched(target, q.managers);
  }

  // ----- the merge -----

  method MergeManagedFieldsV1(c: Codec, prev: FieldsV1?, next: FieldsV1?) returns (ok: bool, merged: FieldsV1?)
    requires Lawful(c)
    ensures prev == null ==> ok && merged == next
    ensures next == null ==> ok && merged == prev
    ensures prev != null && next != null ==> (ok <==> c.decode(prev.raw).Some? && c.decode(next.raw).Some?)
    ensures prev != null && next != null && ok ==>
              && merged != null && fresh(merged)
              && c.decode(merged.raw) == Some(c.decode(prev.raw).value + c.decode(next.raw).value)
  {
    if prev == null {
      return true, next;
    }
    if next == null {
      return true, prev;
    }
    var prevSet := c.decode(prev.raw);
    if prevSet.None? {
      return false, null;
    }
    var nextSet := c.decode(next.raw);
    if nextSet.None? {
      return false, null;
    }
    merged := new FieldsV1(c.encode(prevSet.value + nextSet.value));
    ok := true;
  }

  method MatchesAny(e: Entry, managers: seq<FieldManager>) returns (b: bool)
    ensures b <==> Matched(e, managers)
  {
    for k := 0 to |managers|
      invariant forall j :: 0 <= j < k ==> !MatchFieldManager(e, managers[j])
    {
      if MatchFieldManager(e, managers[k]) {
        return true;
      }
    }
    return false;
  }

  method FindPrevious(objEntries: seq<Entry>, name: string) returns (e: Entry)
    ensures e == Previous(objEntries, |objEntries|, name)
  {
    e := EMPTY;
    for k := 0 to |objEntries|
      invariant e == Previous(objEntries, k, name)
    {
      if IsTarget(objEntries[k], name) {
        e := objEntries[k];
      }
    }
  }

  datatype Outcome = NoPatch | MergeError | Replace(entries: seq<Entry>)

  /** The target entry after the first `n` entries. */
  ghost predicate Carries(c: Codec, q: Request, n: nat, prev: Entry)
    requires n <= |q.entries|
  {
    && Paths(c, prev) == MergedPaths(c, q, n)
    && (prev.fields != null <==> Sources(q, n) > 0)
    && (Decodes(c, prev) <==> SourcesDecode(c, q, n))
    && (Sources(q, n) >= 2 ==> SourcesDecode(c, q, n))
  }

  /** Without an entry to start from, the target entry is made of the first one that is taken over. */
  ghost predicate FromFirst(q: Request, n: nat, prev: Entry)
    requires n <= |q.entries|
  {
    exists j :: 0 <= j < n && Edits(q, j) && (forall i :: 0 <= i < j ==> !Edits(q, i))
                && prev == q.entries[j].(manager := q.name, operation := APPLY, fields := prev.fields)
  }

  /** Which entry the target entry is, but for its field set. */
  ghost predicate Tracks(q: Request, n: nat, prev: Entry)
    requires n <= |q.entries|
  {
    if Changed(q, n) then
      && IsTarget(prev, q.name)
      && (if Prev(q) == EMPTY then FromFirst(q, n, prev)
          else prev.fields != null && prev == Prev(q).(fields := prev.fields))
      && forall k :: n <= k < |q.entries| ==> q.entries[k] != prev
    else prev == Prev(q)
  }

  lemma SkippedIff(q: Request, n: nat, prev: Entry)
    requires n < |q.entries| && Tracks(q, n, prev)
    ensures Skipped(q, n) <==> q.entries[n] == prev
  {
  }

  lemma PassTracks(q: Request, n: nat, prev: Entry)
    requires n < |q.entries| && Tracks(q, n, prev) && !Absorbed(q, n)
    ensures Tracks(q, n + 1, prev)
  {
  }

  /** The first entry that is taken over becomes the target entry when there is none. */
  lemma RenameTracks(q: Request, n: nat)
    requires n < |q.entries| && Tracks(q, n, EMPTY) && Absorbed(q, n)
    ensures Tracks(q, n + 1, q.entries[n].(manager := q.name, operation := APPLY))
    ensures Prev(q) == EMPTY && Edits(q, n)
  {
  }

  /** A merged field set is a new one, or that of an entry that is behind. */
  lemma MergeTracks(q: Request, n: nat, prev: Entry, merged: FieldsV1?)
    requires n < |q.entries| && Tracks(q, n, prev) && prev != EMPTY && Absorbed(q, n)
    requires q.entries[n].fields == null ==> merged == prev.fields
    requires q.entries[n].fields != null ==>
               merged != null && forall k :: n < k < |q.entries| ==> q.entries[k].fields != merged
    ensures Tracks(q, n + 1, prev.(fields := merged))
  {
  }

  lemma PassCarries(c: Codec, q: Request, n: nat, prev: Entry)
    requires n < |q.entries| && Carries(c, q, n, prev) && !Absorbed(q, n)
    ensures Carries(c, q, n + 1, prev)
  {
    hide Absorbed, Prev, Paths, Decodes;
  }

  lemma RenameCarries(c: Codec, q: Request, n: nat, made: Entry)
    requires n < |q.entries| && Carries(c, q, n, EMPTY) && Absorbed(q, n) && made.fields == q.entries[n].fields
    ensures Carries(c, q, n + 1, made)
  {
    hide Absorbed, Prev;
  }

  /** One field set takes the place of two. */
  lemma MergeCarries(c: Codec, q: Request, n: nat, prev: Entry, after: Entry)
    requires n < |q.entries| && Carries(c, q, n, prev) && Absorbed(q, n)
    requires Decodes(c, after) <==> Decodes(c, prev) && Decodes(c, q.entries[n])
    requires prev.fields != null && q.entries[n].fields != null ==> Decodes(c, after)
    requires after.fields == null <==> prev.fields == null && q.entries[n].fields == null
    requires Paths(c, after) == Paths(c, prev) + Paths(c, q.entries[n])
    ensures Carries(c, q, n + 1, after)
  {
    hide Absorbed, Prev, Paths;
  }

  lemma {:induction false} SourcesGrow(c: Codec, q: Request, n: nat, m: nat)
    requires n <= m <= |q.entries|
    ensures Sources(q, n) <= Sources(q, m)
    ensures SourcesDecode(c, q, m) ==> SourcesDecode(c, q, n)
  {
    hide Absorbed, Prev, Decodes;
    if n < m { SourcesGrow(c, q, n, m - 1); }
  }

  /** A merge that fails has two field sets to join, and cannot read one. */
  lemma MergeFails(c: Codec, q: Request, n: nat, prev: Entry)
    requires n < |q.entries| && Carries(c, q, n, prev) && Absorbed(q, n)
    requires prev.fields != null && q.entries[n].fields != null
    requires !Decodes(c, prev) || !Decodes(c, q.entries[n])
    ensures Sources(q, |q.entries|) >= 2 && !SourcesDecode(c, q, |q.entries|)
  {
    hide Absorbed, Prev, Decodes;
    assert Sources(q, n + 1) >= 2 && !SourcesDecode(c, q, n + 1);
    SourcesGrow(c, q, n + 1, |q.entries|);
  }

  /** Takes entry `n` over into the target entry. */
  method Absorb(c: Codec, q: Request, n: nat, prev: Entry) returns (ok: bool, after: Entry)
    requires Lawful(c) && Unshared(q.entries) && n < |q.entries|
    requires Carries(c, q, n, prev) && Tracks(q, n, prev) && Absorbed(q, n)
    ensures ok ==> Carries(c, q, n + 1, after) && Tracks(q, n + 1, after)
    ensures !ok ==> Sources(q, |q.entries|) >= 2 && !SourcesDecode(c, q, |q.entries|)
  {
    hide Carries, Tracks, Absorbed;
    var e := q.entries[n];
    if prev == EMPTY {
      after := e.(manager := q.name, operation := APPLY);
      RenameTracks(q, n);
      RenameCarries(c, q, n, after);
      return true, after;
    }
    var good, merged := MergeManagedFieldsV1(c, prev.fields, e.fields);
    if !good {
      MergeFails(c, q, n, prev);
      return false, prev;
    }
    after := prev.(fields := merged);
    MergeTracks(q, n, prev, merged);
    MergeCarries(c, q, n, prev, after);
    ok := true;
  }

  /** What a patch puts in place of the entries. */
  ghost predicate IsReplacement(c: Codec, q: Request, out: seq<Entry>) {
    var n := |q.entries|;
    && |out| > 0 && out[..|out| - 1] == Kept(q, n)
    && Tracks(q, n, out[|out| - 1])
    && IsTarget(out[|out| - 1], q.name)
    && Paths(c, out[|out| - 1]) == MergedPaths(c, q, n)
    && Owned(c, out, |out|) == Owned(c, q.entries, n)
    && ForeignOf(q, out, |out|) == ForeignOf(q, q.entries, n)
    && Settled(Request(out, q.managers, q.name))
  }

  lemma Replaces(c: Codec, q: Request, prev: Entry)
    requires Carries(c, q, |q.entries|, prev) && Tracks(q, |q.entries|, prev) && NeedsPatch(q)
    ensures IsReplacement(c, q, Kept(q, |q.entries|) + [prev])
  {
    var n := |q.entries|;
    assert IsTarget(prev, q.name) by { hide Matched; }
    assert Paths(c, prev) == MergedPaths(c, q, n);
    hide Carries, Matched, Prev, Edits, Paths, Owned;
    OwnershipConserved(c, q, prev);
    ForeignKept(q, n);
    ForeignAppend(q, Kept(q, n), prev);
    forall k | 0 <= k < |Kept(q, n)| ensures !Matched(Kept(q, n)[k], q.managers) { KeptIsUnmatched(q, n, k); }
  }

  /**
   The patch that hands the entries of the listed managers to the target manager.  It is asked for
   exactly when some entry is to be handed over, and fails exactly when field sets have to be joined
   that cannot be read.
   */
  method PatchReplaceFieldsManagers(c: Codec, q: Request) returns (o: Outcome)
    requires Lawful(c) && Unshared(q.entries)
    ensures o.MergeError? <==> Sources(q, |q.entries|) >= 2 && !SourcesDecode(c, q, |q.entries|)
    ensures !o.MergeError? ==> (o.NoPatch? <==> !NeedsPatch(q))
    ensures o.Replace? ==> IsReplacement(c, q, o.entries)
  {
    hide Carries, Tracks, Matched, Skipped, Edits, IsReplacement;
    var prev := FindPrevious(q.entries, q.name);
    var entries := [];
    var edited := false;
    assert Carries(c, q, 0, prev) && Tracks(q, 0, prev) by { Starts(c, q); }
    for n := 0 to |q.entries|
      invariant Carries(c, q, n, prev) && Tracks(q, n, prev)
      invariant entries == Kept(q, n)
      invariant edited <==> exists j :: 0 <= j < n && Edits(q, j)
    {
      var e := q.entries[n];
      SkippedIff(q, n, prev);
      if e == prev {
        PassTracks(q, n, prev);
        PassCarries(c, q, n, prev);
        EditedIff(q, n);
        continue;
      }
      var matched := MatchesAny(e, q.managers);
      EditedIff(q, n);
      if matched {
        var ok, after := Absorb(c, q, n, prev);
        if !ok {
          return MergeError;
        }
        prev := after;
        edited := true;
      } else {
        PassTracks(q, n, prev);
        PassCarries(c, q, n, prev);
        entries := entries + [e];
      }
    }
    NoFailure(c, q, prev);
    if !edited {
      return NoPatch;
    }
    Replaces(c, q, prev);
    return Replace(entries + [prev]);
  }

  lemma Starts(c: Codec, q: Request)
    ensures Carries(c, q, 0, Prev(q)) && Tracks(q, 0, Prev(q))
  {
    hide Prev;
  }

  /** After an entry that is passed by nothing is new; after one that is absorbed something is handed over. */
  lemma EditedIff(q: Request, n: nat)
    requires n < |q.entries|
    ensures !Absorbed(q, n) ==> !Edits(q, n)
    ensures Absorbed(q, n) ==> exists j :: 0 <= j <= n && Edits(q, j)
  {
    hide Prev, Matched;
    if Absorbed(q, n) && q.entries[n] == Prev(q) {
      var j :| 0 <= j < n && Edits(q, j) && (Prev(q) == EMPTY || q.entries[j].fields != null);
    } else if Absorbed(q, n) {
      assert Edits(q, n);
    }
  }

  lemma NoFailure(c: Codec, q: Request, prev: Entry)
    requires Carries(c, q, |q.entries|, prev)
    ensures Sources(q, |q.entries|) >= 2 ==> SourcesDecode(c, q, |q.entries|)
  {
  }
}
