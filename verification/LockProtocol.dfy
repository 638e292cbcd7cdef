/**
 The locking protocol of lockedfile: any number of processes open, lock, read, change, unlock and
 close one path, one system call at a time and in any interleaving.

 A section is what a process does between getting the write lock and releasing it.  The log records,
 for every finished section, the content at its two ends.  That a section that succeeds leaves what
 it promises is not assumed: a Transform writes what it makes of the bytes that it has read.
 */
module LockProtocol {
  import opened Prelude
  import opened LockedFile

  /** What a process opens the file for; `Edit` stands for the callers of Edit, Create and Mutex.Lock. */
  datatype Op = ReadAll | Write(data: Bytes) | Transform(t: Bytes -> Option<Bytes>) | Edit(trunc: bool)

  /** Which call a section makes next. */
  datatype Phase =
    | Cutting                                  // the truncation on opening
    | Free                                     // the calls of whoever holds the file
    | Copying(pos: nat)                        // the next write of Write
    | Loading(got: Bytes)                      // the next read of Transform
    | Tail(old_: Bytes, new_: Bytes)           // the write of what is longer
    | UndoTail(old_: Bytes)                    // the truncation of an incomplete tail
    | Body(old_: Bytes, new_: Bytes)           // the write over the old bytes
    | Shrink(old_: Bytes, new_: Bytes)         // the truncation of what is shorter
    | Undo(old_: Bytes)                        // the write of the old bytes
    | UndoShrink(old_: Bytes)                  // the truncation to the old size
    | Ended(ok: bool, undone: bool)            // with success, or with the old content back

  /** A process; `Section` records in `before` the content at the time of its lock, which no step looks at. */
  datatype Proc =
    | Idle
    | Waiting(op: Op)
    | Reading(got: Bytes)
    | ReadDone(result: Option<Bytes>)
    | Section(op: Op, before: Bytes, phase: Phase)

  datatype Commit = Commit(op: Op, before: Bytes, after: Bytes, ok: bool, undone: bool)

  /** A finished ReadAll: what it returned, and how many sections had finished when it did. */
  datatype Snapshot = Snapshot(value: Bytes, at: nat)

  /** The file, the operating system's lock table for it, the processes, and what has happened. */
  datatype State = State(
    content: Bytes,
    writer: Option<nat>,
    readers: set<nat>,
    procs: map<nat, Proc>,
    log: seq<Commit>,
    snapshots: seq<Snapshot>)

  // ----- one call -----

  /** One call on the locked file, with what the operating system makes of it. */
  datatype Call =
    | ReadMore(upTo: nat)        // a read that returns some bytes
    | EndOfInput                 // a read that finds the end
    | InputFails                 // a read that fails
    | Change(outcome: Outcome)   // a write that completes or stops short, a truncation that works or fails
    | Chunk(n: nat)              // a write of the next bytes of Write
    | Any(to: Bytes)             // whatever the holder of the file does to it

  predicate Possible(op: Op, content: Bytes, phase: Phase, c: Call) {
    match phase
    case Loading(got) =>
      (c.ReadMore? && |got| < c.upTo <= |content|) || (c.EndOfInput? && |got| >= |content|) || c.InputFails?
    case Copying(pos) =>
      && op.Write? && pos <= |op.data|
      && ((c.Chunk? && c.n <= |op.data| - pos) || (c.EndOfInput? && pos == |op.data|) || c.InputFails? || c.Change?)
    case Free => c.Any? || c.EndOfInput?
    case Ended(_, _) => false
    case _ => c.Change?
  }

  /** What was read so far, extended with the next bytes of the file. */
  function Extend(got: Bytes, content: Bytes, upTo: nat): Bytes
    requires |got| <= upTo <= |content|
  {
    got + content[|got|..upTo]
  }

  /** The content after a truncation to `n` that may fail. */
  function Cut(content: Bytes, n: nat, x: Outcome): Bytes { if x.Complete? then TruncateTo(content, n) else content }

  function ContentAfterCall(op: Op, content: Bytes, phase: Phase, c: Call): Bytes
    requires Possible(op, content, phase, c)
  {
    match c
    case Any(to) => to
    case Chunk(n) => WriteAt(content, phase.pos, op.data[phase.pos..phase.pos + n])
    case Change(x) =>
      (match phase
       case Cutting => Cut(content, 0, x)
       case Copying(pos) => WriteAt(content, pos, Written(op.data[pos..], x))
       case Tail(old_, new_) => WriteAt(content, |old_|, Written(Beyond(new_, |old_|), x))
       case Body(old_, new_) => WriteAt(content, 0, Written(UpTo(new_, |old_|), x))
       case Shrink(_, new_) => Cut(content, |new_|, x)
       case Undo(old_) => WriteAt(content, 0, Written(old_, x))
       case UndoTail(old_) => Cut(content, |old_|, x)
       case UndoShrink(old_) => Cut(content, |old_|, x)
       case _ => content)
    case _ => content
  }

  function Beyond(b: Bytes, n: nat): Bytes { if n <= |b| then b[n..] else [] }

  function UpTo(b: Bytes, n: nat): Bytes { if n <= |b| then b[..n] else b }

  function PhaseAfterCall(op: Op, content: Bytes, phase: Phase, c: Call): Phase
    requires Possible(op, content, phase, c)
  {
    match phase
    case Loading(got) =>
      if c.ReadMore? then Loading(Extend(got, content, c.upTo))
      else if c.InputFails? || !op.Transform? then Ended(false, true)
      else Decided(op.t(got), got)
    case Copying(pos) =>
      if c.Chunk? then Copying(pos + c.n) else Ended(c.EndOfInput? || (c.Change? && c.outcome.Complete?), false)
    case Free => if c.Any? then Free else Ended(true, false)
    case Cutting =>
      if !c.outcome.Complete? then Ended(false, true) else if op.Write? then Copying(0) else Free
    case Tail(old_, new_) => if c.outcome.Complete? then Body(old_, new_) else UndoTail(old_)
    case Body(old_, new_) =>
      if !c.outcome.Complete? then Undo(old_) else if |new_| >= |old_| then Ended(true, false) else Shrink(old_, new_)
    case Shrink(old_, new_) => if c.outcome.Complete? then Ended(true, false) else Undo(old_)
    case Undo(old_) => if c.outcome.Complete? then UndoShrink(old_) else Ended(false, false)
    case UndoTail(_) => Ended(false, c.outcome.Complete?)
    case UndoShrink(_) => Ended(false, c.outcome.Complete?)
    case Ended(_, _) => phase
  }

  /** What Transform does next, once its function has made `r` of the bytes it has read. */
  function Decided(r: Option<Bytes>, got: Bytes): Phase {
    match r
    case None => Ended(false, true)
    case Some(new_) => if |new_| > |got| then Tail(got, new_) else Body(got, new_)
  }

  // ----- a step -----

  datatype Action =
    | Open(p: nat, op: Op)
    | GiveUp(p: nat)
    | Lock(p: nat)
    | Do(p: nat, call: Call)
    | Unlock(p: nat, closes: bool)

  function ProcOf(s: State, p: nat): Proc { if p in s.procs then s.procs[p] else Idle }

  function Update(s: State, p: nat, q: Proc): State { s.(procs := s.procs[p := q]) }

  predicate Enabled(s: State, a: Action) {
    match a
    case Open(p, op) => ProcOf(s, p).Idle?
    // locking fails
    case GiveUp(p) => ProcOf(s, p).Waiting?
    // a read lock excludes writers, a write lock excludes everyone
    case Lock(p) => ProcOf(s, p).Waiting? && s.writer.None? && (!ProcOf(s, p).op.ReadAll? ==> s.readers == {})
    case Do(p, call) =>
      (match ProcOf(s, p)
       case Reading(got) =>
         || (call.ReadMore? && |got| < call.upTo <= |s.content|)
         || (call.EndOfInput? && |got| >= |s.content|) || call.InputFails?
       case Section(op, _, phase) => Possible(op, s.content, phase, call)
       case _ => false)
    case Unlock(p, _) => ProcOf(s, p).ReadDone? || (ProcOf(s, p).Section? && ProcOf(s, p).phase.Ended?)
  }

  function FirstPhase(op: Op): Phase {
    if op.Transform? then Loading([]) else if op.Write? || (op.Edit? && op.trunc) then Cutting else Free
  }

  function After(s: State, a: Action): State
    requires Enabled(s, a)
  {
    match a
    case Open(p, op) => Update(s, p, Waiting(op))
    case GiveUp(p) => Update(s, p, Idle)
    case Lock(p) =>
      var op := ProcOf(s, p).op;
      if op.ReadAll? then Update(s, p, Reading([])).(readers := s.readers + {p})
      else Update(s, p, Section(op, s.content, FirstPhase(op))).(writer := Some(p))
    case Do(p, call) =>
      (match ProcOf(s, p)
       case Reading(got) =>
         if call.ReadMore? then Update(s, p, Reading(Extend(got, s.content, call.upTo)))
         else Update(s, p, ReadDone(if call.EndOfInput? then Some(got) else None))
       case Section(op, before, phase) =>
         Update(s, p, Section(op, before, PhaseAfterCall(op, s.content, phase, call))).(
           content := ContentAfterCall(op, s.content, phase, call)))
    case Unlock(p, closes) =>
      (match ProcOf(s, p)
       case ReadDone(r) =>
         Update(s, p, Idle).(
           readers := s.readers - {p},
           snapshots := if r.Some? then s.snapshots + [Snapshot(r.value, |s.log|)] else s.snapshots)
       // only Write reports that closing fails
       case Section(op, before, phase) =>
         var ok := phase.ok && (op.Write? ==> closes);
         Update(s, p, Idle).(
           writer := None,
           log := s.log + [Commit(op, before, s.content, ok, !phase.ok && phase.undone)]))
  }

  // ----- the invariant -----

  /** What a section that reports success promises. */
  predicate Promise(op: Op, before: Bytes, after: Bytes) {
    match op
    case ReadAll => false
    case Write(data) => after == data
    case Transform(t) => t(before) == Some(after)
    case Edit(_) => true
  }

  /** The content at every point of a section that started from `before`. */
  predicate InSection(op: Op, before: Bytes, content: Bytes, phase: Phase) {
    match phase
    case Cutting => (op.Write? || op.Edit?) && content == before
    case Free => op.Edit?
    case Copying(pos) => op.Write? && pos <= |op.data| && content == op.data[..pos]
    case Loading(got) => op.Transform? && content == before && got <= before
    case Tail(old_, new_) =>
      op.Transform? && op.t(before) == Some(new_) && old_ == before && |old_| < |new_| && content == before
    case UndoTail(old_) => op.Transform? && old_ == before && before <= content
    case Body(old_, new_) =>
      && op.Transform? && op.t(before) == Some(new_) && old_ == before
      && content == if |new_| > |old_| then old_ + new_[|old_|..] else old_
    case Shrink(old_, new_) =>
      && op.Transform? && op.t(before) == Some(new_) && old_ == before
      && |new_| < |old_| && content == new_ + old_[|new_|..]
    case Undo(old_) => op.Transform? && old_ == before && |before| <= |content|
    case UndoShrink(old_) => op.Transform? && old_ == before && before <= content
    case Ended(ok, undone) => (ok ==> Promise(op, before, content)) && (!ok && undone ==> content == before)
  }

  lemma ReadingKeeps(op: Op, before: Bytes, content: Bytes, phase: Phase, c: Call)
    requires InSection(op, before, content, phase) && Possible(op, content, phase, c) && !c.Change?
    ensures InSection(op, before, ContentAfterCall(op, content, phase, c), PhaseAfterCall(op, content, phase, c))
  {
    if phase.Copying? && c.Chunk? {
      var after := WriteAt(content, phase.pos, op.data[phase.pos..phase.pos + c.n]);
      assert after == op.data[..phase.pos + c.n];
    }
    if phase.Loading? && c.EndOfInput? { assert phase.got == before; }
  }

  lemma CutIsPrefix(content: Bytes, before: Bytes)
    requires before <= content
    ensures TruncateTo(content, |before|) == before
  {
  }

  /** Every write and truncation, complete or not, keeps to what its place in the section allows. */
  lemma ChangeKeeps(op: Op, before: Bytes, content: Bytes, phase: Phase, x: Outcome)
    requires InSection(op, before, content, phase) && Possible(op, content, phase, Change(x))
    ensures var c := Change(x);
            InSection(op, before, ContentAfterCall(op, content, phase, c), PhaseAfterCall(op, content, phase, c))
  {
    var after := ContentAfterCall(op, content, phase, Change(x));
    match phase
    case Copying(pos) => if x.Complete? { assert after == op.data; }
    case Tail(old_, new_) => TailKeeps(old_, new_, x);
    case Body(old_, new_) => BodyKeeps(old_, new_, x);
    case Shrink(old_, new_) => CutIsPrefix(content, new_);
    case Undo(old_) => if x.Complete? { assert after[..|before|] == before; }
    case UndoTail(old_) => CutIsPrefix(content, before);
    case UndoShrink(old_) => CutIsPrefix(content, before);
    case _ =>
  }

  lemma TailKeeps(old_: Bytes, new_: Bytes, x: Outcome)
    requires |old_| < |new_|
    ensures var after := WriteAt(old_, |old_|, Written(new_[|old_|..], x));
            old_ <= after && (x.Complete? ==> after == old_ + new_[|old_|..])
  {
    var after := WriteAt(old_, |old_|, Written(new_[|old_|..], x));
    assert after[..|old_|] == old_;
  }

  lemma BodyKeeps(old_: Bytes, new_: Bytes, x: Outcome)
    ensures var content := if |new_| > |old_| then old_ + new_[|old_|..] else old_;
            var after := WriteAt(content, 0, Written(UpTo(new_, |old_|), x));
            && |old_| <= |after|
            && (x.Complete? ==> after == if |new_| >= |old_| then new_ else new_ + old_[|new_|..])
  {
  }

  /** The content after the first `k` sections. */
  function ContentAfter(initial: Bytes, log: seq<Commit>, k: nat): Bytes
    requires k <= |log|
  {
    if k == 0 then initial else log[k - 1].after
  }

  /** Sections follow one another: each starts from what the one before left. */
  predicate Serial(initial: Bytes, log: seq<Commit>) {
    forall k :: 0 <= k < |log| ==> log[k].before == ContentAfter(initial, log, k)
  }

  /** A section that succeeded left what it promises, and one that was undone what it found. */
  predicate Honest(c: Commit) {
    && (c.ok ==> Promise(c.op, c.before, c.after))
    && (!c.ok && c.undone ==> c.after == c.before)
  }

  predicate Kept(log: seq<Commit>) { forall k :: 0 <= k < |log| ==> Honest(log[k]) }

  predicate Complete(initial: Bytes, log: seq<Commit>, snapshots: seq<Snapshot>) {
    forall r :: 0 <= r < |snapshots| ==>
      snapshots[r].at <= |log| && snapshots[r].value == ContentAfter(initial, log, snapshots[r].at)
  }

  /** What is known of a process, given the content that the last section left. */
  ghost predicate Good(s: State, last: Bytes, p: nat) {
    && (ProcOf(s, p).Section? <==> s.writer == Some(p))
    && (ProcOf(s, p).Reading? || ProcOf(s, p).ReadDone? <==> p in s.readers)
    && match ProcOf(s, p)
       case Reading(got) => got <= s.content
       case ReadDone(r) => r.Some? ==> r.value == s.content
       case Section(op, before, phase) => before == last && InSection(op, before, s.content, phase)
       case _ => true
  }

  /** The finished sections and reads are as they should be. */
  ghost predicate GoodHistory(initial: Bytes, s: State) {
    Serial(initial, s.log) && Kept(s.log) && Complete(initial, s.log, s.snapshots)
  }

  ghost predicate Inv(initial: Bytes, s: State) {
    var last := ContentAfter(initial, s.log, |s.log|);
    && (s.writer.Some? ==> s.readers == {})
    && (s.writer.None? ==> s.content == last)
    && (forall p :: Good(s, last, p))
    && GoodHistory(initial, s)
  }

  lemma LockKeeps(initial: Bytes, s: State, p: nat)
    requires Inv(initial, s) && Enabled(s, Lock(p))
    ensures Inv(initial, After(s, Lock(p)))
  {
    hide GoodHistory, Promise;
    var s' := After(s, Lock(p));
    var last := ContentAfter(initial, s.log, |s.log|);
    forall q ensures Good(s', last, q) {
      assert Good(s, last, q);
    }
    assert GoodHistory(initial, s') by { SameHistory(initial, s, s'); }
  }

  lemma SameHistory(initial: Bytes, s: State, s': State)
    requires GoodHistory(initial, s) && s'.log == s.log && s'.snapshots == s.snapshots
    ensures GoodHistory(initial, s')
  {
  }

  lemma OpenKeeps(initial: Bytes, s: State, a: Action)
    requires Inv(initial, s) && Enabled(s, a) && (a.Open? || a.GiveUp?)
    ensures Inv(initial, After(s, a))
  {
    hide GoodHistory, InSection;
    var s' := After(s, a);
    var last := ContentAfter(initial, s.log, |s.log|);
    forall q ensures Good(s', last, q) {
      assert Good(s, last, q);
    }
    assert GoodHistory(initial, s') by { SameHistory(initial, s, s'); }
  }

  lemma ReaderKeeps(initial: Bytes, s: State, p: nat, c: Call)
    requires Inv(initial, s) && Enabled(s, Do(p, c)) && ProcOf(s, p).Reading?
    ensures Inv(initial, After(s, Do(p, c)))
  {
    hide GoodHistory, InSection;
    var s' := After(s, Do(p, c));
    var last := ContentAfter(initial, s.log, |s.log|);
    assert Good(s, last, p);
    forall q ensures Good(s', last, q) {
      assert Good(s, last, q);
    }
    assert GoodHistory(initial, s') by { SameHistory(initial, s, s'); }
  }

  lemma SectionKeeps(initial: Bytes, s: State, p: nat, c: Call)
    requires Inv(initial, s) && Enabled(s, Do(p, c)) && ProcOf(s, p).Section?
    ensures Inv(initial, After(s, Do(p, c)))
  {
    hide GoodHistory, InSection, Possible, ContentAfterCall, PhaseAfterCall;
    var s' := After(s, Do(p, c));
    var last := ContentAfter(initial, s.log, |s.log|);
    assert Good(s, last, p);
    var me := ProcOf(s, p);
    if c.Change? {
      ChangeKeeps(me.op, me.before, s.content, me.phase, c.outcome);
    } else {
      ReadingKeeps(me.op, me.before, s.content, me.phase, c);
    }
    forall q ensures Good(s', last, q) {
      assert Good(s, last, q);
    }
    assert GoodHistory(initial, s') by { SameHistory(initial, s, s'); }
  }

  lemma UnlockReaderKeeps(initial: Bytes, s: State, p: nat, closes: bool)
    requires Inv(initial, s) && Enabled(s, Unlock(p, closes)) && ProcOf(s, p).ReadDone?
    ensures Inv(initial, After(s, Unlock(p, closes)))
  {
    hide InSection, Honest;
    var s' := After(s, Unlock(p, closes));
    var last := ContentAfter(initial, s.log, |s.log|);
    assert Good(s, last, p);
    forall q ensures Good(s', last, q) {
      assert Good(s, last, q);
    }
  }

  lemma UnlockSectionKeeps(initial: Bytes, s: State, p: nat, closes: bool)
    requires Inv(initial, s) && Enabled(s, Unlock(p, closes)) && ProcOf(s, p).Section?
    ensures Inv(initial, After(s, Unlock(p, closes)))
  {
    hide GoodHistory;
    var s' := After(s, Unlock(p, closes));
    var last, last' := ContentAfter(initial, s.log, |s.log|), ContentAfter(initial, s'.log, |s'.log|);
    assert Good(s, last, p);
    forall q ensures Good(s', last', q) {
      assert Good(s, last, q);
    }
    CommitKeeps(initial, s, s', s'.log[|s.log|]);
  }

  lemma SerialMore(initial: Bytes, log: seq<Commit>, c: Commit)
    requires Serial(initial, log) && c.before == ContentAfter(initial, log, |log|)
    ensures Serial(initial, log + [c])
  {
  }

  lemma CompleteMore(initial: Bytes, log: seq<Commit>, c: Commit, snapshots: seq<Snapshot>)
    requires Complete(initial, log, snapshots)
    ensures Complete(initial, log + [c], snapshots)
  {
  }

  lemma CommitKeeps(initial: Bytes, s: State, s': State, c: Commit)
    requires GoodHistory(initial, s) && s'.log == s.log + [c] && s'.snapshots == s.snapshots
    requires c.before == ContentAfter(initial, s.log, |s.log|) && Honest(c)
    ensures GoodHistory(initial, s')
  {
    hide Honest, ContentAfter, Serial, Complete;
    SerialMore(initial, s.log, c);
    CompleteMore(initial, s.log, c, s.snapshots);
  }

  /** Every step of every process keeps the invariant. */
  lemma StepKeeps(initial: Bytes, s: State, a: Action)
    requires Inv(initial, s) && Enabled(s, a)
    ensures Inv(initial, After(s, a))
  {
    hide Inv, After;
    match a
    case Open(p, op) => OpenKeeps(initial, s, a);
    case GiveUp(p) => OpenKeeps(initial, s, a);
    case Lock(p) => LockKeeps(initial, s, p);
    case Do(p, c) =>
      if ProcOf(s, p).Reading? {
        ReaderKeeps(initial, s, p, c);
      } else {
        SectionKeeps(initial, s, p, c);
      }
    case Unlock(p, closes) =>
      if ProcOf(s, p).ReadDone? {
        UnlockReaderKeeps(initial, s, p, closes);
      } else {
        UnlockSectionKeeps(initial, s, p, closes);
      }
  }

  // ----- runs -----

  function Init(initial: Bytes): State { State(initial, None, {}, map[], [], []) }

  ghost predicate IsStep(s: State, a: Action, s': State) { Enabled(s, a) && s' == After(s, a) }

  /** A run: every step is enabled and leads to the next state. */
  ghost predicate IsRun(initial: Bytes, states: seq<State>, actions: seq<Action>) {
    && |states| == |actions| + 1 && states[0] == Init(initial)
    && forall i :: 0 <= i < |actions| ==> IsStep(states[i], actions[i], states[i + 1])
  }

  lemma {:induction false} RunKeeps(initial: Bytes, states: seq<State>, actions: seq<Action>, i: nat)
    requires IsRun(initial, states, actions) && i < |states|
    ensures Inv(initial, states[i])
  {
    hide Inv;
    if i == 0 {
      InitHolds(initial);
    } else {
      RunKeeps(initial, states, actions, i - 1);
      assert IsStep(states[i - 1], actions[i - 1], states[i]);
      StepKeeps(initial, states[i - 1], actions[i - 1]);
    }
  }

  lemma InitHolds(initial: Bytes)
    ensures Inv(initial, Init(initial))
  {
  }

  /** The content changes only in a section, and then nobody else reads or is in a section. */
  lemma ChangesAreExclusive(initial: Bytes, states: seq<State>, actions: seq<Action>, i: nat, q: nat)
    requires IsRun(initial, states, actions) && i < |actions| && states[i + 1].content != states[i].content
    ensures ProcOf(states[i], actions[i].p).Section?
    ensures states[i].writer == Some(actions[i].p) && states[i].readers == {}
    ensures q != actions[i].p ==> !ProcOf(states[i], q).Section? && !ProcOf(states[i], q).Reading?
  {
    RunKeeps(initial, states, actions, i);
    hide InSection, GoodHistory, ContentAfterCall, PhaseAfterCall, Possible;
    var s := states[i];
    var last := ContentAfter(initial, s.log, |s.log|);
    assert IsStep(s, actions[i], states[i + 1]);
    assert Good(s, last, actions[i].p) && Good(s, last, q);
  }

  /** Every finished ReadAll returned the whole content as a section, or the start, left it. */
  lemma ReadsAreSnapshots(initial: Bytes, states: seq<State>, actions: seq<Action>, i: nat, r: nat)
    requires IsRun(initial, states, actions) && i < |states| && r < |states[i].snapshots|
    ensures var s := states[i];
            s.snapshots[r].at <= |s.log| && s.snapshots[r].value == ContentAfter(initial, s.log, s.snapshots[r].at)
  {
    RunKeeps(initial, states, actions, i);
  }

  /** Every finished section kept its promise: the new content on success, the old one when it was undone. */
  lemma SectionsAreHonest(initial: Bytes, states: seq<State>, actions: seq<Action>, i: nat, k: nat)
    requires IsRun(initial, states, actions) && i < |states| && k < |states[i].log|
    ensures Honest(states[i].log[k])
  {
    RunKeeps(initial, states, actions, i);
  }

  /** What a finished section made of `x`; for one that was cut short, what it left. */
  function Effect(c: Commit, x: Bytes): Bytes {
    if c.ok && c.op.Write? then c.op.data
    else if c.ok && c.op.Transform? then (var r := c.op.t(x); if r.Some? then r.value else x)
    else if !c.ok && c.undone then x
    else c.after
  }

  /** The first `k` sections, applied one after the other. */
  function Composed(initial: Bytes, log: seq<Commit>, k: nat): Bytes
    requires k <= |log|
  {
    if k == 0 then initial else Effect(log[k - 1], Composed(initial, log, k - 1))
  }

  lemma {:induction false} ComposedIsContent(initial: Bytes, log: seq<Commit>, k: nat)
    requires Serial(initial, log) && Kept(log) && k <= |log|
    ensures Composed(initial, log, k) == ContentAfter(initial, log, k)
  {
    if k == 0 {
    } else {
      ComposedIsContent(initial, log, k - 1);
      assert Honest(log[k - 1]) && log[k - 1].before == ContentAfter(initial, log, k - 1);
    }
  }

  /**
   No update is lost: in every run, between sections, the content is what all the sections make of
   the initial one, in the order in which they held the lock: a successful Write its data, a
   successful Transform its function of what the sections before it made, and one that was undone
   nothing.
   */
  lemma NoUpdateLost(initial: Bytes, states: seq<State>, actions: seq<Action>, i: nat)
    requires IsRun(initial, states, actions) && i < |states| && states[i].writer.None?
    ensures Composed(initial, states[i].log, |states[i].log|) == states[i].content
  {
    RunKeeps(initial, states, actions, i);
    ComposedIsContent(initial, states[i].log, |states[i].log|);
  }

  // ----- when sections succeed -----

  /** The call does what it is for. */
  predicate Works(c: Call) { !c.InputFails? && (c.Change? ==> c.outcome.Complete?) }

  /** The section is on its way to success. */
  predicate OnTrack(op: Op, before: Bytes, phase: Phase) {
    match phase
    case Loading(_) => op.Transform? && op.t(before).Some?
    case Ended(ok, _) => ok
    case Undo(_) => false
    case UndoTail(_) => false
    case UndoShrink(_) => false
    case _ => true
  }

  /** A call that works keeps it so. */
  lemma TrackKept(op: Op, before: Bytes, content: Bytes, phase: Phase, c: Call)
    requires InSection(op, before, content, phase) && OnTrack(op, before, phase)
    requires Possible(op, content, phase, c) && Works(c)
    ensures OnTrack(op, before, PhaseAfterCall(op, content, phase, c))
  {
    if phase.Loading? && c.EndOfInput? { assert phase.got == before; }
  }

  /** And until it has ended, some call can work. */
  lemma SomeCallWorks(op: Op, before: Bytes, content: Bytes, phase: Phase) returns (c: Call)
    requires InSection(op, before, content, phase) && !phase.Ended?
    ensures Possible(op, content, phase, c) && Works(c)
  {
    c := match phase
         case Loading(got) => if |got| < |content| then ReadMore(|content|) else EndOfInput
         case Free => EndOfInput
         case _ => Change(Outcome.Complete);
  }

  /** Between steps `l` and `n`, process `p` stays in its section, and all its calls work. */
  ghost predicate WorksOn(actions: seq<Action>, l: nat, n: nat, p: nat)
    requires l < n <= |actions|
  {
    forall i :: l < i < n && actions[i].p == p ==> actions[i].Do? && Works(actions[i].call)
  }

  lemma {:induction false} StaysOnTrack(initial: Bytes, states: seq<State>, actions: seq<Action>,
                                        l: nat, n: nat, p: nat, op: Op)
    requires IsRun(initial, states, actions) && l < n <= |actions| && actions[l] == Lock(p)
    requires ProcOf(states[l], p) == Waiting(op) && !op.ReadAll? && WorksOn(actions, l, n, p)
    requires OnTrack(op, states[l].content, FirstPhase(op))
    ensures var q := ProcOf(states[n], p);
            q.Section? && q.op == op && q.before == states[l].content && OnTrack(op, q.before, q.phase)
  {
    hide OnTrack, Inv, PhaseAfterCall, ContentAfterCall, Possible;
    var s, a := states[n - 1], actions[n - 1];
    assert IsStep(s, a, states[n - 1 + 1]);
    if n > l + 1 {
      StaysOnTrack(initial, states, actions, l, n - 1, p, op);
      if a.p == p {
        var q := ProcOf(s, p);
        RunKeeps(initial, states, actions, n - 1);
        SectionIsGood(initial, s, p);
        TrackKept(q.op, q.before, s.content, q.phase, a.call);
      }
    }
  }

  lemma SectionIsGood(initial: Bytes, s: State, p: nat)
    requires Inv(initial, s) && ProcOf(s, p).Section?
    ensures var q := ProcOf(s, p); InSection(q.op, q.before, s.content, q.phase)
  {
    hide InSection, GoodHistory;
    assert Good(s, ContentAfter(initial, s.log, |s.log|), p);
  }

  /**
   A section whose calls all work is recorded as a success, and so leaves what it promises: for a
   Transform, if its function makes something of the content that it found.
   */
  lemma WorkingSectionSucceeds(initial: Bytes, states: seq<State>, actions: seq<Action>,
                               l: nat, n: nat, p: nat, op: Op)
    requires IsRun(initial, states, actions) && l < n < |actions| && actions[l] == Lock(p)
    requires ProcOf(states[l], p) == Waiting(op) && !op.ReadAll?
    requires op.Transform? ==> op.t(states[l].content).Some?
    requires WorksOn(actions, l, n, p) && actions[n] == Unlock(p, true)
    ensures var log := states[n + 1].log;
            && |log| == |states[n].log| + 1 && log[|log| - 1].ok && log[|log| - 1].op == op
            && Promise(op, states[l].content, states[n + 1].content)
  {
    StaysOnTrack(initial, states, actions, l, n, p, op);
    hide Inv, InSection;
    assert IsStep(states[n], actions[n], states[n + 1]);
    RunKeeps(initial, states, actions, n);
    SectionIsGood(initial, states[n], p);
    EndedPromises(states[n], p);
  }

  lemma EndedPromises(s: State, p: nat)
    requires ProcOf(s, p).Section? && ProcOf(s, p).phase.Ended? && ProcOf(s, p).phase.ok
    requires InSection(ProcOf(s, p).op, ProcOf(s, p).before, s.content, ProcOf(s, p).phase)
    ensures Promise(ProcOf(s, p).op, ProcOf(s, p).before, s.content)
  {
  }

  /** A reader that finds the end has the whole content. */
  lemma EndOfReading(initial: Bytes, states: seq<State>, actions: seq<Action>, i: nat, p: nat)
    requires IsRun(initial, states, actions) && i < |actions| && actions[i] == Do(p, EndOfInput)
    requires ProcOf(states[i], p).Reading?
    ensures ProcOf(states[i + 1], p) == ReadDone(Some(states[i].content))
  {
    RunKeeps(initial, states, actions, i);
    hide InSection, GoodHistory;
    assert IsStep(states[i], actions[i], states[i + 1]);
    assert Good(states[i], ContentAfter(initial, states[i].log, |states[i].log|), p);
    assert ProcOf(states[i], p).got == states[i].content;
  }
}
