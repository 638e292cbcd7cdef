/**
 The locked-file operations of lockedfile/lockedfile.go and lockedfile/lockedfile_filelock.go on one
 path, with every system call allowed to fail.  What a failing call does is an input: a write may
 stop after any number of bytes, and any of the calls that undo it may fail as well.
 */
module LockedFile {
  import opened Prelude

  type Byte = x: int | 0 <= x < 256
  type Bytes = seq<Byte>

  /** The file after writing `data` at `off`; a gap is filled with zeros. */
  function WriteAt(c: Bytes, off: nat, data: Bytes): (r: Bytes)
    ensures |data| == 0 ==> r == c
    ensures |data| > 0 ==> |r| == if off + |data| > |c| then off + |data| else |c|
    ensures forall i {:trigger r[i]} :: 0 <= i < |r| ==>
              r[i] == if off <= i < off + |data| then data[i - off] else if i < |c| then c[i] else 0
  {
    var n := if |data| > 0 && off + |data| > |c| then off + |data| else |c|;
    seq(n, i requires 0 <= i < n => if off <= i < off + |data| then data[i - off] else if i < |c| then c[i] else 0)
  }

  function TruncateTo(c: Bytes, n: nat): (r: Bytes)
    ensures |r| == n
    ensures forall i {:trigger r[i]} :: 0 <= i < n ==> r[i] == if i < |c| then c[i] else 0
  {
    seq(n, i requires 0 <= i < n => if i < |c| then c[i] else 0)
  }

  /** The contents of the path. */
  class Disk {
    var content: Bytes
    var present: bool
  }

  datatype Lock = Unlocked | Shared | Exclusive
  datatype Access = ReadOnly | WriteOnly | ReadWrite
  datatype Flags = Flags(access: Access, create: bool, trunc: bool)

  /** Whether a write completes, or stops with an error after `n` bytes. */
  datatype Outcome = Complete | Short(n: nat)

  class OsFile {
    const disk: Disk
    var lock: Lock
    var open: bool

    constructor (d: Disk)
      ensures disk == d && lock == Unlocked && open
    {
      disk, lock, open := d, Unlocked, true;
    }

    method Write(data: Bytes, off: nat, outcome: Outcome) returns (ok: bool)
      requires open && lock == Exclusive
      modifies disk`content
      ensures ok == outcome.Complete?
      ensures disk.content == WriteAt(old(disk.content), off, Written(data, outcome))
    {
      disk.content := WriteAt(disk.content, off, Written(data, outcome));
      return outcome.Complete?;
    }

    method Truncate(n: nat, fails: bool) returns (ok: bool)
      requires open && lock == Exclusive
      modifies disk`content
      ensures ok == !fails
      ensures disk.content == if fails then old(disk.content) else TruncateTo(old(disk.content), n)
    {
      if !fails {
        disk.content := TruncateTo(disk.content, n);
      }
      return !fails;
    }

    /** Works on an open descriptor only. */
    method Unlock(fails: bool) returns (ok: bool)
      requires open
      modifies this`lock
      ensures ok == !fails && lock == if fails then old(lock) else Unlocked
    {
      if !fails {
        lock := Unlocked;
      }
      return !fails;
    }

    /** Gives the descriptor up, and with it any lock, even when an error is reported. */
    method CloseDescriptor(fails: bool) returns (ok: bool)
      requires open
      modifies this`open, this`lock
      ensures ok == !fails && !open && lock == Unlocked
    {
      open, lock := false, Unlocked;
      return !fails;
    }
  }

  /** The part of `data` that reaches the file. */
  function Written(data: Bytes, outcome: Outcome): Bytes {
    if outcome.Short? && outcome.n < |data| then data[..outcome.n] else data
  }

  // ----- opening and closing -----

  /** Which steps of opening fail; `regular` tells whether a failed truncation counts. */
  datatype OpenFaults = OpenFaults(open: bool, lock: bool, truncate: bool, stat: bool, regular: bool)

  /**
   Opens without truncating, takes the lock, and only then truncates.  When it fails the content is
   as before, but a file that it created stays.
   */
  method OpenFile(d: Disk, flags: Flags, x: OpenFaults) returns (f: OsFile?)
    modifies d
    ensures f != null ==> fresh(f) && f.disk == d && f.open && d.present
    ensures f != null ==> f.lock == if flags.access == ReadOnly then Shared else Exclusive
    ensures f == null <==> x.open || (!old(d.present) && !flags.create) || x.lock
                           || (flags.trunc && TruncateFails(flags, x) && (x.stat || x.regular))
    ensures d.present <==> old(d.present) || (flags.create && !x.open)
    ensures d.content == if f != null && flags.trunc && !TruncateFails(flags, x) then []
              else Before(old(d.present), old(d.content))
  {
    if !d.present {
      d.content := [];
    }
    if x.open || (!d.present && !flags.create) {
      return null;
    }
    d.present := true;
    f := new OsFile(d);
    if x.lock {
      f.open := false;
      return null;
    }
    f.lock := if flags.access == ReadOnly then Shared else Exclusive;
    if flags.trunc {
      if TruncateFails(flags, x) {
        if x.stat || x.regular {
          f.lock := Unlocked;
          f.open := false;
          return null;
        }
      } else {
        var ok := f.Truncate(0, false);
      }
    }
  }

  /** A descriptor opened for reading cannot be truncated. */
  predicate TruncateFails(flags: Flags, x: OpenFaults) { x.truncate || flags.access == ReadOnly }

  /** A missing file reads as empty once it has been created. */
  function Before(present: bool, content: Bytes): Bytes { if present then content else [] }

  /** Which of the two calls of closing fail. */
  datatype CloseFaults = CloseFaults(unlock: bool, close: bool)

  /** Unlocks while the descriptor is still valid, then closes it; both are tried, and either error counts. */
  method CloseFile(f: OsFile, x: CloseFaults) returns (ok: bool)
    requires f.open
    modifies f`open, f`lock
    ensures ok <==> !x.unlock && !x.close
    ensures !f.open && f.lock == Unlocked
  {
    ok := f.Unlock(x.unlock);
    var closed := f.CloseDescriptor(x.close);
    if ok {
      ok := closed;
    }
  }

  /** A locked file whose Close works once. */
  class File {
    const osFile: OsFile
    var closed: bool

    constructor (f: OsFile)
      ensures osFile == f && !closed
    {
      osFile, closed := f, false;
    }

    /** The first call closes, even if it reports an error; all others report one and change nothing. */
    method Close(x: CloseFaults) returns (ok: bool)
      requires !closed ==> osFile.open
      modifies this, osFile`open, osFile`lock
      ensures closed && (ok <==> !old(closed) && !x.unlock && !x.close)
      ensures !old(closed) ==> !osFile.open && osFile.lock == Unlocked
      ensures old(closed) ==> osFile.open == old(osFile.open) && osFile.lock == old(osFile.lock)
    {
      if closed {
        return false;
      }
      closed := true;
      ok := CloseFile(osFile, x);
    }
  }

  // ----- Transform -----

  /** Which of the calls of Transform fail, and how. */
  datatype Faults = Faults(
    read: bool,
    tail: Outcome, undoTail: bool,
    body: Outcome, shrink: bool,
    undoBody: Outcome, undoShrink: bool)

  /** The calls that undo a failed write themselves succeed. */
  predicate UndoWorks(x: Faults) {
    !x.undoTail && x.undoBody.Complete? && !x.undoShrink
  }

  /** Does Transform report success? */
  predicate Succeeds(old_: Bytes, new_: Option<Bytes>, x: Faults) {
    && !x.read && new_.Some?
    && (|new_.value| > |old_| ==> x.tail.Complete?)
    && x.body.Complete?
    && (|new_.value| < |old_| ==> !x.shrink)
  }

  /**
   Reads the locked file, applies `t`, and writes the result back: the tail first when the file
   grows, the truncation last when it shrinks, and the old bytes again when something fails.
   */
  method Transform(f: OsFile, t: Bytes -> Option<Bytes>, x: Faults) returns (ok: bool)
    requires f.open && f.lock == Exclusive
    modifies f.disk`content
    ensures ok <==> Succeeds(old(f.disk.content), t(old(f.disk.content)), x)
    // success leaves exactly the new content
    ensures ok ==> f.disk.content == t(old(f.disk.content)).value
    // failure leaves exactly the old content, if the undoing calls work
    ensures !ok && UndoWorks(x) ==> f.disk.content == old(f.disk.content)
    // failing before the old bytes are overwritten never damages them, even if undoing fails
    ensures !ok && (x.read || t(old(f.disk.content)).None?) ==> f.disk.content == old(f.disk.content)
    ensures !ok && x.tail.Short? && !x.read && t(old(f.disk.content)).Some?
              && |t(old(f.disk.content)).value| > |old(f.disk.content)| ==>
              old(f.disk.content) <= f.disk.content
  {
    if x.read {
      return false;
    }
    var before := f.disk.content;
    var result := t(before);
    if result.None? {
      return false;
    }
    var after := result.value;
    if |after| > |before| {
      ok := f.Write(after[|before|..], |before|, x.tail);
      if !ok {
        var _ := f.Truncate(|before|, x.undoTail);
        assert f.disk.content[..|before|] == before;
        return false;
      }
      assert f.disk.content == before + after[|before|..];
    }
    ok := Overwrite(f, before, after, x);
    if !ok {
      var undone := f.Write(before, 0, x.undoBody);
      if undone {
        var _ := f.Truncate(|before|, x.undoShrink);
      }
    }
  }

  /** The second half of Transform's writing, up to the first failure. */
  method Overwrite(f: OsFile, before: Bytes, after: Bytes, x: Faults) returns (ok: bool)
    requires f.open && f.lock == Exclusive
    requires f.disk.content == if |after| > |before| then before + after[|before|..] else before
    modifies f.disk`content
    ensures ok <==> x.body.Complete? && (|after| < |before| ==> !x.shrink)
    ensures ok ==> f.disk.content == after
    ensures |f.disk.content| >= |before| || ok
  {
    if |after| >= |before| {
      ok := f.Write(after[..|before|], 0, x.body);
      if !ok {
        return false;
      }
    } else {
      ok := f.Write(after, 0, x.body);
      if !ok {
        return false;
      }
      ok := f.Truncate(|after|, x.shrink);
      if !ok {
        return false;
      }
    }
    return true;
  }
}
