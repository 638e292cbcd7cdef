/**
 The choice of the artifact files to delete, artifact/storage/gc.go: expired files first, then the
 oldest of the others until few enough remain.
 */
module GarbageSelection {
  import opened Prelude
  import opened Sorting

  // ----- the walk -----

  /** What the directory walk reports; `plain` says that the file is neither directory nor symlink. */
  datatype Visit = WalkError | InfoError | Seen(path: string, created: int, plain: bool)

  datatype File = File(path: string, created: int)

  datatype Walk = Walk(files: seq<File>, failed: bool, stopped: bool)

  const LOCK_EXT := ".lock"

  predicate IsLock(path: string) { |path| >= 5 && path[|path| - 5..] == LOCK_EXT }

  predicate Counts(v: Visit) { v.Seen? && v.plain && !IsLock(v.path) }

  function Step(w: Walk, v: Visit, limit: int): Walk {
    if w.stopped then w
    else if v.WalkError? then w.(failed := true)
    else if |w.files| >= limit then w.(stopped := true)
    else if v.InfoError? then w.(failed := true)
    else if Counts(v) then w.(files := w.files + [File(v.path, v.created)])
    else w
  }

  /** The walk after the first `n` visits. */
  function After(visits: seq<Visit>, limit: int, n: nat): Walk
    requires n <= |visits|
  {
    if n == 0 then Walk([], false, false) else Step(After(visits, limit, n - 1), visits[n - 1], limit)
  }

  lemma {:induction false} StoppedStays(visits: seq<Visit>, limit: int, n: nat, m: nat)
    requires n <= m <= |visits| && After(visits, limit, n).stopped
    ensures After(visits, limit, m) == After(visits, limit, n)
  {
    if n < m { StoppedStays(visits, limit, n, m - 1); }
  }

  /** No path is visited twice. */
  predicate VisitsOnce(visits: seq<Visit>) {
    forall i, j :: 0 <= i < j < |visits| && visits[i].Seen? && visits[j].Seen? ==> visits[i].path != visits[j].path
  }

  predicate DistinctPaths(files: seq<File>) {
    forall i, j :: 0 <= i < j < |files| ==> files[i].path != files[j].path
  }

  predicate DistinctTimes(files: seq<File>) {
    forall i, j :: 0 <= i < j < |files| ==> files[i].created != files[j].created
  }

  predicate Visited(visits: seq<Visit>, n: nat, path: string)
    requires n <= |visits|
  {
    exists j :: 0 <= j < n && visits[j].Seen? && visits[j].path == path
  }

  lemma {:induction false} FilesAreVisits(visits: seq<Visit>, limit: int, n: nat)
    requires n <= |visits| && VisitsOnce(visits)
    ensures var files := After(visits, limit, n).files;
            && DistinctPaths(files)
            && forall k :: 0 <= k < |files| ==> !IsLock(files[k].path) && Visited(visits, n, files[k].path)
  {
    hide IsLock;
    if n == 0 {
    } else {
      FilesAreVisits(visits, limit, n - 1);
      var before, files := After(visits, limit, n - 1).files, After(visits, limit, n).files;
      forall k | 0 <= k < |before| ensures Visited(visits, n, before[k].path) {
        assert Visited(visits, n - 1, before[k].path);
      }
      if files != before {
        forall k | 0 <= k < |before| ensures before[k].path != visits[n - 1].path {
          assert Visited(visits, n - 1, before[k].path);
        }
      }
    }
  }

  // ----- what is counted, on the visits -----

  /** A path is that of a lock file when it ends so. */
  lemma IsLockIff(path: string)
    ensures IsLock(path) <==> exists stem :: path == stem + ".lock"
  {
    if IsLock(path) { assert path == path[..|path| - 5] + ".lock"; }
    if stem :| path == stem + ".lock" { assert path[|path| - 5..] == ".lock"; }
  }

  /** How many of the first `n` visits show a regular file that is no lock. */
  function ShownBefore(visits: seq<Visit>, n: nat): nat
    requires n <= |visits|
  {
    if n == 0 then 0
    else
      match visits[n - 1]
      case Seen(path, _, true) => ShownBefore(visits, n - 1) + if IsLock(path) then 0 else 1
      case _ => ShownBefore(visits, n - 1)
  }

  /** Visit `i` shows the regular file `f`, and it is no lock. */
  predicate Shows(visits: seq<Visit>, i: nat, f: File) {
    i < |visits| && visits[i] == Seen(f.path, f.created, true) && !IsLock(f.path)
  }

  /** `at` lists the visits that show the files, one by one. */
  ghost predicate ShownAt(visits: seq<Visit>, n: nat, files: seq<File>, at: seq<nat>)
    requires n <= |visits|
  {
    && |at| == |files|
    && (forall k :: 0 <= k < |at| ==> at[k] < n && Shows(visits, at[k], files[k]) && ShownBefore(visits, at[k]) == k)
  }

  /** The first `limit` regular files that are no locks are counted, in the order of the visits. */
  lemma {:induction false} FilesAreShown(visits: seq<Visit>, limit: int, n: nat) returns (at: seq<nat>)
    requires n <= |visits|
    ensures var w := After(visits, limit, n);
            && ShownAt(visits, n, w.files, at) && |w.files| <= Max(limit, 0) && |w.files| <= ShownBefore(visits, n)
            && (if w.stopped then |w.files| >= limit else |w.files| == ShownBefore(visits, n))
    ensures forall k, l :: 0 <= k < l < |at| ==> at[k] < at[l]
    ensures forall i: nat, f :: i < n && Shows(visits, i, f) && ShownBefore(visits, i) < limit ==> i in at
  {
    hide IsLock;
    if n == 0 {
      at := [];
    } else {
      var before := FilesAreShown(visits, limit, n - 1);
      var w := After(visits, limit, n - 1);
      at := before + if |After(visits, limit, n).files| > |w.files| then [n - 1] else [];
      forall i: nat, f | i < n && Shows(visits, i, f) && ShownBefore(visits, i) < limit ensures i in at {
        assert i < n - 1 ==> i in before;
      }
    }
  }

  /** The walk has not ended before visit `i`: it ends at the first visit, walk errors aside, after `limit` files. */
  ghost predicate Reached(visits: seq<Visit>, limit: int, i: nat)
    requires i <= |visits|
  {
    forall h :: 0 <= h < i ==> visits[h].WalkError? || ShownBefore(visits, h) < limit
  }

  lemma ReachedNext(visits: seq<Visit>, limit: int, i: nat)
    requires i <= |visits|
    ensures Reached(visits, limit, i) <==>
            i == 0 || (Reached(visits, limit, i - 1)
                       && (visits[i - 1].WalkError? || ShownBefore(visits, i - 1) < limit))
  {
    hide ShownBefore;
  }

  lemma {:induction false} StoppedIff(visits: seq<Visit>, limit: int, n: nat)
    requires n <= |visits|
    ensures After(visits, limit, n).stopped <==> !Reached(visits, limit, n)
  {
    hide IsLock, ShownBefore, Reached, Counts;
    ReachedNext(visits, limit, n);
    if n == 0 {
    } else {
      StoppedIff(visits, limit, n - 1);
      WalkSize(visits, limit, n - 1);
    }
  }

  lemma WalkSize(visits: seq<Visit>, limit: int, n: nat)
    requires n <= |visits|
    ensures var w := After(visits, limit, n);
            if w.stopped then limit <= |w.files| <= ShownBefore(visits, n) else |w.files| == ShownBefore(visits, n)
  {
    var at := FilesAreShown(visits, limit, n);
  }

  /** The walk fails exactly when it reaches an error. */
  lemma {:induction false} FailsIff(visits: seq<Visit>, limit: int, n: nat)
    requires n <= |visits|
    ensures After(visits, limit, n).failed <==>
            exists i :: 0 <= i < n && Reached(visits, limit, i)
                        && (visits[i].WalkError? || (visits[i].InfoError? && ShownBefore(visits, i) < limit))
  {
    hide IsLock, Reached;
    if n == 0 {
    } else {
      FailsIff(visits, limit, n - 1);
      StoppedIff(visits, limit, n - 1);
      WalkSize(visits, limit, n - 1);
    }
  }

  // ----- expired files -----

  const MAX_DURATION := 0x7fff_ffff_ffff_ffff

  /** The time between two instants, saturated as durations are. */
  function Between(earlier: int, later: int): int {
    var d := later - earlier;
    if d > MAX_DURATION then MAX_DURATION else if d < -MAX_DURATION - 1 then -MAX_DURATION - 1 else d
  }

  /** Saturation does not matter, but for a time to live of the greatest duration. */
  lemma BetweenIff(earlier: int, later: int, ttl: int)
    requires -MAX_DURATION - 1 <= ttl <= MAX_DURATION
    ensures Between(earlier, later) > ttl <==> later - earlier > ttl && ttl < MAX_DURATION
  {
  }

  /** The request: the artifact in use, the number of files to keep, the clock and the time to live. */
  datatype Request = Request(current: string, retain: int, now: int, ttl: int)

  predicate Expired(q: Request, f: File) { f.path != q.current && Between(f.created, q.now) > q.ttl }

  /** A file other than the artifact in use that is older than the time to live. */
  predicate TooOld(q: Request, f: File) {
    f.path != q.current && q.now - f.created > q.ttl && -MAX_DURATION - 1 <= q.ttl < MAX_DURATION
  }

  /** Expired files are the too old ones. */
  lemma ExpiredIff(q: Request, f: File)
    requires -MAX_DURATION - 1 <= q.ttl < MAX_DURATION
    ensures Expired(q, f) <==> TooOld(q, f)
  {
  }

  function ExpiredPaths(q: Request, files: seq<File>, n: nat): seq<string>
    requires n <= |files|
  {
    if n == 0 then []
    else if Expired(q, files[n - 1]) then ExpiredPaths(q, files, n - 1) + [files[n - 1].path]
    else ExpiredPaths(q, files, n - 1)
  }

  lemma {:induction false} ExpiredPathsAre(q: Request, files: seq<File>, n: nat, p: string)
    requires n <= |files|
    ensures p in ExpiredPaths(q, files, n) <==> exists k :: 0 <= k < n && files[k].path == p && Expired(q, files[k])
    ensures |ExpiredPaths(q, files, n)| <= n
  {
    hide Expired;
    if n == 0 {
    } else {
      ExpiredPathsAre(q, files, n - 1, p);
    }
  }

  lemma {:induction false} ExpiredPrefix(q: Request, a: seq<File>, f: File, n: nat)
    requires n <= |a|
    ensures ExpiredPaths(q, a + [f], n) == ExpiredPaths(q, a, n)
  {
    hide Expired;
    if n == 0 {
    } else {
      ExpiredPrefix(q, a, f, n - 1);
    }
  }

  lemma {:induction false} ExpiredDistinct(q: Request, files: seq<File>, n: nat)
    requires n <= |files| && DistinctPaths(files)
    ensures Distinct(ExpiredPaths(q, files, n))
  {
    hide Expired;
    if n == 0 {
    } else {
      ExpiredDistinct(q, files, n - 1);
      ExpiredPathsAre(q, files, n - 1, files[n - 1].path);
    }
  }

  // ----- the count -----

  /**
   How many files the count phase may take.  Once some file has expired, what it takes is subtracted
   twice, so that it takes only half of what it should, rounded up.
   */
  function Quota(total: nat, expired: nat, retain: int): nat {
    var surplus := total - expired - retain;
    if surplus <= 0 then 0 else if expired == 0 then surplus else (surplus + 1) / 2
  }

  /** The first `quota` paths among the first `n` that are not the artifact in use and not expired. */
  function Pick(q: Request, expired: seq<string>, paths: seq<string>, quota: nat, n: nat): seq<string>
    requires n <= |paths|
  {
    if n == 0 then [] else
    var before := Pick(q, expired, paths, quota, n - 1);
    var p := paths[n - 1];
    if p != q.current && p !in expired && p !in before && |before| < quota then before + [p] else before
  }

  lemma {:induction false} PickIsSafe(q: Request, expired: seq<string>, paths: seq<string>, quota: nat, n: nat)
    requires n <= |paths|
    ensures var g := Pick(q, expired, paths, quota, n);
            && |g| <= quota && Distinct(g)
            && forall k :: 0 <= k < |g| ==> g[k] != q.current && g[k] !in expired && g[k] in paths[..n]
  {
    if n == 0 {
    } else {
      PickIsSafe(q, expired, paths, quota, n - 1);
      assert paths[..n] == paths[..n - 1] + [paths[n - 1]];
    }
  }

  lemma PickTakes(q: Request, expired: seq<string>, paths: seq<string>, quota: nat, k: nat)
    requires k < |paths| && paths[k] != q.current && paths[k] !in expired
    requires |Pick(q, expired, paths, quota, k)| < quota
    ensures paths[k] in Pick(q, expired, paths, quota, k + 1)
  {
  }

  /** A path that could be taken is left only when the quota is used up before it. */
  lemma PickIsPrefix(q: Request, expired: seq<string>, paths: seq<string>, quota: nat, n: nat, k: nat)
    requires k < n <= |paths| && paths[k] != q.current && paths[k] !in expired
    requires paths[k] !in Pick(q, expired, paths, quota, n)
    ensures Pick(q, expired, paths, quota, n) == Pick(q, expired, paths, quota, k)
    ensures |Pick(q, expired, paths, quota, n)| == quota
  {
    hide Pick;
    PickIsSafe(q, expired, paths, quota, k);
    if |Pick(q, expired, paths, quota, k)| < quota {
      PickTakes(q, expired, paths, quota, k);
      PickGrows(q, expired, paths, quota, k + 1, n);
      assert false;
    }
    FullStays(q, expired, paths, quota, k, n);
  }

  lemma {:induction false} PickGrows(q: Request, expired: seq<string>, paths: seq<string>, quota: nat, n: nat, m: nat)
    requires n <= m <= |paths|
    ensures Pick(q, expired, paths, quota, n) <= Pick(q, expired, paths, quota, m)
  {
    if n < m { PickGrows(q, expired, paths, quota, n, m - 1); }
  }

  lemma {:induction false} FullStays(q: Request, expired: seq<string>, paths: seq<string>, quota: nat, n: nat, m: nat)
    requires n <= m <= |paths| && |Pick(q, expired, paths, quota, n)| == quota
    ensures Pick(q, expired, paths, quota, m) == Pick(q, expired, paths, quota, n)
  {
    if n < m { FullStays(q, expired, paths, quota, n, m - 1); }
  }

  // ----- the order of the files -----

  predicate Sorted(s: seq<int>) { forall i, j :: 0 <= i < j < |s| ==> s[i] <= s[j] }

  function SortTimes(times: seq<int>): (r: seq<int>)
    ensures Sorted(r) && multiset(r) == multiset(times) && |r| == |times|
  {
    var timed := Map(t => Timed(t, ()), times);
    MapPermuted((t: Timed<()>) => t.at, Sort(timed), timed);
    assert Map((t: Timed<()>) => t.at, timed) == times;
    Map((t: Timed<()>) => t.at, Sort(timed))
  }

  /** The creation times in ascending order. */
  ghost function SortedTimes(files: seq<File>): (r: seq<int>)
    ensures Sorted(r) && multiset(r) == multiset(Times(files)) && |r| == |files|
  {
    assert Ascending(Times(files), SortTimes(Times(files)));
    var r :| Ascending(Times(files), r);
    assert |multiset(r)| == |r| && |multiset(Times(files))| == |files|;
    r
  }

  ghost predicate Ascending(times: seq<int>, r: seq<int>) { Sorted(r) && multiset(r) == multiset(times) }

  lemma LastIsGreatest(a: seq<int>, b: seq<int>)
    requires Sorted(b) && multiset(a) == multiset(b) && |a| == |b| > 0
    ensures a[|a| - 1] <= b[|b| - 1]
  {
    var x := a[|a| - 1];
    assert x in multiset(a);
    assert x in multiset(b);
    var j :| 0 <= j < |b| && b[j] == x;
  }

  lemma WithoutLast(a: seq<int>, c: seq<int>)
    requires |a| > 0 && c == a[..|a| - 1] && Sorted(a)
    ensures multiset(c) == multiset(a) - multiset{a[|a| - 1]} && Sorted(c) && a == c + [a[|a| - 1]]
  {
    assert a == c + [a[|a| - 1]];
  }

  /** There is only one such list. */
  lemma {:induction false} AscendingIsUnique(a: seq<int>, b: seq<int>)
    requires Sorted(a) && Sorted(b) && multiset(a) == multiset(b) && |a| == |b|
    ensures a == b
    decreases |a|
  {
    hide Sorted;
    if |a| == 0 {
    } else {
      var c, d := a[..|a| - 1], b[..|b| - 1];
      LastIsGreatest(a, b);
      LastIsGreatest(b, a);
      WithoutLast(a, c);
      WithoutLast(b, d);
      AscendingIsUnique(c, d);
    }
  }

  function Times(files: seq<File>): (r: seq<int>)
    ensures |r| == |files| && forall k :: 0 <= k < |files| ==> r[k] == files[k].created
  {
    seq(|files|, k requires 0 <= k < |files| => files[k].created)
  }

  /** The last of the first `n` files that was created at `t`. */
  function LastAt(files: seq<File>, n: nat, t: int): string
    requires n <= |files|
  {
    if n == 0 then "" else if files[n - 1].created == t then files[n - 1].path else LastAt(files, n - 1, t)
  }

  /** The paths in the order of their creation; files of the same instant all stand for the last of them. */
  ghost function SortedPaths(files: seq<File>): (r: seq<string>)
    ensures |r| == |files|
  {
    var times := SortedTimes(files);
    seq(|files|, k requires 0 <= k < |files| => LastAt(files, |files|, times[k]))
  }

  /** What the count phase takes. */
  ghost function Picked(q: Request, files: seq<File>): seq<string> {
    var expired := ExpiredPaths(q, files, |files|);
    Pick(q, expired, SortedPaths(files), Quota(|files|, |expired|, q.retain), |files|)
  }

  /** The files to delete. */
  ghost function Garbage(q: Request, files: seq<File>): seq<string> {
    ExpiredPaths(q, files, |files|) + Picked(q, files)
  }

  // ----- what the choice keeps -----

  function PathsOf(files: seq<File>): (r: seq<string>)
    ensures |r| == |files| && forall k :: 0 <= k < |files| ==> r[k] == files[k].path
  {
    seq(|files|, k requires 0 <= k < |files| => files[k].path)
  }

  lemma {:induction false} LastAtIs(files: seq<File>, n: nat, k: nat) returns (j: nat)
    requires k < n <= |files|
    ensures k <= j < n && files[j].created == files[k].created && LastAt(files, n, files[k].created) == files[j].path
  {
    if files[n - 1].created == files[k].created { j := n - 1; } else { j := LastAtIs(files, n - 1, k); }
  }

  /** Every place in the order is that of a file. */
  lemma SortedIsFile(files: seq<File>, i: nat) returns (k: nat)
    requires i < |files|
    ensures k < |files| && SortedPaths(files)[i] == files[k].path && SortedTimes(files)[i] == files[k].created
  {
    hide SortedTimes;
    var t := SortedTimes(files)[i];
    assert t in multiset(SortedTimes(files));
    assert t in Times(files);
    var j :| 0 <= j < |files| && Times(files)[j] == t;
    k := LastAtIs(files, |files|, j);
  }

  /** Every last file of its instant has its place in the order. */
  lemma LastIsSorted(files: seq<File>, k: nat) returns (i: nat)
    requires k < |files| && IsLast(files, k)
    ensures i < |files| && SortedPaths(files)[i] == files[k].path && SortedTimes(files)[i] == files[k].created
  {
    hide SortedTimes;
    var t := Times(files)[k];
    assert t in multiset(Times(files));
    assert t in SortedTimes(files);
    i :| 0 <= i < |files| && SortedTimes(files)[i] == t;
    var j := LastAtIs(files, |files|, k);
  }

  lemma SortedIsLast(files: seq<File>, i: nat, k: nat)
    requires DistinctPaths(files) && i < |files| && k < |files| && SortedPaths(files)[i] == files[k].path
    ensures IsLast(files, k)
  {
    hide SortedTimes;
    var t := SortedTimes(files)[i];
    assert t in multiset(SortedTimes(files));
    assert t in Times(files);
    var j :| 0 <= j < |files| && Times(files)[j] == t;
    var l := LastAtIs(files, |files|, j);
    assert l == k;
    forall j' | k < j' < |files| ensures files[j'].created != files[k].created {
      if files[j'].created == t {
        var l' := LastAtIs(files, |files|, j');
        assert false;
      }
    }
  }

  /** What the count phase takes is a file that was walked, is not in use and has not expired. */
  lemma PickedAreFiles(q: Request, files: seq<File>)
    ensures forall p :: p in Picked(q, files) ==>
              p in PathsOf(files) && p != q.current && p !in ExpiredPaths(q, files, |files|)
  {
    hide Pick, SortedPaths;
    var expired := ExpiredPaths(q, files, |files|);
    PickIsSafe(q, expired, SortedPaths(files), Quota(|files|, |expired|, q.retain), |files|);
    forall p | p in Picked(q, files) ensures p in PathsOf(files) {
      var i :| 0 <= i < |files| && SortedPaths(files)[i] == p;
      var k := SortedIsFile(files, i);
      assert PathsOf(files)[k] == p;
    }
  }

  /**
   The list has no path twice, only paths of files that were walked, never the artifact in use, and
   all that expired.  The count phase leaves as many files as are to be retained, if there are so many.
   */
  lemma GarbageIsSafe(q: Request, files: seq<File>)
    requires DistinctPaths(files)
    ensures Distinct(Garbage(q, files))
    ensures forall p :: p in Garbage(q, files) ==> p != q.current && p in PathsOf(files)
    ensures forall k :: 0 <= k < |files| && Expired(q, files[k]) ==> files[k].path in Garbage(q, files)
    ensures var left := |files| - |ExpiredPaths(q, files, |files|)|;
            |files| - |Garbage(q, files)| >= if left < q.retain then left else q.retain
  {
    hide Pick, SortedPaths, Expired;
    var expired := ExpiredPaths(q, files, |files|);
    var quota := Quota(|files|, |expired|, q.retain);
    PickIsSafe(q, expired, SortedPaths(files), quota, |files|);
    ExpiredDistinct(q, files, |files|);
    PickedAreFiles(q, files);
    forall p | p in Garbage(q, files) ensures p != q.current && p in PathsOf(files) {
      ExpiredPathsAre(q, files, |files|, p);
      if p in expired {
        var k :| 0 <= k < |files| && files[k].path == p && Expired(q, files[k]);
        ExpiredIsNotCurrent(q, files[k]);
        assert PathsOf(files)[k] == p;
      }
    }
    forall k | 0 <= k < |files| && Expired(q, files[k]) ensures files[k].path in Garbage(q, files) {
      ExpiredPathsAre(q, files, |files|, files[k].path);
    }
  }

  lemma ExpiredIsNotCurrent(q: Request, f: File)
    requires Expired(q, f)
    ensures f.path != q.current
  {
  }

  /**
   The count phase takes the oldest: a file that stands for its instant, could be taken and is left is
   younger than all that are taken.
   */
  lemma OldestFirst(q: Request, files: seq<File>, taken: nat, left: nat)
    requires DistinctPaths(files) && taken < |files| && left < |files|
    requires IsLast(files, left) && files[left].path != q.current
    ensures files[taken].path in Picked(q, files) && files[left].path !in Garbage(q, files) ==>
              files[taken].created < files[left].created
  {
    hide Pick, SortedPaths, SortedTimes, ExpiredPaths;
    if files[taken].path in Picked(q, files) && files[left].path !in Garbage(q, files) {
      var expired := ExpiredPaths(q, files, |files|);
      var paths, quota := SortedPaths(files), Quota(|files|, |expired|, q.retain);
      var i := LastIsSorted(files, left);
      PickIsPrefix(q, expired, paths, quota, |files|, i);
      PickIsSafe(q, expired, paths, quota, i);
      var j :| 0 <= j < i && paths[j] == files[taken].path;
      var k := SortedIsFile(files, j);
      assert k == taken;
      SortedIsLast(files, j, taken);
      assert SortedTimes(files)[j] <= SortedTimes(files)[i];
      assert taken != left;
    }
  }

  /**
   The files the count phase can take: those that stand for their instant, without the artifact in
   use and the expired ones.
   */
  ghost function Takeable(q: Request, files: seq<File>): set<string> {
    Candidates(q, ExpiredPaths(q, files, |files|), SortedPaths(files))
  }

  /** No file that was walked later was created at the same instant. */
  predicate IsLast(files: seq<File>, k: nat)
    requires k < |files|
  {
    forall j :: k < j < |files| ==> files[j].created != files[k].created
  }

  /** Of the files of one instant only the last one walked can be taken. */
  lemma TakeableAre(q: Request, files: seq<File>, k: nat)
    requires DistinctPaths(files) && k < |files|
    ensures files[k].path in Takeable(q, files) <==>
            IsLast(files, k) && files[k].path != q.current && !Expired(q, files[k])
  {
    hide Expired, SortedPaths, SortedTimes, ExpiredPaths;
    ExpiredPathsAre(q, files, |files|, files[k].path);
    if files[k].path in SortedPaths(files) {
      var i :| 0 <= i < |files| && SortedPaths(files)[i] == files[k].path;
      SortedIsLast(files, i, k);
    }
    if IsLast(files, k) {
      var i := LastIsSorted(files, k);
    }
  }

  /** One if the artifact in use was walked. */
  function InUse(q: Request, files: seq<File>): nat { if q.current in PathsOf(files) then 1 else 0 }

  lemma ExpiredAmongOthers(q: Request, files: seq<File>)
    ensures Members(ExpiredPaths(q, files, |files|)) <= Members(PathsOf(files)) - {q.current}
  {
    hide Expired, ExpiredPaths;
    forall p | p in ExpiredPaths(q, files, |files|) ensures p in PathsOf(files) && p != q.current {
      ExpiredPathsAre(q, files, |files|, p);
      var k :| 0 <= k < |files| && files[k].path == p && Expired(q, files[k]);
      ExpiredIsNotCurrent(q, files[k]);
      assert PathsOf(files)[k] == p;
    }
  }

  lemma DifferenceSize<T>(a: set<T>, b: set<T>)
    requires b <= a
    ensures |a - b| == |a| - |b|
  {
    assert a == b + (a - b);
  }

  /** With distinct times every file stands for its instant. */
  lemma TakeableSize(q: Request, files: seq<File>)
    requires DistinctPaths(files) && DistinctTimes(files)
    ensures |Takeable(q, files)| == |files| - |ExpiredPaths(q, files, |files|)| - InUse(q, files)
  {
    hide ExpiredPaths, PathsOf, Members, SortedPaths;
    var paths, expired := PathsOf(files), ExpiredPaths(q, files, |files|);
    SortedAreAll(files);
    MembersSize(paths);
    MembersSize(expired);
    ExpiredDistinct(q, files, |files|);
    ExpiredAmongOthers(q, files);
    DifferenceSize(Members(paths) - {q.current}, Members(expired));
    assert q.current in paths <==> q.current in Members(paths) by { InMembers(paths, q.current); }
    if q.current in Members(paths) { DifferenceSize(Members(paths), {q.current}); } else {
      assert Members(paths) - {q.current} == Members(paths);
    }
  }

  lemma SortedAreAll(files: seq<File>)
    requires DistinctTimes(files)
    ensures Members(SortedPaths(files)) == Members(PathsOf(files))
  {
    hide SortedPaths, SortedTimes;
    forall p | p in PathsOf(files) ensures p in SortedPaths(files) {
      var k :| 0 <= k < |files| && PathsOf(files)[k] == p;
      var i := LastIsSorted(files, k);
    }
    forall p | p in SortedPaths(files) ensures p in PathsOf(files) {
      var i :| 0 <= i < |files| && SortedPaths(files)[i] == p;
      var k := SortedIsFile(files, i);
      assert PathsOf(files)[k] == p;
    }
  }

  /** The paths that can be taken at all. */
  function Candidates(q: Request, expired: seq<string>, paths: seq<string>): set<string> {
    Members(paths) - {q.current} - Members(expired)
  }

  lemma UnfilledTakesAll(q: Request, expired: seq<string>, paths: seq<string>, quota: nat)
    requires |Pick(q, expired, paths, quota, |paths|)| < quota
    ensures Candidates(q, expired, paths) <= Members(Pick(q, expired, paths, quota, |paths|))
  {
    hide Pick;
    forall p | p in Candidates(q, expired, paths) ensures p in Pick(q, expired, paths, quota, |paths|) {
      var i :| 0 <= i < |paths| && paths[i] == p;
      if p !in Pick(q, expired, paths, quota, |paths|) {
        PickIsPrefix(q, expired, paths, quota, |paths|, i);
        assert false;
      }
    }
  }

  /** As many of the candidates are picked as the quota allows. */
  lemma PickCount(q: Request, expired: seq<string>, paths: seq<string>, quota: nat)
    ensures var candidates := |Candidates(q, expired, paths)|;
            |Pick(q, expired, paths, quota, |paths|)| == if quota <= candidates then quota else candidates
  {
    hide Pick;
    var picked, candidates := Pick(q, expired, paths, quota, |paths|), Candidates(q, expired, paths);
    PickIsSafe(q, expired, paths, quota, |paths|);
    assert paths[..|paths|] == paths;
    MembersSize(picked);
    assert Members(picked) <= candidates;
    SubsetSize(Members(picked), candidates);
    if |picked| < quota {
      UnfilledTakesAll(q, expired, paths, quota);
      SubsetSize(candidates, Members(picked));
    }
  }

  /** How many files the count phase takes, to the file. */
  lemma PickedCount(q: Request, files: seq<File>)
    ensures var quota := Quota(|files|, |ExpiredPaths(q, files, |files|)|, q.retain);
            |Picked(q, files)| == if quota <= |Takeable(q, files)| then quota else |Takeable(q, files)|
  {
    hide Pick, SortedPaths, ExpiredPaths, Quota, Candidates;
    var expired := ExpiredPaths(q, files, |files|);
    PickCount(q, expired, SortedPaths(files), Quota(|files|, |expired|, q.retain));
  }

  /**
   More files remain than are to be retained exactly when there is a surplus and either not so many
   files can be taken, or something has expired and the surplus is two or more.
   */
  lemma RetainsTooManyIff(q: Request, files: seq<File>)
    ensures var surplus := |files| - |ExpiredPaths(q, files, |files|)| - q.retain;
            |files| - |Garbage(q, files)| > q.retain <==>
            surplus > 0 && (|Takeable(q, files)| < surplus || (|ExpiredPaths(q, files, |files|)| > 0 && surplus >= 2))
  {
    hide ExpiredPaths, Picked, Takeable;
    PickedCount(q, files);
  }

  /** With distinct times and nothing expired, exactly the files that are to be retained remain. */
  lemma RetainsExactly(q: Request, files: seq<File>)
    requires DistinctPaths(files) && DistinctTimes(files)
    requires |ExpiredPaths(q, files, |files|)| == 0 && 1 <= q.retain <= |files|
    ensures |files| - |Garbage(q, files)| == q.retain
  {
    hide ExpiredPaths, Picked, Takeable;
    PickedCount(q, files);
    TakeableSize(q, files);
  }

  /** One expired file and three others, one to retain: two remain. */
  lemma KeepsTwoForOne()
    ensures var files := [File("a", 0), File("b", 10), File("c", 11), File("d", 12)];
            var q := Request("d", 1, 12, 5);
            |files| - |Garbage(q, files)| > q.retain
  {
    var files := [File("a", 0), File("b", 10), File("c", 11), File("d", 12)];
    var q := Request("d", 1, 12, 5);
    assert ExpiredPaths(q, files, 1) == ["a"];
    assert ExpiredPaths(q, files, 4) == ["a"];
    hide ExpiredPaths, Garbage, Takeable;
    RetainsTooManyIff(q, files);
  }

  lemma TakeableIsFile(q: Request, files: seq<File>, p: string) returns (k: nat)
    requires p in Takeable(q, files)
    ensures k < |files| && files[k].path == p
  {
    hide SortedPaths;
    var i :| 0 <= i < |files| && SortedPaths(files)[i] == p;
    k := SortedIsFile(files, i);
  }

  /** However many files there are of one instant, if the last of them is in use none can be taken. */
  lemma OneInstantKeepsAll(q: Request, files: seq<File>)
    requires DistinctPaths(files) && |files| > 0 && files[|files| - 1].path == q.current
    requires forall k :: 0 <= k < |files| ==> files[k].created == files[|files| - 1].created
    ensures Picked(q, files) == []
  {
    hide Takeable, Picked;
    if Takeable(q, files) != {} {
      var p :| p in Takeable(q, files);
      var k := TakeableIsFile(q, files, p);
      TakeableAre(q, files, k);
      assert false;
    }
    PickedCount(q, files);
  }

  /** Three files of one instant, the last of them in use, nothing expired, one to retain: all remain. */
  lemma EqualTimesKeepAll()
    ensures var files := [File("b", 10), File("c", 10), File("d", 10)];
            var q := Request("d", 1, 12, 5);
            |ExpiredPaths(q, files, 3)| == 0 && Garbage(q, files) == []
  {
    var files := [File("b", 10), File("c", 10), File("d", 10)];
    var q := Request("d", 1, 12, 5);
    assert ExpiredPaths(q, files, 1) == [];
    assert ExpiredPaths(q, files, 3) == [];
    hide ExpiredPaths, Picked;
    OneInstantKeepsAll(q, files);
  }

  // ----- the loops -----

  /** What the walk records of the files it has counted. */
  ghost predicate Records(q: Request, files: seq<File>,
                          garbage: seq<string>, times: seq<int>, byTime: map<int, string>)
  {
    && garbage == ExpiredPaths(q, files, |files|)
    && times == Times(files)
    && forall t :: (t in byTime <==> t in times) && (t in byTime ==> byTime[t] == LastAt(files, |files|, t))
  }

  lemma {:induction false} LastAtPrefix(files: seq<File>, f: File, n: nat, t: int)
    requires n <= |files|
    ensures LastAt(files + [f], n, t) == LastAt(files, n, t)
  {
    if n == 0 {
    } else {
      LastAtPrefix(files, f, n - 1, t);
    }
  }

  lemma RecordsMore(q: Request, files: seq<File>, f: File,
                    garbage: seq<string>, times: seq<int>, byTime: map<int, string>)
    requires Records(q, files, garbage, times, byTime)
    ensures var more := garbage + if Expired(q, f) then [f.path] else [];
            Records(q, files + [f], more, times + [f.created], byTime[f.created := f.path])
  {
    hide Expired;
    var more := files + [f];
    ExpiredPrefix(q, files, f, |files|);
    forall t ensures LastAt(more, |more|, t) == if t == f.created then f.path else LastAt(files, |files|, t) {
      LastAtPrefix(files, f, |files|, t);
    }
    assert Times(more) == times + [f.created];
  }

  method WalkFiles(q: Request, visits: seq<Visit>, limit: int)
    returns (failed: bool, total: nat, garbage: seq<string>, times: seq<int>, byTime: map<int, string>)
    ensures var w := After(visits, limit, |visits|);
            failed == w.failed && total == |w.files| && Records(q, w.files, garbage, times, byTime)
  {
    hide Records, IsLock;
    failed, total, garbage, times, byTime := false, 0, [], [], map[];
    assert Records(q, [], garbage, times, byTime) by { NothingRecorded(q); }
    for i := 0 to |visits|
      invariant var w := After(visits, limit, i);
                && !w.stopped && failed == w.failed && total == |w.files|
                && Records(q, w.files, garbage, times, byTime)
    {
      ghost var w := After(visits, limit, i);
      var v := visits[i];
      if v.WalkError? {
        failed := true;
        continue;
      }
      if total >= limit {
        StoppedStays(visits, limit, i + 1, |visits|);
        return;
      }
      if v.InfoError? {
        failed := true;
        continue;
      }
      if Counts(v) {
        var f := File(v.path, v.created);
        RecordsMore(q, w.files, f, garbage, times, byTime);
        garbage := garbage + if Expired(q, f) then [f.path] else [];
        total := total + 1;
        byTime := byTime[v.created := v.path];
        times := times + [v.created];
      }
    }
  }

  lemma NothingRecorded(q: Request)
    ensures Records(q, [], [], [], map[])
  {
  }

  /** Puts the paths into the order of their creation; every time has its file. */
  method Order(ghost q: Request, ghost files: seq<File>, ghost garbage: seq<string>, times: seq<int>,
          byTime: map<int, string>)
    returns (sortedPaths: seq<string>)
    requires Records(q, files, garbage, times, byTime)
    ensures sortedPaths == SortedPaths(files)
  {
    hide SortTimes, LastAt, ExpiredPaths;
    var sorted := SortTimes(times);
    AscendingIsUnique(sorted, SortedTimes(files));
    sortedPaths := [];
    for i := 0 to |sorted|
      invariant |sortedPaths| == i
      invariant forall k :: 0 <= k < i ==> sortedPaths[k] == LastAt(files, |files|, sorted[k])
    {
      var t := sorted[i];
      assert t in times by { assert t in multiset(sorted) && multiset(sorted) == multiset(Times(files)); }
      sortedPaths := sortedPaths + [byTime[t]];
    }
  }

  /** The test of the loop, as long as nothing was taken that it does not count. */
  lemma QuotaIff(total: nat, expired: nat, retain: int, collected: nat)
    requires total - expired >= retain
    ensures collected < Quota(total, expired, retain) <==>
            (if expired > 0 then total - collected - (expired + collected) else total - collected) > retain
  {
  }

  method Collect(q: Request, expired: seq<string>, sortedPaths: seq<string>) returns (garbage: seq<string>)
    requires |sortedPaths| - |expired| >= q.retain
    requires forall k :: 0 <= k < |sortedPaths| ==> !IsLock(sortedPaths[k])
    ensures garbage == expired + Pick(q, expired, sortedPaths, Quota(|sortedPaths|, |expired|, q.retain), |sortedPaths|)
  {
    hide Quota, IsLock;
    ghost var quota := Quota(|sortedPaths|, |expired|, q.retain);
    garbage := expired;
    var collected := 0;
    for i := 0 to |sortedPaths|
      invariant garbage == expired + Pick(q, expired, sortedPaths, quota, i)
      invariant collected == |Pick(q, expired, sortedPaths, quota, i)|
    {
      var p := sortedPaths[i];
      QuotaIff(|sortedPaths|, |expired|, q.retain, collected);
      if p != q.current && !IsLock(p) && p !in garbage {
        if |expired| > 0 {
          if |sortedPaths| - collected - |garbage| > q.retain {
            garbage := garbage + [p];
            collected := collected + 1;
          }
        } else {
          if |sortedPaths| - collected > q.retain {
            garbage := garbage + [p];
            collected := collected + 1;
          }
        }
      }
    }
  }

  datatype Outcome = WalkFailed | Collected(paths: seq<string>)

  /** The files to delete: never the artifact in use, never a lock file. */
  method GetGarbageFiles(q: Request, visits: seq<Visit>, limit: int) returns (o: Outcome)
    requires VisitsOnce(visits)
    ensures o.WalkFailed? <==> After(visits, limit, |visits|).failed
    ensures o.Collected? ==> o.paths == Garbage(q, After(visits, limit, |visits|).files)
    ensures o.Collected? ==> Distinct(o.paths) && forall p :: p in o.paths ==> p != q.current && !IsLock(p)
    // every regular file within the limit that is too old is chosen, and only regular files are
    ensures o.Collected? ==>
              forall i: nat, f ::
                Shows(visits, i, f) && ShownBefore(visits, i) < limit && TooOld(q, f) ==> f.path in o.paths
    ensures o.Collected? ==> forall p :: p in o.paths ==> exists i: nat, t :: Shows(visits, i, File(p, t))
  {
    hide Records, Picked, IsLock, Step;
    ghost var files := After(visits, limit, |visits|).files;
    var failed, total, garbage, times, byTime := WalkFiles(q, visits, limit);
    if failed {
      return WalkFailed;
    }
    assert garbage == ExpiredPaths(q, files, |files|) by { RecordsGarbage(q, files, garbage, times, byTime); }
    FilesAreVisits(visits, limit, |visits|);
    GarbageIsSafe(q, files);
    GarbageIsShown(q, visits, limit);
    if total - |garbage| < q.retain {
      NothingPicked(q, files);
      return Collected(garbage);
    }
    var sortedPaths := Order(q, files, garbage, times, byTime);
    forall i | 0 <= i < |sortedPaths| ensures !IsLock(sortedPaths[i]) { var k := SortedIsFile(files, i); }
    garbage := Collect(q, garbage, sortedPaths);
    PickedIs(q, files);
    return Collected(garbage);
  }

  /** What is chosen, on the visits. */
  lemma GarbageIsShown(q: Request, visits: seq<Visit>, limit: int)
    requires VisitsOnce(visits)
    ensures var garbage := Garbage(q, After(visits, limit, |visits|).files);
            && (forall i: nat, f ::
                  Shows(visits, i, f) && ShownBefore(visits, i) < limit && TooOld(q, f) ==> f.path in garbage)
            && (forall p :: p in garbage ==> exists i: nat, t :: Shows(visits, i, File(p, t)))
  {
    hide IsLock, Step, Garbage, ShownBefore, After;
    var files := After(visits, limit, |visits|).files;
    FilesAreVisits(visits, limit, |visits|);
    GarbageIsSafe(q, files);
    var at := FilesAreShown(visits, limit, |visits|);
    forall i: nat, f | Shows(visits, i, f) && ShownBefore(visits, i) < limit && TooOld(q, f)
      ensures f.path in Garbage(q, files)
    {
      var k :| 0 <= k < |at| && at[k] == i;
      assert Shows(visits, at[k], files[k]) && files[k] == f && Expired(q, f);
    }
    forall p | p in Garbage(q, files) ensures exists i: nat, t :: Shows(visits, i, File(p, t)) {
      var k :| 0 <= k < |files| && PathsOf(files)[k] == p;
      assert Shows(visits, at[k], File(p, files[k].created));
    }
  }

  lemma RecordsGarbage(q: Request, files: seq<File>, garbage: seq<string>, times: seq<int>, byTime: map<int, string>)
    requires Records(q, files, garbage, times, byTime)
    ensures garbage == ExpiredPaths(q, files, |files|)
  {
  }

  lemma PickedIs(q: Request, files: seq<File>)
    ensures var expired := ExpiredPaths(q, files, |files|);
            Picked(q, files) == Pick(q, expired, SortedPaths(files), Quota(|files|, |expired|, q.retain), |files|)
  {
  }

  lemma NothingPicked(q: Request, files: seq<File>)
    requires |files| - |ExpiredPaths(q, files, |files|)| < q.retain
    ensures Garbage(q, files) == ExpiredPaths(q, files, |files|)
  {
    hide Pick, SortedPaths, ExpiredPaths;
    PickIsSafe(q, ExpiredPaths(q, files, |files|), SortedPaths(files), 0, |files|);
  }
}
