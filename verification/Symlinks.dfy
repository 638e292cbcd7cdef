/**
 The symlink-resolving copy of tar/symlinks.go.

 A path is the sequence of its components.  `Expect` says what has to be found at a path below the
 destination: what following the source from name to name leads to, cut at directories that are
 being copied already.  `CopyDir` is proved to write exactly that, to terminate on every finite
 directory graph, and with a root to read nothing outside it.
 */
module Symlinks {
  import opened Prelude

  type Path = seq<string>

  // ----- containment -----

  /** A component of a cleaned absolute path. */
  predicate IsComponent(c: string) {
    |c| > 0 && c != ".." && forall i :: 0 <= i < |c| ==> c[i] != '/'
  }

  predicate IsClean(p: Path) { forall i :: 0 <= i < |p| ==> IsComponent(p[i]) }

  /** The number of leading components that two paths share. */
  function Common(a: Path, b: Path, k: nat): (n: nat)
    requires k <= |a| && k <= |b|
    ensures k <= n <= |a| && n <= |b|
    ensures forall i :: k <= i < n ==> a[i] == b[i]
    ensures n < |a| && n < |b| ==> a[n] != b[n]
    decreases |a| - k
  {
    if k < |a| && k < |b| && a[k] == b[k] then Common(a, b, k + 1) else k
  }

  /** The components from `k` on, joined with slashes. */
  function JoinFrom(p: Path, k: nat): string
    requires k < |p|
    decreases |p| - k
  {
    if k + 1 == |p| then p[k] else p[k] + "/" + JoinFrom(p, k + 1)
  }

  /** filepath.Rel of two cleaned absolute paths. */
  function Rel(root: Path, path: Path): string {
    var c := Common(root, path, 0);
    var parts := seq(|root| - c, _ => "..") + path[c..];
    if |parts| == 0 then "." else JoinFrom(parts, 0)
  }

  predicate IsWithin(root: Path, path: Path) {
    var rel := Rel(root, path);
    rel != ".." && !HasPrefix(rel, "../")
  }

  /** The test on the relative path is true exactly for the root and the paths below it. */
  lemma WithinIffPrefix(root: Path, path: Path)
    requires IsClean(path)
    ensures IsWithin(root, path) <==> root <= path
  {
    var c := Common(root, path, 0);
    var parts := seq(|root| - c, _ => "..") + path[c..];
    var rel := Rel(root, path);
    if c < |root| {
      assert parts[0] == "..";
      assert rel[..2] == "..";
      if |parts| > 1 { assert rel[..3] == "../"; }
    } else {
      assert root == path[..c];
      assert parts == path[c..];
      if |parts| > 0 {
        var w := parts[0];
        assert IsComponent(path[c]);
        assert rel[..|w|] == w;
        if |parts| > 1 { assert rel[|w|] == '/'; }
        NotUp(rel, w, |parts| > 1);
      }
    }
  }

  lemma NotUp(rel: string, w: string, more: bool)
    requires IsComponent(w) && |w| <= |rel| && rel[..|w|] == w
    requires if more then |w| < |rel| && rel[|w|] == '/' else rel == w
    ensures rel != ".." && !HasPrefix(rel, "../")
  {
    assert forall i :: 0 <= i < |w| ==> rel[i] == w[i];
    assert |w| == 2 ==> w[0] != '.' || w[1] != '.';
    assert |rel| >= 3 ==> rel[..3] == [rel[0], rel[1], rel[2]];
  }

  // ----- the source tree -----

  /** What a path is; a link carries the final path that it resolves to, if it resolves. */
  datatype Node = Dir(names: seq<string>) | File(data: seq<int>) | Link(target: Option<Path>) | Other

  type Fs = map<Path, Node>

  /** Directories list every name once, and resolved links lead to cleaned paths that are no links. */
  predicate IsFs(fs: Fs) {
    forall p :: p in fs ==>
      match fs[p]
      case Dir(names) =>
        && (forall i, j :: 0 <= i < j < |names| ==> names[i] != names[j])
        && (forall i :: 0 <= i < |names| ==> IsComponent(names[i]))
      case Link(Some(t)) => IsClean(t) && (t in fs ==> !fs[t].Link?)
      case _ => true
  }

  predicate IsDir(fs: Fs, p: Path) { p in fs && fs[p].Dir? }

  /** The path that an entry stands for: its own, or that of the link's target. */
  function Real(fs: Fs, p: Path): Option<Path> {
    if p in fs && fs[p].Link? then fs[p].target else Some(p)
  }

  /** Is `p` a link that leaves the root? */
  predicate Escapes(fs: Fs, root: Option<Path>, p: Path) {
    p in fs && fs[p].Link? && root.Some? && fs[p].target.Some? && !IsWithin(root.value, fs[p].target.value)
  }

  datatype Out = OutDir | OutFile(data: seq<int>)

  type Dst = map<Path, Out>

  function Get(d: Dst, p: Path): Option<Out> { if p in d then Some(d[p]) else None }

  /** What is written for a node; devices, sockets and the like are skipped. */
  function OutOf(n: Node): Option<Out> {
    match n
    case Dir(_) => Some(OutDir)
    case File(data) => Some(OutFile(data))
    case _ => None
  }

  /** The directory `dir`, not being copied already, has an entry `name` that leads to `at`. */
  predicate Leads(fs: Fs, dir: Path, stack: set<Path>, name: string, at: Path) {
    && dir !in stack && IsDir(fs, dir) && name in fs[dir].names
    && Real(fs, dir + [name]) == Some(at) && at in fs
  }

  /** Where the entry `name` of `dir` leads; only meaningful where it leads somewhere. */
  function RealOf(fs: Fs, dir: Path, name: string): Path {
    if Real(fs, dir + [name]).Some? then Real(fs, dir + [name]).value else dir
  }

  /**
   What has to be at `names` below the copy of `dir`: the tree is unfolded through links, and cut
   at the directories on the stack.
   */
  function Expect(fs: Fs, dir: Path, stack: set<Path>, names: seq<string>): Option<Out>
    requires |names| > 0
    decreases |names|
  {
    var at := RealOf(fs, dir, names[0]);
    if !Leads(fs, dir, stack, names[0], at) then None
    else if |names| == 1 then OutOf(fs[at])
    else if fs[at].Dir? then Expect(fs, at, stack + {dir}, names[1..])
    else None
  }

  /** Copying the entry `name` fails: an unresolved or escaping link, a missing file, or a clash at the destination. */
  predicate EntryFails(fs: Fs, root: Option<Path>, dir: Path, name: string, there: Option<Out>) {
    var p := dir + [name];
    || Real(fs, p).None? || Escapes(fs, root, p) || Real(fs, p).value !in fs
    || (fs[Real(fs, p).value].Dir? && there.Some? && there.value.OutFile?)
    || (fs[Real(fs, p).value].File? && there == Some(OutDir))
  }

  /** The copy gets to `names` below `dir` and fails there. */
  predicate FailsAt(fs: Fs, root: Option<Path>, dir: Path, stack: set<Path>, d: Dst, dstDir: Path, names: seq<string>)
    requires |names| > 0
    decreases |names|
  {
    && dir !in stack && IsDir(fs, dir) && names[0] in fs[dir].names
    && var to := dstDir + [names[0]];
       if |names| == 1 then EntryFails(fs, root, dir, names[0], Get(d, to))
       else
         && !EntryFails(fs, root, dir, names[0], Get(d, to))
         && fs[Real(fs, dir + [names[0]]).value].Dir?
         && FailsAt(fs, root, Real(fs, dir + [names[0]]).value, stack + {dir}, d, to, names[1..])
  }

  // ----- comparing destinations -----

  predicate Below(dstDir: Path, q: Path) { dstDir < q }

  /** The names that lead from `dstDir` down to `q`. */
  function NamesOf(dstDir: Path, q: Path): (names: seq<string>)
    requires Below(dstDir, q)
    ensures |names| > 0 && q == dstDir + names
  {
    q[|dstDir|..]
  }

  /** What is at `q` after the entries in `done` have been copied. */
  function After(fs: Fs, dir: Path, stack: set<Path>, dstDir: Path, before: Dst, done: set<string>,
          q: Path): Option<Out> {
    if Below(dstDir, q) && NamesOf(dstDir, q)[0] in done && Expect(fs, dir, stack, NamesOf(dstDir, q)).Some?
    then Expect(fs, dir, stack, NamesOf(dstDir, q))
    else Get(before, q)
  }

  /** The destination holds the entries in `done`, unfolded, and is otherwise as before. */
  ghost predicate Copied(fs: Fs, dir: Path, stack: set<Path>, dstDir: Path, before: Dst, after: Dst,
          done: set<string>) {
    forall q :: Get(after, q) == After(fs, dir, stack, dstDir, before, done, q)
  }

  /** Nothing fails at or below the entries in `done`. */
  ghost predicate NoFailure(fs: Fs, root: Option<Path>, dir: Path, stack: set<Path>, d: Dst, dstDir: Path,
          done: set<string>) {
    forall names :: |names| > 0 && names[0] in done ==> !FailsAt(fs, root, dir, stack, d, dstDir, names)
  }

  function NamesIn(fs: Fs, dir: Path): set<string> {
    if IsDir(fs, dir) then set n | n in fs[dir].names else {}
  }

  /** The first `i` names of a directory. */
  function Taken(fs: Fs, dir: Path, i: nat): set<string>
    requires IsDir(fs, dir) && i <= |fs[dir].names|
  {
    set n | n in fs[dir].names[..i]
  }

  lemma TakenMore(fs: Fs, dir: Path, i: nat)
    requires IsFs(fs) && IsDir(fs, dir) && i < |fs[dir].names|
    ensures Taken(fs, dir, i + 1) == Taken(fs, dir, i) + {fs[dir].names[i]} && fs[dir].names[i] !in Taken(fs, dir, i)
    ensures Taken(fs, dir, i + 1) <= NamesIn(fs, dir)
  {
  }

  lemma TakenAll(fs: Fs, dir: Path)
    requires IsDir(fs, dir)
    ensures Taken(fs, dir, 0) == {} && Taken(fs, dir, |fs[dir].names|) == NamesIn(fs, dir)
  {
  }

  // ----- one entry -----

  lemma FileCopied(fs: Fs, dir: Path, stack: set<Path>, dstDir: Path, name: string, before: Dst, at: Path)
    requires Leads(fs, dir, stack, name, at) && fs[at].File?
    ensures Copied(fs, dir, stack, dstDir, before, before[dstDir + [name] := OutFile(fs[at].data)], {name})
  {
    var to := dstDir + [name];
    var after := before[to := OutFile(fs[at].data)];
    forall q ensures Get(after, q) == After(fs, dir, stack, dstDir, before, {name}, q) {
      if Below(dstDir, q) && NamesOf(dstDir, q)[0] == name && |NamesOf(dstDir, q)| == 1 {
        assert NamesOf(dstDir, q) == [name];
      }
      if q == to {
        assert Below(dstDir, q) && NamesOf(dstDir, q) == [name];
      }
    }
  }

  lemma SkippedCopied(fs: Fs, dir: Path, stack: set<Path>, dstDir: Path, name: string, before: Dst, at: Path)
    requires Leads(fs, dir, stack, name, at) && !fs[at].File? && !fs[at].Dir?
    ensures Copied(fs, dir, stack, dstDir, before, before, {name})
  {
  }

  lemma DirCopied(fs: Fs, dir: Path, stack: set<Path>, dstDir: Path, name: string, before: Dst, after: Dst, at: Path)
    requires Leads(fs, dir, stack, name, at) && fs[at].Dir?
    requires Copied(fs, at, stack + {dir}, dstDir + [name], before[dstDir + [name] := OutDir], after, NamesIn(fs, at))
    ensures Copied(fs, dir, stack, dstDir, before, after, {name})
  {
    var to := dstDir + [name];
    var mid := before[to := OutDir];
    forall q ensures Get(after, q) == After(fs, dir, stack, dstDir, before, {name}, q) {
      assert Get(after, q) == After(fs, at, stack + {dir}, to, mid, NamesIn(fs, at), q);
      if q == to {
        assert Below(dstDir, q) && NamesOf(dstDir, q) == [name];
      } else if Below(to, q) {
        assert Below(dstDir, q) && NamesOf(dstDir, q)[0] == name;
        assert NamesOf(dstDir, q)[1..] == NamesOf(to, q);
        assert Expect(fs, dir, stack, NamesOf(dstDir, q)) == Expect(fs, at, stack + {dir}, NamesOf(to, q));
        assert Get(mid, q) == Get(before, q);
      } else if Below(dstDir, q) {
        assert q[..|dstDir| + 1] == dstDir + [NamesOf(dstDir, q)[0]];
      }
    }
  }

  /** Copying one more entry. */
  lemma CopiedMore(fs: Fs, dir: Path, stack: set<Path>, dstDir: Path, before: Dst, mid: Dst, after: Dst,
          done: set<string>, name: string)
    requires Copied(fs, dir, stack, dstDir, before, mid, done) && name !in done
    requires Copied(fs, dir, stack, dstDir, mid, after, {name})
    ensures Copied(fs, dir, stack, dstDir, before, after, done + {name})
  {
  }

  lemma CopiedNone(fs: Fs, dir: Path, stack: set<Path>, dstDir: Path, d: Dst, done: set<string>)
    requires dir in stack || done == {}
    ensures Copied(fs, dir, stack, dstDir, d, d, done)
  {
  }

  // ----- failures -----

  /** The destinations agree at and below the entry `name` of `dstDir`. */
  ghost predicate Agree(d: Dst, d': Dst, dstDir: Path, name: string) {
    forall q :: Below(dstDir, q) && NamesOf(dstDir, q)[0] == name ==> Get(d, q) == Get(d', q)
  }

  lemma {:induction false} FailsSame(fs: Fs, root: Option<Path>, dir: Path, stack: set<Path>, d: Dst, d': Dst,
          dstDir: Path, names: seq<string>)
    requires |names| > 0 && Agree(d, d', dstDir, names[0])
    ensures FailsAt(fs, root, dir, stack, d, dstDir, names) <==> FailsAt(fs, root, dir, stack, d', dstDir, names)
    decreases |names|
  {
    var to := dstDir + [names[0]];
    assert Below(dstDir, to) && NamesOf(dstDir, to)[0] == names[0];
    if |names| > 1 && dir !in stack && IsDir(fs, dir) && names[0] in fs[dir].names
       && !EntryFails(fs, root, dir, names[0], Get(d, to)) {
      AgreeBelow(d, d', dstDir, names[0], names[1]);
      FailsSame(fs, root, Real(fs, dir + [names[0]]).value, stack + {dir}, d, d', to, names[1..]);
    }
  }

  lemma AgreeBelow(d: Dst, d': Dst, dstDir: Path, name: string, next: string)
    requires Agree(d, d', dstDir, name)
    ensures Agree(d, d', dstDir + [name], next)
  {
  }

  /** An entry that fails by itself. */
  lemma EntryFailure(fs: Fs, root: Option<Path>, dir: Path, stack: set<Path>, d: Dst, dstDir: Path, name: string)
    requires dir !in stack && IsDir(fs, dir) && name in fs[dir].names
    requires EntryFails(fs, root, dir, name, Get(d, dstDir + [name]))
    ensures !NoFailure(fs, root, dir, stack, d, dstDir, {name})
  {
    assert FailsAt(fs, root, dir, stack, d, dstDir, [name]);
  }

  /** An entry that is no directory fails only by itself. */
  lemma LeafFailure(fs: Fs, root: Option<Path>, dir: Path, stack: set<Path>, d: Dst, dstDir: Path, name: string)
    requires !EntryFails(fs, root, dir, name, Get(d, dstDir + [name])) && !fs[Real(fs, dir + [name]).value].Dir?
    ensures NoFailure(fs, root, dir, stack, d, dstDir, {name})
  {
  }

  lemma DirFailsAt(fs: Fs, root: Option<Path>, dir: Path, stack: set<Path>, d: Dst, dstDir: Path, name: string,
          at: Path, names: seq<string>)
    requires Leads(fs, dir, stack, name, at) && fs[at].Dir? &&
              !EntryFails(fs, root, dir, name, Get(d, dstDir + [name])) && |names| > 0
    ensures FailsAt(fs, root, dir, stack, d, dstDir, [name] + names) <==>
            FailsAt(fs, root, at, stack + {dir}, d[dstDir + [name] := OutDir], dstDir + [name], names)
  {
    hide EntryFails;
    var to := dstDir + [name];
    assert ([name] + names)[1..] == names;
    FailsSame(fs, root, at, stack + {dir}, d[to := OutDir], d, to, names);
  }

  lemma FailsDeeper(fs: Fs, root: Option<Path>, dir: Path, stack: set<Path>, d: Dst, dstDir: Path, name: string,
          at: Path, rest: seq<string>)
    requires Leads(fs, dir, stack, name, at) && fs[at].Dir? && !EntryFails(fs, root, dir, name, Get(d, dstDir + [name]))
    requires FailsAt(fs, root, dir, stack, d, dstDir, [name] + rest)
    ensures |rest| > 0 && rest[0] in NamesIn(fs, at)
  {
  }

  /** A directory entry that does not fail by itself fails exactly when its copy does. */
  lemma DirFailure(fs: Fs, root: Option<Path>, dir: Path, stack: set<Path>, d: Dst, dstDir: Path, name: string,
          at: Path)
    requires Leads(fs, dir, stack, name, at) && fs[at].Dir? && !EntryFails(fs, root, dir, name, Get(d, dstDir + [name]))
    ensures NoFailure(fs, root, dir, stack, d, dstDir, {name}) <==>
            NoFailure(fs, root, at, stack + {dir}, d[dstDir + [name] := OutDir], dstDir + [name], NamesIn(fs, at))
  {
    hide EntryFails, FailsAt, NamesIn;
    var to, mid := dstDir + [name], d[dstDir + [name] := OutDir];
    if !NoFailure(fs, root, dir, stack, d, dstDir, {name}) {
      var names :| |names| > 0 && names[0] in {name} && FailsAt(fs, root, dir, stack, d, dstDir, names);
      assert names == [name] + names[1..];
      FailsDeeper(fs, root, dir, stack, d, dstDir, name, at, names[1..]);
      DirFailsAt(fs, root, dir, stack, d, dstDir, name, at, names[1..]);
      assert FailsAt(fs, root, at, stack + {dir}, mid, to, names[1..]);
    }
    if !NoFailure(fs, root, at, stack + {dir}, mid, to, NamesIn(fs, at)) {
      var names :| |names| > 0 && names[0] in NamesIn(fs, at) && FailsAt(fs, root, at, stack + {dir}, mid, to, names);
      DirFailsAt(fs, root, dir, stack, d, dstDir, name, at, names);
      assert ([name] + names)[0] in {name};
      assert FailsAt(fs, root, dir, stack, d, dstDir, [name] + names);
    }
  }

  /** What was copied before under other names does not matter for the entry `name`. */
  lemma FailureAfter(fs: Fs, root: Option<Path>, dir: Path, stack: set<Path>, dstDir: Path, before: Dst, mid: Dst,
          done: set<string>, name: string)
    requires Copied(fs, dir, stack, dstDir, before, mid, done) && name !in done
    ensures NoFailure(fs, root, dir, stack, mid, dstDir, {name}) <==>
              NoFailure(fs, root, dir, stack, before, dstDir, {name})
  {
    forall q | Below(dstDir, q) && NamesOf(dstDir, q)[0] == name ensures Get(mid, q) == Get(before, q) {
      assert Get(mid, q) == After(fs, dir, stack, dstDir, before, done, q);
    }
    forall names | |names| > 0 && names[0] in {name}
      ensures FailsAt(fs, root, dir, stack, mid, dstDir, names) <==>
                FailsAt(fs, root, dir, stack, before, dstDir, names)
    {
      FailsSame(fs, root, dir, stack, mid, before, dstDir, names);
    }
  }

  lemma NoFailureMore(fs: Fs, root: Option<Path>, dir: Path, stack: set<Path>, d: Dst, dstDir: Path,
          done: set<string>, name: string)
    ensures NoFailure(fs, root, dir, stack, d, dstDir, done + {name}) <==>
            NoFailure(fs, root, dir, stack, d, dstDir, done) && NoFailure(fs, root, dir, stack, d, dstDir, {name})
  {
  }

  // ----- the copier -----

  function Dirs(fs: Fs): set<Path> { set p | p in fs && fs[p].Dir? }

  /** `p` is the root or below it, when there is a root. */
  predicate Confined(root: Option<Path>, p: Path) { root.Some? ==> root.value <= p }

  class Copier {
    const fs: Fs
    /** The destination, the stack of directories being copied, and every path listed or read. */
    var dst: Dst
    var visited: set<Path>
    var accessed: set<Path>

    constructor (f: Fs, d: Dst)
      ensures fs == f && dst == d && visited == {} && accessed == {}
    {
      fs, dst, visited, accessed := f, d, {}, {};
    }

    method CopyDir(root: Option<Path>, srcDir: Path, dstDir: Path) returns (ok: bool)
      requires IsFs(fs) && IsDir(fs, srcDir) && IsClean(srcDir) && Confined(root, srcDir)
      modifies this
      ensures visited == old(visited)
      ensures ok <==> NoFailure(fs, root, srcDir, visited, old(dst), dstDir, NamesIn(fs, srcDir))
      ensures ok ==> Copied(fs, srcDir, visited, dstDir, old(dst), dst, NamesIn(fs, srcDir))
      ensures forall p :: p in accessed - old(accessed) ==> Confined(root, p)
      decreases |Dirs(fs) - visited|, 1
    {
      hide Copied, NoFailure, Confined, Taken, NamesIn, IsFs;
      if srcDir in visited {
        CopiedNone(fs, srcDir, visited, dstDir, dst, NamesIn(fs, srcDir));
        NoneFails(fs, root, srcDir, visited, dst, dstDir, NamesIn(fs, srcDir));
        return true;
      }
      ghost var stack, before := visited, dst;
      visited := visited + {srcDir};
      accessed := accessed + {srcDir};
      assert Dirs(fs) - visited < Dirs(fs) - stack;
      SmallerSet(Dirs(fs) - visited, Dirs(fs) - stack);

      var names := fs[srcDir].names;
      TakenAll(fs, srcDir);
      CopiedNone(fs, srcDir, stack, dstDir, dst, {});
      NoneFails(fs, root, srcDir, stack, dst, dstDir, {});
      for i := 0 to |names|
        invariant visited == stack + {srcDir}
        invariant Copied(fs, srcDir, stack, dstDir, before, dst, Taken(fs, srcDir, i))
        invariant NoFailure(fs, root, srcDir, stack, before, dstDir, Taken(fs, srcDir, i))
        invariant forall p :: p in accessed - old(accessed) ==> Confined(root, p)
      {
        ghost var mid, done := dst, Taken(fs, srcDir, i);
        TakenMore(fs, srcDir, i);
        ok := CopyEntry(root, srcDir, dstDir, names[i], stack);
        FailureAfter(fs, root, srcDir, stack, dstDir, before, mid, done, names[i]);
        NoFailureMore(fs, root, srcDir, stack, before, dstDir, done, names[i]);
        if !ok {
          SomeFails(fs, root, srcDir, stack, before, dstDir, done + {names[i]}, NamesIn(fs, srcDir));
          visited := visited - {srcDir};
          return false;
        }
        CopiedMore(fs, srcDir, stack, dstDir, before, mid, dst, done, names[i]);
      }
      visited := visited - {srcDir};
      return true;
    }

    /** One round of copyDir's loop. */
    method CopyEntry(root: Option<Path>, srcDir: Path, dstDir: Path, name: string,
            ghost stack: set<Path>) returns (ok: bool)
      requires IsFs(fs) && IsDir(fs, srcDir) && IsClean(srcDir) && Confined(root, srcDir)
      requires visited == stack + {srcDir} && srcDir !in stack && name in fs[srcDir].names
      modifies this
      ensures visited == old(visited)
      ensures ok <==> NoFailure(fs, root, srcDir, stack, old(dst), dstDir, {name})
      ensures ok ==> Copied(fs, srcDir, stack, dstDir, old(dst), dst, {name})
      ensures forall p :: p in accessed - old(accessed) ==> Confined(root, p)
      decreases |Dirs(fs) - visited|, 2
    {
      hide Copied, NoFailure, FailsAt, Expect, IsWithin, IsFs;
      var srcPath, dstPath := srcDir + [name], dstDir + [name];
      ghost var before := dst;
      ChildIsClean(fs, srcDir, name);
      if EntryFails(fs, root, srcDir, name, Get(dst, dstPath)) {
        EntryFailure(fs, root, srcDir, stack, dst, dstDir, name);
      }
      var isLink := srcPath in fs && fs[srcPath].Link?;
      var realPath := srcPath;
      if isLink {
        if fs[srcPath].target.None? {
          return false;
        }
        realPath := fs[srcPath].target.value;
        if root.Some? && !IsWithin(root.value, realPath) {
          return false;
        }
        TargetIsClean(fs, srcPath);
        if root.Some? { WithinIffPrefix(root.value, realPath); }
      }
      if realPath !in fs {
        return false;
      }
      assert Leads(fs, srcDir, stack, name, realPath);
      match fs[realPath] {
        case Dir(_) =>
          if dstPath in dst && dst[dstPath].OutFile? {
            return false;
          }
          dst := dst[dstPath := OutDir];
          DirFailure(fs, root, srcDir, stack, before, dstDir, name, realPath);
          ok := CopyDir(root, realPath, dstPath);
          if ok { DirCopied(fs, srcDir, stack, dstDir, name, before, dst, realPath); }
        case File(data) =>
          accessed := accessed + {realPath};
          if dstPath in dst && dst[dstPath].OutDir? {
            return false;
          }
          dst := dst[dstPath := OutFile(data)];
          LeafFailure(fs, root, srcDir, stack, before, dstDir, name);
          FileCopied(fs, srcDir, stack, dstDir, name, before, realPath);
          ok := true;
        case _ =>
          LeafFailure(fs, root, srcDir, stack, before, dstDir, name);
          SkippedCopied(fs, srcDir, stack, dstDir, name, before, realPath);
          ok := true;
      }
    }
  }

  lemma SmallerSet<T>(a: set<T>, b: set<T>)
    requires a < b
    ensures |a| < |b|
  {
    assert |b - a| == |b| - |a|;
    var x :| x in b && x !in a;
    assert x in b - a;
  }

  lemma NoneFails(fs: Fs, root: Option<Path>, dir: Path, stack: set<Path>, d: Dst, dstDir: Path, done: set<string>)
    requires dir in stack || done == {}
    ensures NoFailure(fs, root, dir, stack, d, dstDir, done)
  {
  }

  lemma SomeFails(fs: Fs, root: Option<Path>, dir: Path, stack: set<Path>, d: Dst, dstDir: Path, done: set<string>,
          all: set<string>)
    requires !NoFailure(fs, root, dir, stack, d, dstDir, done) && done <= all
    ensures !NoFailure(fs, root, dir, stack, d, dstDir, all)
  {
  }

  lemma ChildIsClean(fs: Fs, dir: Path, name: string)
    requires IsFs(fs) && IsDir(fs, dir) && IsClean(dir) && name in fs[dir].names
    ensures IsClean(dir + [name])
  {
  }

  lemma TargetIsClean(fs: Fs, p: Path)
    requires IsFs(fs) && p in fs && fs[p].Link? && fs[p].target.Some?
    ensures IsClean(fs[p].target.value)
    ensures fs[p].target.value in fs ==> !fs[fs[p].target.value].Link?
  {
  }

  /** The entry at `p` exists, and if it is a link, its target exists within the root. */
  predicate Resolves(fs: Fs, root: Option<Path>, p: Path) {
    p in fs && (fs[p].Link? ==>
      fs[p].target.Some? && fs[p].target.value in fs && (root.Some? ==> root.value <= fs[p].target.value))
  }

  ghost predicate AllResolve(fs: Fs, root: Option<Path>) {
    forall dir, name :: IsDir(fs, dir) && name in fs[dir].names ==> Resolves(fs, root, dir + [name])
  }

  lemma ResolvedDoesNotFail(fs: Fs, root: Option<Path>, dir: Path, name: string)
    requires IsFs(fs) && AllResolve(fs, root) && IsDir(fs, dir) && name in fs[dir].names
    ensures !EntryFails(fs, root, dir, name, None) && Real(fs, dir + [name]).Some?
  {
    hide IsWithin;
    var p := dir + [name];
    assert Resolves(fs, root, p);
    if fs[p].Link? {
      TargetIsClean(fs, p);
      if root.Some? { WithinIffPrefix(root.value, fs[p].target.value); }
    }
  }

  lemma {:induction false} NoneFailsBelow(fs: Fs, root: Option<Path>, dir: Path, stack: set<Path>, d: Dst, dstDir: Path,
          names: seq<string>)
    requires IsFs(fs) && AllResolve(fs, root) && |names| > 0 && forall q :: q in d ==> !Below(dstDir, q)
    ensures !FailsAt(fs, root, dir, stack, d, dstDir, names)
    decreases |names|
  {
    hide EntryFails, AllResolve, IsFs;
    if IsDir(fs, dir) && names[0] in fs[dir].names {
      var to := dstDir + [names[0]];
      assert Below(dstDir, to) && Get(d, to) == None;
      ResolvedDoesNotFail(fs, root, dir, names[0]);
      if |names| > 1 {
        forall q | q in d ensures !Below(to, q) { assert Below(to, q) ==> Below(dstDir, q); }
        NoneFailsBelow(fs, root, Real(fs, dir + [names[0]]).value, stack + {dir}, d, to, names[1..]);
      }
    }
  }

  /**
   If every entry exists, every link has a target within the root, and nothing is in the way at the
   destination, the copy does not fail, whatever cycles the links make.
   */
  lemma ResolvedIsCopied(fs: Fs, root: Option<Path>, dir: Path, stack: set<Path>, d: Dst, dstDir: Path)
    requires IsFs(fs) && AllResolve(fs, root) && forall q :: q in d ==> !Below(dstDir, q)
    ensures NoFailure(fs, root, dir, stack, d, dstDir, NamesIn(fs, dir))
  {
    hide FailsAt, AllResolve, IsFs, Below;
    forall names | |names| > 0 && names[0] in NamesIn(fs, dir)
      ensures !FailsAt(fs, root, dir, stack, d, dstDir, names)
    {
      NoneFailsBelow(fs, root, dir, stack, d, dstDir, names);
    }
  }

  // ----- what is copied, by the chain of directories that leads to it -----

  /** The entry `name` of directory `dir` leads to `at`: itself, or what the link resolves to. */
  predicate StepsTo(fs: Fs, dir: Path, name: string, at: Path) {
    && IsDir(fs, dir) && name in fs[dir].names && at in fs
    && if dir + [name] in fs && fs[dir + [name]].Link? then fs[dir + [name]].target == Some(at) else at == dir + [name]
  }

  /** From `dir`, the names lead through `chain`; no directory is entered twice, nor one of the stack. */
  predicate Chain(fs: Fs, dir: Path, stack: set<Path>, names: seq<string>, chain: seq<Path>)
    decreases |names|
  {
    && |chain| == |names|
    && (|names| == 0 ||
        (dir !in stack && StepsTo(fs, dir, names[0], chain[0])
         && Chain(fs, chain[0], stack + {dir}, names[1..], chain[1..])))
  }

  ghost predicate LeadsTo(fs: Fs, dir: Path, stack: set<Path>, names: seq<string>, at: Path) {
    exists chain :: |chain| > 0 && Chain(fs, dir, stack, names, chain) && chain[|chain| - 1] == at
  }

  /**
   Below the copy of `dir` there is a file, with the same data, exactly where such a chain leads to one,
   and a directory exactly where it leads to one.
   */
  lemma {:induction false} ExpectIff(fs: Fs, dir: Path, stack: set<Path>, names: seq<string>, o: Out)
    requires |names| > 0
    ensures Expect(fs, dir, stack, names) == Some(o) <==>
            exists at :: LeadsTo(fs, dir, stack, names, at) && at in fs
                         && (if o.OutFile? then fs[at] == File(o.data) else fs[at].Dir?)
    decreases |names|
  {
    var next := RealOf(fs, dir, names[0]);
    if Expect(fs, dir, stack, names) == Some(o) {
      var chain := ExpectedChain(fs, dir, stack, names, o);
      assert LeadsTo(fs, dir, stack, names, chain[|chain| - 1]);
    }
    if at :| LeadsTo(fs, dir, stack, names, at) && at in fs
              && (if o.OutFile? then fs[at] == File(o.data) else fs[at].Dir?) {
      var chain :| |chain| > 0 && Chain(fs, dir, stack, names, chain) && chain[|chain| - 1] == at;
      ChainIsExpected(fs, dir, stack, names, chain, o);
    }
  }

  lemma StepIsReal(fs: Fs, dir: Path, stack: set<Path>, name: string, at: Path)
    ensures dir !in stack && StepsTo(fs, dir, name, at) <==> Leads(fs, dir, stack, name, at)
    ensures Leads(fs, dir, stack, name, at) ==> RealOf(fs, dir, name) == at
  {
  }

  lemma {:induction false} ExpectedChain(fs: Fs, dir: Path, stack: set<Path>, names: seq<string>,
                                         o: Out) returns (chain: seq<Path>)
    requires |names| > 0 && Expect(fs, dir, stack, names) == Some(o)
    ensures |chain| > 0 && Chain(fs, dir, stack, names, chain)
    ensures var at := chain[|chain| - 1];
            at in fs && if o.OutFile? then fs[at] == File(o.data) else fs[at].Dir?
    decreases |names|
  {
    hide StepsTo, Leads, RealOf;
    var at := RealOf(fs, dir, names[0]);
    StepIsReal(fs, dir, stack, names[0], at);
    StepExists(fs, dir, names[0], at);
    if |names| == 1 {
      chain := [at];
      assert Chain(fs, at, stack + {dir}, names[1..], chain[1..]);
    } else {
      var rest := ExpectedChain(fs, at, stack + {dir}, names[1..], o);
      chain := [at] + rest;
      assert chain[1..] == rest;
    }
  }

  lemma StepExists(fs: Fs, dir: Path, name: string, at: Path)
    requires StepsTo(fs, dir, name, at)
    ensures at in fs
  {
  }

  lemma {:induction false} ChainIsExpected(fs: Fs, dir: Path, stack: set<Path>, names: seq<string>, chain: seq<Path>,
                                           o: Out)
    requires |names| > 0 && Chain(fs, dir, stack, names, chain) && chain[|chain| - 1] in fs
    requires if o.OutFile? then fs[chain[|chain| - 1]] == File(o.data) else fs[chain[|chain| - 1]].Dir?
    ensures Expect(fs, dir, stack, names) == Some(o)
    decreases |names|
  {
    hide StepsTo, Leads, RealOf;
    StepIsReal(fs, dir, stack, names[0], chain[0]);
    if |names| == 1 {
    } else {
      ChainIsExpected(fs, chain[0], stack + {dir}, names[1..], chain[1..], o);
      ChainIsDir(fs, chain[0], stack + {dir}, names[1..], chain[1..]);
    }
  }

  lemma ChainIsDir(fs: Fs, dir: Path, stack: set<Path>, names: seq<string>, chain: seq<Path>)
    requires |names| > 0 && Chain(fs, dir, stack, names, chain)
    ensures IsDir(fs, dir)
  {
  }

  // ----- what fails -----

  /** A missing entry, a link that does not resolve or leads to nothing, and one that leaves the root. */
  predicate Broken(fs: Fs, root: Option<Path>, p: Path) {
    if p in fs && fs[p].Link? then
      fs[p].target.None? || fs[p].target.value !in fs || (root.Some? && !(root.value <= fs[p].target.value))
    else p !in fs
  }

  lemma BrokenFails(fs: Fs, root: Option<Path>, dir: Path, name: string, there: Option<Out>)
    requires IsFs(fs) && Broken(fs, root, dir + [name])
    ensures EntryFails(fs, root, dir, name, there)
  {
    hide IsWithin;
    var p := dir + [name];
    if p in fs && fs[p].Link? && fs[p].target.Some? && root.Some? {
      TargetIsClean(fs, p);
      WithinIffPrefix(root.value, fs[p].target.value);
    }
  }

  /** From `dir`, the names lead into the directory `last`, and no directory is entered twice. */
  ghost predicate Arrives(fs: Fs, dir: Path, stack: set<Path>, names: seq<string>, last: Path)
    decreases |names|
  {
    && dir !in stack && IsDir(fs, dir)
    && if |names| == 0 then dir == last else exists next :: ArrivesBy(fs, dir, stack, names, next, last)
  }

  ghost predicate ArrivesBy(fs: Fs, dir: Path, stack: set<Path>, names: seq<string>, next: Path, last: Path)
    requires |names| > 0
    decreases |names|, 0
  {
    StepsTo(fs, dir, names[0], next) && Arrives(fs, next, stack + {dir}, names[1..], last)
  }

  /** The copy fails if it arrives at a directory with a broken entry. */
  lemma BrokenIsFailure(fs: Fs, root: Option<Path>, dir: Path, stack: set<Path>, d: Dst, dstDir: Path,
                        names: seq<string>, last: Path, name: string)
    requires IsFs(fs) && Arrives(fs, dir, stack, names, last) && IsDir(fs, last)
    requires name in fs[last].names && Broken(fs, root, last + [name])
    ensures !NoFailure(fs, root, dir, stack, d, dstDir, NamesIn(fs, dir))
  {
    var failing := FailingNames(fs, root, dir, stack, d, dstDir, names, last, name);
    assert failing[0] in NamesIn(fs, dir);
  }

  lemma {:induction false} FailingNames(fs: Fs, root: Option<Path>, dir: Path, stack: set<Path>, d: Dst, dstDir: Path,
                                        names: seq<string>, last: Path, name: string) returns (at: seq<string>)
    requires IsFs(fs) && Arrives(fs, dir, stack, names, last) && IsDir(fs, last)
    requires name in fs[last].names && Broken(fs, root, last + [name])
    ensures |at| > 0 && FailsAt(fs, root, dir, stack, d, dstDir, at)
    decreases |names|
  {
    hide IsFs, EntryFails, Broken;
    if |names| == 0 {
      at := [name];
      BrokenFails(fs, root, dir, name, Get(d, dstDir + [name]));
    } else if EntryFails(fs, root, dir, names[0], Get(d, dstDir + [names[0]])) {
      at := [names[0]];
    } else {
      var next :| ArrivesBy(fs, dir, stack, names, next, last);
      var rest := FailingNames(fs, root, next, stack + {dir}, d, dstDir + [names[0]], names[1..], last, name);
      at := [names[0]] + rest;
      assert at[1..] == rest;
    }
  }
}
