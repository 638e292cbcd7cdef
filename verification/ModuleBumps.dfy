/**
 The release planning of cmd/internal/compute_module_bumps.go: which modules have changed, and the
 growing worklist that adds every module whose go.mod a bump would rewrite.
 */
module ModuleBumps {
  import opened Prelude

  // ----- which module a changed file belongs to -----

  /** The file lies in the directory of the module. */
  predicate Contains(m: string, path: string) { HasPrefix(path, m + "/") }

  /** The file counts as a change of `m`: it is in `m` but in no other module nested in `m`. */
  predicate FileChanged(m: string, bumpables: seq<string>, path: string) {
    Contains(m, path) && forall b :: b in bumpables ==> !(Contains(b, path) && HasPrefix(b, m + "/"))
  }

  lemma ContainsPrefix(m: string, path: string)
    requires Contains(m, path)
    ensures |m| < |path| && path[..|m|] == m && path[|m|] == '/'
  {
  }

  /** A changed file counts for exactly the innermost of the modules that contain it. */
  lemma FileCountsForInnermost(m: string, bumpables: seq<string>, path: string)
    requires m in bumpables
    ensures FileChanged(m, bumpables, path) <==>
            Contains(m, path) && forall b :: b in bumpables && Contains(b, path) ==> |b| <= |m|
  {
  }

  /** No file counts for two modules. */
  lemma FileCountsOnce(a: string, b: string, bumpables: seq<string>, path: string)
    requires a in bumpables && b in bumpables
    requires FileChanged(a, bumpables, path) && FileChanged(b, bumpables, path)
    ensures a == b
  {
    FileCountsForInnermost(a, bumpables, path);
    FileCountsForInnermost(b, bumpables, path);
    ContainsPrefix(a, path);
    ContainsPrefix(b, path);
  }

  // ----- the worklist -----

  /** What a dry run of bumping one module in another's go.mod reports. */
  datatype DryRun = Rewrites | NoChange | DryRunError

  /** A file of a diff, before and after. */
  datatype FilePatch = FilePatch(from: Option<string>, to: Option<string>)

  /** What is known of a module since its latest tag. */
  datatype Diff = NeverTagged | DiffError | Files(files: seq<FilePatch>)

  /**
   The modules of the repository, what has changed since they were tagged, those for which a next
   version can be made, and the outcome of every dry run.
   */
  datatype Repo = Repo(
    taggables: seq<string>,
    tests: seq<string>,
    diff: string -> Diff,
    versioned: string -> bool,
    dryRun: (string, string) -> DryRun)

  function Bumpables(r: Repo): seq<string> { r.taggables + r.tests }

  predicate Touches(m: string, bumpables: seq<string>, p: FilePatch) {
    (p.from.Some? && FileChanged(m, bumpables, p.from.value)) || (p.to.Some? && FileChanged(m, bumpables, p.to.value))
  }

  /** The module is new, or some file that counts for it has changed. */
  predicate Changed(r: Repo, m: string) {
    || r.diff(m).NeverTagged?
    || (r.diff(m).Files? && exists k :: 0 <= k < |r.diff(m).files| && Touches(m, Bumpables(r), r.diff(m).files[k]))
  }

  /** A module counts as changed for a file that appears on either side of a patch. */
  lemma ChangedIff(r: Repo, m: string)
    ensures Changed(r, m) <==>
            || r.diff(m).NeverTagged?
            || (r.diff(m).Files? && exists k, path ::
                  && 0 <= k < |r.diff(m).files| && FileChanged(m, Bumpables(r), path)
                  && Some(path) in [r.diff(m).files[k].from, r.diff(m).files[k].to])
  {
    hide FileChanged;
    if r.diff(m).Files? {
      forall k | 0 <= k < |r.diff(m).files|
        ensures Touches(m, Bumpables(r), r.diff(m).files[k]) <==>
                exists path :: FileChanged(m, Bumpables(r), path)
                               && Some(path) in [r.diff(m).files[k].from, r.diff(m).files[k].to]
      {
        var p := r.diff(m).files[k];
        if Touches(m, Bumpables(r), p) {
          var path := if p.from.Some? && FileChanged(m, Bumpables(r), p.from.value) then p.from.value else p.to.value;
          assert FileChanged(m, Bumpables(r), path) && Some(path) in [p.from, p.to];
        }
      }
    }
  }

  predicate IsRepo(r: Repo) { Distinct(Bumpables(r)) }

  /** Bumping `m` rewrites the go.mod of `t`. */
  predicate Hits(r: Repo, m: string, t: string) { t != m && r.dryRun(m, t) == Rewrites }

  /** The first `n` bumpable modules that the bump of `m` rewrites. */
  function TargetsOf(r: Repo, m: string, n: nat): seq<string>
    requires n <= |Bumpables(r)|
  {
    if n == 0 then []
    else if Hits(r, m, Bumpables(r)[n - 1]) then TargetsOf(r, m, n - 1) + [Bumpables(r)[n - 1]]
    else TargetsOf(r, m, n - 1)
  }

  /** They are listed in order and once each, and are exactly those that differ from `m` and are rewritten. */
  lemma {:induction false} TargetsAre(r: Repo, m: string, n: nat) returns (at: seq<nat>)
    requires n <= |Bumpables(r)|
    ensures var ts := TargetsOf(r, m, n);
            && |at| == |ts| && (forall k :: 0 <= k < |at| ==> at[k] < n && ts[k] == Bumpables(r)[at[k]])
            && (forall k, l :: 0 <= k < l < |at| ==> at[k] < at[l])
            && (forall k :: 0 <= k < |ts| ==> ts[k] != m && r.dryRun(m, ts[k]) == Rewrites)
    ensures forall j :: 0 <= j < n && Bumpables(r)[j] != m && r.dryRun(m, Bumpables(r)[j]) == Rewrites ==>
              Bumpables(r)[j] in TargetsOf(r, m, n)
  {
    if n == 0 {
      at := [];
    } else {
      at := TargetsAre(r, m, n - 1);
      if |TargetsOf(r, m, n)| > |TargetsOf(r, m, n - 1)| {
        at := at + [n - 1];
      }
    }
  }

  /** `ts` holds the modules whose go.mod the bump of `m` rewrites, once each. */
  ghost predicate AreRewritten(r: Repo, m: string, ts: seq<string>) {
    Distinct(ts) && forall t :: t in ts <==> t in Bumpables(r) && t != m && r.dryRun(m, t) == Rewrites
  }

  lemma TargetsAreRewritten(r: Repo, m: string)
    requires IsRepo(r)
    ensures AreRewritten(r, m, TargetsOf(r, m, |Bumpables(r)|))
  {
    var at := TargetsAre(r, m, |Bumpables(r)|);
  }

  /** Holds every changed module, and every taggable module whose go.mod a bump of a member rewrites. */
  predicate Closed(r: Repo, s: set<string>) {
    && (forall m :: m in r.taggables && Changed(r, m) ==> m in s)
    && (forall m, t :: m in s && t in r.taggables && Hits(r, m, t) ==> t in s)
  }

  /** `m` has to be released: it is in every closed set. */
  ghost predicate Required(r: Repo, m: string) {
    forall s: set<string> :: Closed(r, s) ==> m in s
  }

  datatype Plan = Failed | Plan(modules: seq<string>, targets: seq<seq<string>>, mustBump: bool)

  /** What the finished rounds of the worklist have established. */
  ghost predicate Worked(r: Repo, modules: seq<string>, targets: seq<seq<string>>, i: nat) {
    && |targets| == |modules| && i <= |modules|
    && Distinct(modules)
    && (forall k :: 0 <= k < |modules| ==>
        modules[k] in r.taggables && r.versioned(modules[k]) && Required(r, modules[k]))
    && (forall m :: m in r.taggables && Changed(r, m) ==> m in modules)
    && (forall k :: 0 <= k < i ==> Round(r, modules, targets, k, |Bumpables(r)|))
    && (forall k :: i < k < |modules| ==> targets[k] == [])
  }

  /** Round `k` has looked at the first `n` bumpable modules. */
  ghost predicate Round(r: Repo, modules: seq<string>, targets: seq<seq<string>>, k: nat, n: nat)
    requires k < |modules| && |targets| == |modules| && n <= |Bumpables(r)|
  {
    && targets[k] == TargetsOf(r, modules[k], n)
    && forall j :: 0 <= j < n ==> Looked(r, modules, modules[k], Bumpables(r)[j])
  }

  /** The dry run of `m` against `t` went well, and `t` is on the list if it has to be. */
  predicate Looked(r: Repo, modules: seq<string>, m: string, t: string) {
    t != m ==> r.dryRun(m, t) != DryRunError && (Hits(r, m, t) && t in r.taggables ==> t in modules)
  }

  // ----- sizes -----

  /** Distinct members of a list are no more than the list is long; this bounds the worklist. */
  lemma {:induction false} NoMoreThan(a: seq<string>, b: seq<string>)
    requires Distinct(a) && forall k :: 0 <= k < |a| ==> a[k] in b
    ensures |a| <= |b|
  {
    MembersSize(a);
    MembersSize(b);
    assert Members(a) <= Members(b);
    SubsetSize(Members(a), Members(b));
  }

  // ----- requiredness -----

  lemma ChangedIsRequired(r: Repo, m: string)
    requires m in r.taggables && Changed(r, m)
    ensures Required(r, m)
  {
  }

  lemma HitIsRequired(r: Repo, m: string, t: string)
    requires Required(r, m) && t in r.taggables && Hits(r, m, t)
    ensures Required(r, t)
  {
  }

  /** When every round is done, the list is exactly what has to be released. */
  lemma FinishedIsRequired(r: Repo, modules: seq<string>, targets: seq<seq<string>>, m: string)
    requires Worked(r, modules, targets, |modules|)
    ensures Closed(r, Members(modules))
    ensures m in modules <==> Required(r, m)
  {
    forall a, t | a in Members(modules) && t in r.taggables && Hits(r, a, t) ensures t in Members(modules) {
      var k :| 0 <= k < |modules| && modules[k] == a;
      assert Round(r, modules, targets, k, |Bumpables(r)|);
      var j :| 0 <= j < |r.taggables| && r.taggables[j] == t;
      assert Bumpables(r)[j] == t && Looked(r, modules, a, Bumpables(r)[j]);
    }
    assert Required(r, m) ==> m in Members(modules);
  }

  /** A module that has to be released gets no version, or its dry run against `t` fails. */
  ghost predicate Fails(r: Repo, m: string, t: string) {
    && Required(r, m)
    && (!r.versioned(m) || (t in Bumpables(r) && t != m && r.dryRun(m, t) == DryRunError))
  }

  lemma FinishedDidNotFail(r: Repo, modules: seq<string>, targets: seq<seq<string>>)
    requires Worked(r, modules, targets, |modules|)
    ensures forall m, t :: !Fails(r, m, t)
  {
    forall m, t ensures !Fails(r, m, t) {
      FinishedIsRequired(r, modules, targets, m);
      if m in modules && t in Bumpables(r) {
        var k :| 0 <= k < |modules| && modules[k] == m;
        assert Round(r, modules, targets, k, |Bumpables(r)|);
        var j :| 0 <= j < |Bumpables(r)| && Bumpables(r)[j] == t;
        assert Looked(r, modules, modules[k], Bumpables(r)[j]);
      }
    }
  }

  // ----- the loops -----

  /** Does the file count as a change of `m`? */
  method IsFileChanged(m: string, bumpables: seq<string>, f: Option<string>) returns (b: bool)
    ensures b <==> f.Some? && FileChanged(m, bumpables, f.value)
  {
    if f.None? || !HasPrefix(f.value, m + "/") {
      return false;
    }
    for k := 0 to |bumpables|
      invariant forall j :: 0 <= j < k ==> !(Contains(bumpables[j], f.value) && HasPrefix(bumpables[j], m + "/"))
    {
      if HasPrefix(f.value, bumpables[k] + "/") && HasPrefix(bumpables[k], m + "/") {
        return false;
      }
    }
    return true;
  }

  method HasChanged(m: string, bumpables: seq<string>, files: seq<FilePatch>) returns (b: bool)
    ensures b <==> exists k :: 0 <= k < |files| && Touches(m, bumpables, files[k])
  {
    hide FileChanged;
    for k := 0 to |files|
      invariant forall j :: 0 <= j < k ==> !Touches(m, bumpables, files[j])
    {
      b := IsFileChanged(m, bumpables, files[k].from);
      if !b {
        b := IsFileChanged(m, bumpables, files[k].to);
      }
      if b {
        return true;
      }
    }
    return false;
  }

  /** What stops the planning before the worklist: a diff that cannot be made, or a changed module without version. */
  predicate SeedFails(r: Repo, m: string) { r.diff(m).DiffError? || (Changed(r, m) && !r.versioned(m)) }

  /** The modules that are new or have changed. */
  method Seeds(r: Repo) returns (modules: seq<string>, ok: bool)
    requires IsRepo(r)
    ensures ok <==> forall m :: m in r.taggables ==> !SeedFails(r, m)
    ensures ok ==> Distinct(modules)
    ensures ok ==> forall m :: m in modules <==> m in r.taggables && Changed(r, m)
  {
    hide Touches, FileChanged;
    modules, ok := [], true;
    for i := 0 to |r.taggables|
      invariant Distinct(modules)
      invariant forall m :: m in r.taggables[..i] ==> !SeedFails(r, m)
      invariant forall m :: m in modules <==> m in r.taggables[..i] && Changed(r, m)
    {
      var m := r.taggables[i];
      forall j | 0 <= j < i ensures r.taggables[j] != m { assert Bumpables(r)[j] != Bumpables(r)[i]; }
      var d := r.diff(m);
      if d.DiffError? {
        assert SeedFails(r, m);
        return modules, false;
      }
      var changed := true;
      if d.Files? {
        changed := HasChanged(m, Bumpables(r), d.files);
      }
      assert changed <==> Changed(r, m);
      if changed {
        if !r.versioned(m) {
          assert SeedFails(r, m);
          return modules, false;
        }
        modules := modules + [m];
      }
    }
  }

  method IsListed(modules: seq<string>, t: string) returns (b: bool)
    ensures b <==> t in modules
  {
    for k := 0 to |modules|
      invariant t !in modules[..k]
    {
      if modules[k] == t {
        return true;
      }
    }
    return false;
  }

  /** The list with one more module, for which no target is known yet. */
  lemma WorkedMore(r: Repo, modules: seq<string>, targets: seq<seq<string>>, i: nat, n: nat, t: string)
    requires Worked(r, modules, targets, i) && i < |modules| && n <= |Bumpables(r)| && Round(r, modules, targets, i, n)
    requires t in r.taggables && r.versioned(t) && Required(r, t) && t !in modules
    ensures Worked(r, modules + [t], targets + [[]], i) && Round(r, modules + [t], targets + [[]], i, n)
  {
    hide Required, TargetsOf, Hits;
    var ms, ts := modules + [t], targets + [[]];
    forall k | 0 <= k < i ensures Round(r, ms, ts, k, |Bumpables(r)|) {
      assert Round(r, modules, targets, k, |Bumpables(r)|);
    }
  }

  /** The list with another target for the current round. */
  lemma WorkedTarget(r: Repo, modules: seq<string>, targets: seq<seq<string>>, i: nat, ts: seq<string>)
    requires Worked(r, modules, targets, i) && i < |modules|
    ensures Worked(r, modules, targets[i := ts], i)
  {
    hide Required, TargetsOf, Looked;
    var after := targets[i := ts];
    forall k | 0 <= k < i ensures Round(r, modules, after, k, |Bumpables(r)|) {
      assert Round(r, modules, targets, k, |Bumpables(r)|);
    }
  }

  /** One round: the bump at `i` against every bumpable module. */
  method WorkRound(r: Repo, modules: seq<string>, targets: seq<seq<string>>, i: nat)
    returns (ms: seq<string>, ts: seq<seq<string>>, ok: bool)
    requires Worked(r, modules, targets, i) && i < |modules| && targets[i] == []
    ensures ok ==> Worked(r, ms, ts, i + 1) && |modules| <= |ms| && ms[i] == modules[i]
    ensures ok && i + 1 < |ms| ==> ts[i + 1] == []
    ensures ok ==> forall k :: 0 <= k < i ==> ts[k] == targets[k]
    ensures !ok ==> exists a, t :: Fails(r, a, t)
  {
    hide Required, Worked, Distinct;
    ms, ts, ok := modules, targets, true;
    var m := modules[i];
    assert Required(r, m) && |targets| == |modules| by { WorkedAt(r, modules, targets, i); }
    for n := 0 to |Bumpables(r)|
      invariant |ms| == |ts| && i < |modules| <= |ms| && ms[i] == m
      invariant Worked(r, ms, ts, i) && Round(r, ms, ts, i, n)
      invariant forall k :: 0 <= k < i ==> ts[k] == targets[k]
    {
      var t := Bumpables(r)[n];
      if t != m {
        var d := r.dryRun(m, t);
        if d == DryRunError {
          assert Fails(r, modules[i], t);
          ok := false;
          return;
        }
        if d == Rewrites {
          if t in r.taggables {
            var listed := IsListed(ms, t);
            if !listed {
              HitIsRequired(r, m, t);
              if !r.versioned(t) {
                assert Fails(r, t, m);
                ok := false;
                return;
              }
              WorkedMore(r, ms, ts, i, n, t);
              ms := ms + [t];
              ts := ts + [[]];
            }
          }
          WorkedTarget(r, ms, ts, i, ts[i] + [t]);
          ts := ts[i := ts[i] + [t]];
        }
      }
      assert Looked(r, ms, m, t);
    }
    assert Worked(r, ms, ts, i + 1) && (i + 1 < |ms| ==> ts[i + 1] == []) by { RoundDone(r, ms, ts, i); }
  }

  lemma WorkedAt(r: Repo, modules: seq<string>, targets: seq<seq<string>>, i: nat)
    requires Worked(r, modules, targets, i) && i < |modules|
    ensures Required(r, modules[i]) && |targets| == |modules|
  {
  }

  lemma RoundDone(r: Repo, modules: seq<string>, targets: seq<seq<string>>, i: nat)
    requires Worked(r, modules, targets, i) && i < |modules| && Round(r, modules, targets, i, |Bumpables(r)|)
    ensures Worked(r, modules, targets, i + 1) && (i + 1 < |modules| ==> targets[i + 1] == [])
  {
    hide Required;
  }

  lemma SeedsAreWorked(r: Repo, modules: seq<string>, targets: seq<seq<string>>)
    requires forall m :: m in r.taggables ==> !SeedFails(r, m)
    requires Distinct(modules) && forall m :: m in modules <==> m in r.taggables && Changed(r, m)
    requires |targets| == |modules| && forall k :: 0 <= k < |targets| ==> targets[k] == []
    ensures Worked(r, modules, targets, 0)
  {
    hide Required, Touches;
    forall k | 0 <= k < |modules|
      ensures modules[k] in r.taggables && r.versioned(modules[k]) && Required(r, modules[k])
    {
      assert modules[k] in modules && !SeedFails(r, modules[k]);
      ChangedIsRequired(r, modules[k]);
    }
  }

  /** The planning fails at a diff, at a version or at a dry run. */
  ghost predicate PlanningFails(r: Repo) {
    (exists m :: m in r.taggables && r.diff(m).DiffError?) || exists m, t :: Fails(r, m, t)
  }

  lemma SeedFailure(r: Repo, m: string)
    requires m in r.taggables && SeedFails(r, m)
    ensures PlanningFails(r)
  {
    if !r.diff(m).DiffError? {
      ChangedIsRequired(r, m);
      assert Fails(r, m, m);
    }
  }

  /**
   Plans a release.  The worklist ends with exactly the modules that have to be released, each once,
   with the go.mod files that each of their bumps rewrites; it fails exactly when a diff does, or
   one of them gets no version or has a dry run that fails.
   */
  method ComputeModuleBumps(r: Repo) returns (p: Plan)
    requires IsRepo(r)
    ensures p.Failed? <==> PlanningFails(r)
    ensures p.Plan? ==> Distinct(p.modules) && (forall m :: m in p.modules <==> Required(r, m))
    ensures p.Plan? ==> Closed(r, Members(p.modules))
    ensures p.Plan? ==> |p.targets| == |p.modules|
    ensures p.Plan? ==> forall k :: 0 <= k < |p.modules| ==> p.targets[k] == TargetsOf(r, p.modules[k], |Bumpables(r)|)
    ensures p.Plan? ==> forall k :: 0 <= k < |p.modules| ==> AreRewritten(r, p.modules[k], p.targets[k])
    ensures p.Plan? ==> (p.mustBump <==> exists k :: 0 <= k < |p.modules| && p.targets[k] != [])
  {
    var modules, seeded := Seeds(r);
    if !seeded {
      var m :| m in r.taggables && SeedFails(r, m);
      SeedFailure(r, m);
      return Failed;
    }
    var targets: seq<seq<string>> := seq(|modules|, _ => []);
    SeedsAreWorked(r, modules, targets);
    hide Required, Changed, SeedFails;
    var mustBump := false;
    var i := 0;
    while i < |modules|
      invariant Worked(r, modules, targets, i)
      invariant i < |modules| ==> targets[i] == []
      invariant mustBump <==> exists k :: 0 <= k < i && targets[k] != []
      decreases |r.taggables| - i
    {
      NoMoreThan(modules, r.taggables);
      var ms, ts, ok := WorkRound(r, modules, targets, i);
      if !ok {
        return Failed;
      }
      modules, targets := ms, ts;
      if |targets[i]| > 0 {
        mustBump := true;
      }
      i := i + 1;
    }
    forall m ensures m in modules <==> Required(r, m) { FinishedIsRequired(r, modules, targets, m); }
    FinishedIsRequired(r, modules, targets, "");
    FinishedDidNotFail(r, modules, targets);
    forall k | 0 <= k < |modules| ensures targets[k] == TargetsOf(r, modules[k], |Bumpables(r)|) {
      assert Round(r, modules, targets, k, |Bumpables(r)|);
    }
    forall k | 0 <= k < |modules| ensures AreRewritten(r, modules[k], targets[k]) {
      TargetsAreRewritten(r, modules[k]);
    }
    return Plan(modules, targets, mustBump);
  }
}
