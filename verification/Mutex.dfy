/**
 The mutex of lockedfile/mutex.go: a lock on a file that all processes share, and inside it a lock of
 the Mutex value, of which every process has its own.  Tasks take the two and give them back one at a
 time, in any interleaving.
 */
module MutexProtocol {
  import opened Prelude

  /** Where a task is: outside, with the file lock alone, inside, or on its way out with the file lock. */
  datatype Stage = Out | HasFile | Inside | Leaving

  /** `home` says which Mutex value a task uses. */
  datatype State = State(home: nat -> nat, file: Option<nat>, inner: map<nat, nat>, stages: map<nat, Stage>)

  datatype Action = LockFile(t: nat) | LockInner(t: nat) | UnlockInner(t: nat) | CloseFile(t: nat)

  function StageOf(s: State, t: nat): Stage { if t in s.stages then s.stages[t] else Out }

  predicate Enabled(s: State, a: Action) {
    match a
    case LockFile(t) => StageOf(s, t) == Out && s.file == None
    case LockInner(t) => StageOf(s, t) == HasFile && s.home(t) !in s.inner
    case UnlockInner(t) => StageOf(s, t) == Inside
    case CloseFile(t) => StageOf(s, t) == Leaving
  }

  function Do(s: State, a: Action): State {
    match a
    case LockFile(t) => s.(file := Some(t), stages := s.stages[t := HasFile])
    case LockInner(t) => s.(inner := s.inner[s.home(t) := t], stages := s.stages[t := Inside])
    case UnlockInner(t) => s.(inner := s.inner - {s.home(t)}, stages := s.stages[t := Leaving])
    case CloseFile(t) => s.(file := None, stages := s.stages[t := Out])
  }

  /** Who is not outside holds the file lock, and an inner lock is held from inside only. */
  ghost predicate Inv(s: State) {
    && (forall t: nat :: StageOf(s, t) != Out <==> s.file == Some(t))
    && (forall t: nat :: StageOf(s, t) == Inside ==> s.home(t) in s.inner)
    && (forall m :: m in s.inner ==> StageOf(s, s.inner[m]) == Inside && s.home(s.inner[m]) == m)
  }

  lemma StepKeeps(s: State, a: Action)
    requires Inv(s) && Enabled(s, a)
    ensures Inv(Do(s, a))
  {
  }

  ghost predicate Run(states: seq<State>, actions: seq<Action>) {
    && |states| == |actions| + 1
    && states[0].file == None && states[0].inner == map[] && states[0].stages == map[]
    && forall k :: 0 <= k < |actions| ==> Enabled(states[k], actions[k]) && states[k + 1] == Do(states[k], actions[k])
  }

  lemma {:induction false} RunKeeps(states: seq<State>, actions: seq<Action>, n: nat)
    requires Run(states, actions) && n < |states|
    ensures Inv(states[n])
  {
    if n == 0 {
    } else {
      RunKeeps(states, actions, n - 1);
      var k := n - 1;
      assert Enabled(states[k], actions[k]) && states[k + 1] == Do(states[k], actions[k]);
      StepKeeps(states[k], actions[k]);
    }
  }

  /** No two tasks are between lock and unlock, whatever processes they belong to. */
  lemma MutualExclusion(states: seq<State>, actions: seq<Action>, n: nat, t: nat, u: nat)
    requires Run(states, actions) && n < |states|
    requires StageOf(states[n], t) != Out && StageOf(states[n], u) != Out
    ensures t == u
  {
    RunKeeps(states, actions, n);
    assert states[n].file == Some(t) && states[n].file == Some(u);
  }

  /** The action by which the task goes on. */
  function Onward(stage: Stage, t: nat): Action {
    match stage
    case Out => LockFile(t)
    case HasFile => LockInner(t)
    case Inside => UnlockInner(t)
    case Leaving => CloseFile(t)
  }

  /** Only the file lock is ever waited for: whoever has it can always go on, so no run gets stuck. */
  lemma NeverStuck(states: seq<State>, actions: seq<Action>, n: nat, t: nat)
    requires Run(states, actions) && n < |states|
    requires StageOf(states[n], t) != Out || states[n].file == None
    ensures Enabled(states[n], Onward(StageOf(states[n], t), t))
  {
    RunKeeps(states, actions, n);
    var s := states[n];
    if s.home(t) in s.inner { assert StageOf(s, s.inner[s.home(t)]) == Inside; }
  }
}
