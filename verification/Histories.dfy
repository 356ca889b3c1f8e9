/** Histories of whole attempts, expanded to the single writes that the ownership results are
    about. */
module Histories {
  import opened Collections
  import opened Model
  import opened CredentialSource
  import opened Replication
  import opened Secrets
  import opened Attempts
  import opened Registries

  /** What happens to the Secrets between two states: one attempt of an Inclusive registry,
      complete or cut off anywhere, or changes from outside. */
  datatype Episode = Attempting(inputs: Inputs, attempt: Attempt) | Outside {
    /** The number of single steps. */
    function Length(): nat {
      if Attempting? then attempt.Done() else 1
    }
  }

  ghost predicate Happens(s: Store, e: Episode, t: Store) {
    match e
    case Attempting(inputs, attempt) => inputs.Selection().policy == INCLUSIVE && Reconciles(inputs, s, attempt, t)
    case Outside => LabelsLeftAlone(s, t)
  }

  ghost predicate HappensAt(states: seq<Store>, episodes: seq<Episode>, i: nat)
    requires i < |episodes| && |states| == |episodes| + 1
  {
    Happens(states[i], episodes[i], states[i + 1])
  }

  ghost predicate IsHistory(states: seq<Store>, episodes: seq<Episode>) {
    && |states| == |episodes| + 1
    && forall i :: 0 <= i < |episodes| ==> HappensAt(states, episodes, i)
  }

  /** The contents an attempt reading `s` wants, if it plans at all. */
  ghost function WantIn(inputs: Inputs, s: Store): map<Key, Content> {
    var c := CredentialsIn(inputs.registry.spec, s);
    if c.Ok? && Renders(inputs, c.value) then Want(inputs, c.value) else map[]
  }

  /** The store after the first `n` steps of an episode from `s` to `t`. */
  ghost function Moment(s: Store, e: Episode, t: Store, n: nat): Store {
    match e
    case Outside => if n == 0 then s else t
    case Attempting(inputs, a) =>
      if a.Ran? && n <= |a.puts| + |a.deletes| then After(s, WantIn(inputs, s), a.puts, a.deletes, n) else s
  }

  /** Its steps, when it starts at the given position of a run. */
  function Steps(e: Episode, start: nat): (steps: seq<Transition>)
    ensures |steps| == e.Length()
  {
    match e
    case Outside => [FromOutside]
    case Attempting(inputs, a) =>
      if a.Ran? then seq(a.done, _ => ByReconcile(inputs, a.puts, a.deletes, start)) else []
  }

  /** A single step of an episode that has passed through the states of `path`. */
  ghost predicate PathStep(path: seq<Store>, e: Episode, m: nat)
    requires m + 1 < |path|
  {
    if e.Attempting? then
      && e.attempt.Ran? && m < |e.attempt.puts| + |e.attempt.deletes|
      && Midway(e.inputs, path[0], e.attempt.puts, e.attempt.deletes, m, path[m])
      && Midway(e.inputs, path[0], e.attempt.puts, e.attempt.deletes, m + 1, path[m + 1])
    else
      LabelsLeftAlone(path[m], path[m + 1])
  }

  /** All moments of an episode. */
  ghost function Path(s: Store, e: Episode, t: Store): (path: seq<Store>)
    ensures |path| == e.Length() + 1
    ensures forall n :: 0 <= n < |path| ==> path[n] == Moment(s, e, t, n)
  {
    seq(e.Length() + 1, n requires 0 <= n => Moment(s, e, t, n))
  }

  /** An attempt's path leads from its first state to its last. */
  lemma PathLeads(s: Store, e: Episode, t: Store)
    requires Happens(s, e, t)
    ensures Path(s, e, t)[0] == s && Path(s, e, t)[e.Length()] == t
  {
    if e.Attempting? && e.attempt.Ran? {
      AttemptsPassMidway(e.inputs, s, e.attempt, t, 0);
    }
  }

  lemma PathSteps(s: Store, e: Episode, t: Store, m: nat)
    requires Happens(s, e, t) && m < e.Length()
    ensures PathStep(Path(s, e, t), e, m)
  {
    PathLeads(s, e, t);
    if e.Attempting? {
      AttemptsPassMidway(e.inputs, s, e.attempt, t, m);
      AttemptsPassMidway(e.inputs, s, e.attempt, t, m + 1);
    }
  }

  /** Every state the first `n` episodes pass through. */
  ghost function Trace(states: seq<Store>, episodes: seq<Episode>, n: nat): (trace: seq<Store>)
    requires |states| == |episodes| + 1 && n <= |episodes|
    ensures trace != []
  {
    if n == 0 then [states[0]]
    else Trace(states, episodes, n - 1) + Path(states[n - 1], episodes[n - 1], states[n])[1..]
  }

  ghost function TraceSteps(states: seq<Store>, episodes: seq<Episode>, n: nat): (steps: seq<Transition>)
    requires |states| == |episodes| + 1 && n <= |episodes|
    ensures |steps| + 1 == |Trace(states, episodes, n)|
  {
    if n == 0 then []
    else
      var steps := TraceSteps(states, episodes, n - 1);
      steps + Steps(episodes[n - 1], |steps|)
  }

  /** A step of an episode is a step of any trace that passes through the episode's path. */
  lemma PathStepInTrace(trace: seq<Store>, path: seq<Store>, e: Episode, start: nat, m: nat)
    requires |path| == e.Length() + 1 && m < e.Length() && PathStep(path, e, m)
    requires |trace| > start + m + 1 && trace[start] == path[0]
    requires trace[start + m] == path[m] && trace[start + m + 1] == path[m + 1]
    ensures IsStep(trace, Steps(e, start)[m], start + m)
  {
  }

  lemma StepIsKept(trace: seq<Store>, longer: seq<Store>, step: Transition, i: nat)
    requires i + 1 < |trace| <= |longer| && forall j :: 0 <= j < |trace| ==> longer[j] == trace[j]
    requires IsStep(trace, step, i)
    ensures IsStep(longer, step, i)
  {
  }

  lemma OldStepsAreKept(trace: seq<Store>, steps: seq<Transition>, passed: seq<Store>, more: seq<Transition>, i: nat)
    requires IsRun(trace, steps) && |passed| == |more| && i < |steps|
    ensures StepAt(trace + passed, steps + more, i)
  {
    assert StepAt(trace, steps, i);
    StepIsKept(trace, trace + passed, steps[i], i);
  }

  lemma NewStepsFollow(trace: seq<Store>, steps: seq<Transition>, path: seq<Store>, e: Episode, m: nat)
    requires |trace| == |steps| + 1 && |path| == e.Length() + 1 && trace[|steps|] == path[0]
    requires m < e.Length() && PathStep(path, e, m)
    ensures StepAt(trace + path[1..], steps + Steps(e, |steps|), |steps| + m)
  {
    PathStepInTrace(trace + path[1..], path, e, |steps|, m);
  }

  /** One more episode extends a run. */
  lemma RunGrows(trace: seq<Store>, steps: seq<Transition>, path: seq<Store>, e: Episode)
    requires IsRun(trace, steps) && |path| == e.Length() + 1 && trace[|steps|] == path[0]
    requires forall m :: 0 <= m < e.Length() ==> PathStep(path, e, m)
    ensures IsRun(trace + path[1..], steps + Steps(e, |steps|))
    ensures (trace + path[1..])[|steps| + e.Length()] == path[e.Length()]
  {
    var longer, all := trace + path[1..], steps + Steps(e, |steps|);
    forall i | 0 <= i < |all|
      ensures StepAt(longer, all, i)
    {
      if i < |steps| {
        OldStepsAreKept(trace, steps, path[1..], Steps(e, |steps|), i);
      } else {
        NewStepsFollow(trace, steps, path, e, i - |steps|);
      }
    }
  }

  lemma EpisodeExtends(s: Store, e: Episode, t: Store, trace: seq<Store>, steps: seq<Transition>)
    requires IsRun(trace, steps) && trace[|steps|] == s && Happens(s, e, t)
    ensures IsRun(trace + Path(s, e, t)[1..], steps + Steps(e, |steps|))
    ensures (trace + Path(s, e, t)[1..])[|steps| + e.Length()] == t
  {
    PathLeads(s, e, t);
    forall m | 0 <= m < e.Length()
      ensures PathStep(Path(s, e, t), e, m)
    {
      PathSteps(s, e, t, m);
    }
    RunGrows(trace, steps, Path(s, e, t), e);
  }

  /** Every history of attempts and outside changes expands to a run through its states. */
  lemma {:induction false} HistoryIsARun(states: seq<Store>, episodes: seq<Episode>, n: nat)
    requires IsHistory(states, episodes) && n <= |episodes|
    ensures IsRun(Trace(states, episodes, n), TraceSteps(states, episodes, n))
    ensures Trace(states, episodes, n)[|TraceSteps(states, episodes, n)|] == states[n]
  {
    if n > 0 {
      HistoryIsARun(states, episodes, n - 1);
      assert HappensAt(states, episodes, n - 1);
      EpisodeExtends(states[n - 1], episodes[n - 1], states[n], Trace(states, episodes, n - 1),
                     TraceSteps(states, episodes, n - 1));
    }
  }

  lemma {:induction false} TraceGrows(states: seq<Store>, episodes: seq<Episode>, m: nat, n: nat)
    requires |states| == |episodes| + 1 && m <= n <= |episodes|
    ensures Trace(states, episodes, m) <= Trace(states, episodes, n)
  {
    if m < n {
      TraceGrows(states, episodes, m, n - 1);
    }
  }

  /** Over any history of Inclusive registries with any failures, a key that ends up managed for a
      registry it was not managed for before has been absent at some moment in between, be it in
      the middle of an attempt. */
  lemma OwnershipOverHistories(states: seq<Store>, episodes: seq<Episode>, i: nat, j: nat, k: Key) returns (m: nat)
    requires IsHistory(states, episodes) && i <= j <= |episodes|
    requires k in states[i] && k in states[j] && Managed(states[j][k].content)
    requires !OwnedBy(states[i][k].content, Owner(states[j][k].content))
    ensures |TraceSteps(states, episodes, i)| < m < |TraceSteps(states, episodes, j)|
    ensures k !in Trace(states, episodes, j)[m]
  {
    var trace, steps := Trace(states, episodes, j), TraceSteps(states, episodes, j);
    var start := |TraceSteps(states, episodes, i)|;
    HistoryIsARun(states, episodes, i);
    HistoryIsARun(states, episodes, j);
    TraceGrows(states, episodes, i, j);
    assert trace[start] == states[i] && trace[|steps|] == states[j];
    m := AbsenceBetween(trace, steps, start, k);
  }

  lemma AbsenceBetween(trace: seq<Store>, steps: seq<Transition>, start: nat, k: Key) returns (m: nat)
    requires IsRun(trace, steps) && start <= |steps|
    requires k in trace[start] && k in trace[|steps|] && Managed(trace[|steps|][k].content)
    requires !OwnedBy(trace[start][k].content, Owner(trace[|steps|][k].content))
    ensures start < m < |steps| && k !in trace[m]
  {
    OwnershipOverRuns(trace, steps, k);
    m :| start < m < |steps| && k !in trace[m];
  }
}
