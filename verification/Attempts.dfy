/** One reconcile attempt as a relation between the store it reads and the store it leaves:
    the specification the controller's loops are proved against. */
module Attempts {
  import opened Collections
  import opened Model
  import opened Validation
  import opened CredentialSource
  import opened Replication
  import opened Secrets

  datatype Counts = Counts(desired: nat, applied: nat, deleted: nat)

  /** Where an attempt that never wrote anything stopped. */
  datatype Stage = Reading | Validating | Rendering

  /** `done` counts the writes that took effect; `counts` is what the attempt reports. */
  datatype Attempt =
    | Stopped(stage: Stage, error: Error)
    | Ran(puts: seq<Key>, deletes: seq<Key>, done: nat, counts: Counts, failure: Option<Error>)
  {
    predicate Succeeded() {
      Ran? && failure.None?
    }

    function Done(): nat {
      if Ran? then done else 0
    }

    function Report(): Counts {
      if Ran? then counts else Counts(0, 0, 0)
    }

    function Failure(): Option<Error> {
      if Ran? then failure else Some(error)
    }

    /** No write took effect while reporting an error. */
    predicate Clean() {
      Ran? ==> done == counts.applied + counts.deleted
    }
  }

  /** The attempt carried out the first `done` of its writes, reported them all except
      possibly the last, and failed unless it got to the end. */
  ghost predicate Writes(want: map<Key, Content>, size: nat, s: Store, a: Attempt, t: Store)
    requires a.Ran?
  {
    var total := |a.puts| + |a.deletes|;
    var reported := a.counts.applied + a.counts.deleted;
    && reported <= a.done <= total && a.done <= reported + 1
    && t == After(s, want, a.puts, a.deletes, a.done)
    && a.counts == Counts(size, Least(reported, |a.puts|), reported - Least(reported, |a.puts|))
    && (a.failure.None? <==> reported == total)
    && (a.failure.Some? ==> !IsValidationError(a.failure.value))
  }

  /** An attempt planned from `s` with credentials `c`. */
  ghost predicate Runs(inputs: Inputs, c: Credentials, s: Store, a: Attempt, t: Store)
    requires a.Ran? && Renders(inputs, c)
  {
    RunsDue(Want(inputs, c), inputs.registry.name, s, a, t)
  }

  /** `a` is an attempt that reads `s` and leaves `t`. */
  ghost predicate Reconciles(inputs: Inputs, s: Store, a: Attempt, t: Store) {
    var c := CredentialsIn(inputs.registry.spec, s);
    match a
    case Stopped(stage, error) =>
      && t == s
      && (stage == Validating <==> IsValidationError(error))
      && (stage == Validating ==> c.Ok? && !Accepts(inputs.lib, inputs.registry, c.value, inputs.policy, s))
      && (stage == Rendering ==> c.Ok? && Accepts(inputs.lib, inputs.registry, c.value, inputs.policy, s)
                                 && !Plannable(inputs, c.value, s))
    case Ran(_, _, _, _, _) =>
      c.Ok? && Plannable(inputs, c.value, s) && Runs(inputs, c.value, s, a, t)
  }

  // ------------------------------------------- runs, inputs aside

  /** A run from `s` to `t` of the writes due in `s`. */
  ghost predicate RunsDue(want: map<Key, Content>, name: string, s: Store, a: Attempt, t: Store) {
    a.Ran? && Claims(want, name) && Due(s, want, name, a.puts, a.deletes) && Writes(want, |want|, s, a, t)
  }

  /** The work left drops by the writes made, and where it all leads stays the same. */
  lemma RunProgress(want: map<Key, Content>, name: string, s: Store, a: Attempt, t: Store)
    requires RunsDue(want, name, s, a, t)
    ensures PutBy(a.puts, a.done) <= Stale(s, want) && GoneBy(a.puts, a.deletes, a.done) <= Obsolete(s, want, name)
    ensures t == Patch(s, want, PutBy(a.puts, a.done), GoneBy(a.puts, a.deletes, a.done))
    ensures Synced(t, want, name) == Synced(s, want, name)
    ensures Work(t, want, name) + a.done == Work(s, want, name)
  {
    EachWriteIsProgress(s, want, name, a.puts, a.deletes, a.done);
  }

  /** Without writes that took effect unreported, the counters say what is no longer due. */
  lemma RunCounters(want: map<Key, Content>, name: string, s: Store, a: Attempt, t: Store)
    requires RunsDue(want, name, s, a, t) && a.Clean()
    ensures |Stale(t, want)| + a.counts.applied == |Stale(s, want)|
    ensures |Obsolete(t, want, name)| + a.counts.deleted == |Obsolete(s, want, name)|
  {
    EachWriteIsProgress(s, want, name, a.puts, a.deletes, a.done);
  }

  /** A run without failure reaches the goal, and its counters are the differences made. */
  lemma RunSuccess(want: map<Key, Content>, name: string, s: Store, a: Attempt, t: Store)
    requires RunsDue(want, name, s, a, t) && a.failure.None?
    ensures t == Synced(s, want, name)
    ensures a.counts == Counts(|want|, |Stale(s, want)|, |Obsolete(s, want, name)|)
    ensures a.Clean() && a.done == Work(s, want, name)
  {
    DueSizes(s, want, name, a.puts, a.deletes);
    AllWritesReachTheGoal(s, want, name, a.puts, a.deletes, a.done);
  }

  /** With nothing due a run does nothing and succeeds. */
  lemma RunOfNothing(want: map<Key, Content>, name: string, s: Store, a: Attempt, t: Store)
    requires RunsDue(want, name, s, a, t)
    requires Stale(s, want) == {} && Obsolete(s, want, name) == {}
    ensures a == Ran([], [], 0, Counts(|want|, 0, 0), None)
    ensures t == s
  {
    DueSizes(s, want, name, a.puts, a.deletes);
  }

  /** The attempt that fails cleanly after `n` writes, or succeeds when there are no more. */
  function CleanRun(size: nat, puts: seq<Key>, deletes: seq<Key>, n: nat): Attempt
    requires n <= |puts| + |deletes|
  {
    var counts := Counts(size, Least(n, |puts|), n - Least(n, |puts|));
    Ran(puts, deletes, n, counts, if n == |puts| + |deletes| then None else Some(Plain("API")))
  }

  /** A run can stop after any number of the writes due, and one gets to the end. */
  lemma RunsExist(want: map<Key, Content>, name: string, s: Store, puts: seq<Key>, deletes: seq<Key>, n: nat)
    requires Claims(want, name) && Due(s, want, name, puts, deletes) && n <= |puts| + |deletes|
    ensures RunsDue(want, name, s, CleanRun(|want|, puts, deletes, n), After(s, want, puts, deletes, n))
  {
  }
}
