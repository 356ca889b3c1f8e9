/** What whole sequences of reconcile attempts of one registry achieve, however each of
    them was cut off. */
module Retries {
  import opened Collections
  import opened Model
  import opened Planner
  import opened Validation
  import opened CredentialSource
  import opened Replication
  import opened Secrets
  import opened Attempts

  /** A registry that plans from `s`, and whose credentials source it never writes: the
      source is neither planned nor owned. */
  ghost predicate Ready(inputs: Inputs, c: Credentials, s: Store) {
    && CredentialsIn(inputs.registry.spec, s) == Ok(c)
    && Plannable(inputs, c, s)
    && (inputs.registry.spec.credentialsRef.Some? ==>
          var source := inputs.registry.spec.credentialsRef.value;
          source !in Want(inputs, c) && source !in Owned(s, inputs.registry.name))
  }

  /** Acceptance survives any partial work. */
  lemma AcceptanceSurvives(inputs: Inputs, c: Credentials, s: Store, put: set<Key>, gone: set<Key>)
    requires Plannable(inputs, c, s) && put <= Want(inputs, c).Keys
    ensures Plannable(inputs, c, Patch(s, Want(inputs, c), put, gone))
  {
    var name := inputs.registry.name;
    var selection := inputs.Selection();
    var want := Want(inputs, c);
    var base := BaseName(inputs.lib, selection, c.server).value;
    var seen := Targets(selection, inputs.policy.excluded, base, ToSet(Mentioned(selection, inputs.policy.excluded)));
    forall k | k in seen
      ensures !Foreign(Patch(s, want, put, gone), k, name)
    {
      NoKeyTurnsForeign(s, want, name, put, gone, k);
    }
  }

  lemma ReadinessSurvives(inputs: Inputs, c: Credentials, s: Store, put: set<Key>, gone: set<Key>)
    requires Ready(inputs, c, s)
    requires put <= Want(inputs, c).Keys && gone <= Owned(s, inputs.registry.name)
    ensures Ready(inputs, c, Patch(s, Want(inputs, c), put, gone))
  {
    AcceptanceSurvives(inputs, c, s, put, gone);
  }

  /** One attempt, complete or not: the registry stays ready, the goal stays the same, and
      the work left drops by exactly the writes made. If no failing write took effect, the
      counters say which. */
  lemma OneAttempt(inputs: Inputs, c: Credentials, s: Store, a: Attempt, t: Store)
    requires Ready(inputs, c, s) && Reconciles(inputs, s, a, t)
    ensures Ready(inputs, c, t)
    ensures
      var want, name := Want(inputs, c), inputs.registry.name;
      && Synced(t, want, name) == Synced(s, want, name)
      && Work(t, want, name) + a.Done() == Work(s, want, name)
      && (a.Clean() ==> |Stale(t, want)| + a.Report().applied == |Stale(s, want)|
                        && |Obsolete(t, want, name)| + a.Report().deleted == |Obsolete(s, want, name)|)
      && (a.Succeeded() ==> t == Synced(s, want, name) && Work(t, want, name) == 0)
  {
    if a.Ran? {
      var want, name := Want(inputs, c), inputs.registry.name;
      RunProgress(want, name, s, a, t);
      ReadinessSurvives(inputs, c, s, PutBy(a.puts, a.done), GoneBy(a.puts, a.deletes, a.done));
      if a.Clean() {
        RunCounters(want, name, s, a, t);
      }
      if a.Succeeded() {
        RunSuccess(want, name, s, a, t);
      }
    }
  }

  // ---------------------------------------------------- crash and retry

  /** Attempts one after another, each reading what the previous one left. */
  ghost predicate History(inputs: Inputs, states: seq<Store>, attempts: seq<Attempt>) {
    && |states| == |attempts| + 1
    && forall i :: 0 <= i < |attempts| ==> Reconciles(inputs, states[i], attempts[i], states[i + 1])
  }

  /** Writes made and counters reported, summed; `clean` says that no failing write of any
      attempt took effect. */
  datatype Totals = Totals(done: nat, applied: nat, deleted: nat, clean: bool) {
    function Add(a: Attempt): Totals {
      Totals(done + a.Done(), applied + a.Report().applied, deleted + a.Report().deleted, clean && a.Clean())
    }
  }

  function Sum(attempts: seq<Attempt>): Totals {
    if attempts == [] then Totals(0, 0, 0, true) else Sum(attempts[..|attempts| - 1]).Add(attempts[|attempts| - 1])
  }

  /** The totals account for the way from `s` to `t`: the registry still validates, the
      state an uninterrupted attempt would reach is unchanged, and the writes made plus the
      work left are the work there was. With clean failures so are the counters. */
  ghost predicate Accounted(inputs: Inputs, c: Credentials, s: Store, sum: Totals, t: Store)
    requires Renders(inputs, c)
  {
    var want, name := Want(inputs, c), inputs.registry.name;
    && Ready(inputs, c, t)
    && Synced(t, want, name) == Synced(s, want, name)
    && Work(t, want, name) + sum.done == Work(s, want, name)
    && (sum.clean ==>
          && |Stale(t, want)| + sum.applied == |Stale(s, want)|
          && |Obsolete(t, want, name)| + sum.deleted == |Obsolete(s, want, name)|)
  }

  lemma AccountedNext(inputs: Inputs, c: Credentials, s: Store, sum: Totals, t: Store, a: Attempt, u: Store)
    requires Renders(inputs, c) && Accounted(inputs, c, s, sum, t) && Reconciles(inputs, t, a, u)
    ensures Accounted(inputs, c, s, sum.Add(a), u)
    ensures a.Succeeded() ==>
              && u == Synced(s, Want(inputs, c), inputs.registry.name)
              && Stale(u, Want(inputs, c)) == {} && Obsolete(u, Want(inputs, c), inputs.registry.name) == {}
  {
    OneAttempt(inputs, c, t, a, u);
  }

  lemma {:induction false} HistoryAccounted(inputs: Inputs, c: Credentials, states: seq<Store>, attempts: seq<Attempt>,
                                            n: nat)
    requires History(inputs, states, attempts) && Ready(inputs, c, states[0]) && n <= |attempts|
    ensures Accounted(inputs, c, states[0], Sum(attempts[..n]), states[n])
  {
    if n > 0 {
      HistoryAccounted(inputs, c, states, attempts, n - 1);
      AccountedNext(inputs, c, states[0], Sum(attempts[..n - 1]), states[n - 1], attempts[n - 1], states[n]);
      SumOfNext(attempts, n - 1);
    }
  }

  lemma SumOfNext(attempts: seq<Attempt>, n: nat)
    requires n < |attempts|
    ensures Sum(attempts[..n + 1]) == Sum(attempts[..n]).Add(attempts[n])
  {
    assert attempts[..n + 1][..n] == attempts[..n];
  }

  lemma SuccessReachesGoal(inputs: Inputs, c: Credentials, states: seq<Store>, attempts: seq<Attempt>, n: nat)
    requires History(inputs, states, attempts) && Ready(inputs, c, states[0])
    requires 0 < n <= |attempts| && attempts[n - 1].Succeeded()
    ensures states[n] == Synced(states[0], Want(inputs, c), inputs.registry.name)
    ensures Stale(states[n], Want(inputs, c)) == {} && Obsolete(states[n], Want(inputs, c), inputs.registry.name) == {}
  {
    HistoryAccounted(inputs, c, states, attempts, n - 1);
    AccountedNext(inputs, c, states[0], Sum(attempts[..n - 1]), states[n - 1], attempts[n - 1], states[n]);
  }

  lemma TotalsWhenDone(inputs: Inputs, c: Credentials, s: Store, sum: Totals, t: Store)
    requires Renders(inputs, c) && Accounted(inputs, c, s, sum, t)
    requires Stale(t, Want(inputs, c)) == {} && Obsolete(t, Want(inputs, c), inputs.registry.name) == {}
    ensures sum.done == Work(s, Want(inputs, c), inputs.registry.name)
    ensures sum.clean ==>
              sum.applied == |Stale(s, Want(inputs, c))|
              && sum.deleted == |Obsolete(s, Want(inputs, c), inputs.registry.name)|
  {
  }

  lemma UninterruptedAttempt(inputs: Inputs, c: Credentials, s: Store, a: Attempt, t: Store)
    requires CredentialsIn(inputs.registry.spec, s) == Ok(c) && Reconciles(inputs, s, a, t) && a.Succeeded()
    ensures
      var want, name := Want(inputs, c), inputs.registry.name;
      && t == Synced(s, want, name)
      && a.done == Work(s, want, name)
      && a.counts == Counts(|want|, |Stale(s, want)|, |Obsolete(s, want, name)|)
  {
    RunSuccess(Want(inputs, c), inputs.registry.name, s, a, t);
  }

  /** Crash and retry consistency. After any number of attempts, each cut off anywhere, the
      registry still validates, every write made has been progress towards the state one
      uninterrupted attempt would reach, and once an attempt succeeds the cluster is exactly
      in that state. With clean failures the counters summed over all attempts are then those
      of the uninterrupted attempt. */
  lemma CrashRetryConsistency(inputs: Inputs, c: Credentials, states: seq<Store>, attempts: seq<Attempt>, n: nat,
                              single: Attempt, goal: Store)
    requires History(inputs, states, attempts) && Ready(inputs, c, states[0]) && n <= |attempts|
    requires Reconciles(inputs, states[0], single, goal) && single.Succeeded()
    ensures Ready(inputs, c, states[n])
    ensures Work(states[n], Want(inputs, c), inputs.registry.name) + Sum(attempts[..n]).done == single.done
    ensures n > 0 && attempts[n - 1].Succeeded() ==> states[n] == goal && SameTotals(Sum(attempts[..n]), single)
  {
    UninterruptedAttempt(inputs, c, states[0], single, goal);
    HistoryAccounted(inputs, c, states, attempts, n);
    if n > 0 && attempts[n - 1].Succeeded() {
      SuccessReachesGoal(inputs, c, states, attempts, n);
      TotalsWhenDone(inputs, c, states[0], Sum(attempts[..n]), states[n]);
    }
  }

  predicate SameTotals(sum: Totals, single: Attempt) {
    && sum.done == single.Done()
    && (sum.clean ==> sum.applied == single.Report().applied && sum.deleted == single.Report().deleted)
  }

  /** For an Inclusive registry it is enough that the source does not carry its labels. */
  lemma InclusiveSourceIsSafe(inputs: Inputs, c: Credentials, s: Store)
    requires inputs.Selection().policy == INCLUSIVE
    requires CredentialsIn(inputs.registry.spec, s) == Ok(c) && Plannable(inputs, c, s)
    requires inputs.registry.spec.credentialsRef.Some? ==>
               inputs.registry.spec.credentialsRef.value !in Owned(s, inputs.registry.name)
    ensures Ready(inputs, c, s)
  {
    if inputs.registry.spec.credentialsRef.Some? {
      var source := inputs.registry.spec.credentialsRef.value;
      if source in Want(inputs, c) {
        InclusiveTargetsAreSeen(inputs, c, s);
        assert false;
      }
    }
  }

  /** The finite check is enough for Inclusive: whatever namespaces the cluster has, every
      planned key is one the validator has checked, so absent or already owned. */
  lemma InclusiveTargetsAreSeen(inputs: Inputs, c: Credentials, s: Store)
    requires inputs.Selection().policy == INCLUSIVE && Plannable(inputs, c, s)
    ensures
      var selection := inputs.Selection();
      var base := BaseName(inputs.lib, selection, c.server).value;
      TargetKeys(inputs, c) <= Targets(selection, inputs.policy.excluded, base,
                                       ToSet(Mentioned(selection, inputs.policy.excluded)))
    ensures forall k :: k in Want(inputs, c) ==> !Foreign(s, k, inputs.registry.name)
  {
    var selection := inputs.Selection();
    forall ns | NamespaceSelected(selection, inputs.policy.excluded, ns)
      ensures ns in ToSet(Mentioned(selection, inputs.policy.excluded))
    {
      MentionedMeaning(selection, inputs.policy.excluded, ns);
    }
  }

  // -------------------------------------- when the source is overwritten

  /** `Ready` asks no more than the code needs. After a success from a plannable state the
      registry's credentials resolve as before exactly when it was ready, that is, when its
      source was neither planned nor obsolete; otherwise they do not resolve at all. */
  lemma ReadyIsExact(inputs: Inputs, c: Credentials, s: Store, a: Attempt, t: Store)
    requires CredentialsIn(inputs.registry.spec, s) == Ok(c) && Reconciles(inputs, s, a, t) && a.Succeeded()
    ensures
      var ref, want := inputs.registry.spec.credentialsRef, Want(inputs, c);
      Ready(inputs, c, s) <==>
        ref.Some? ==> ref.value !in want && ref.value !in Obsolete(s, want, inputs.registry.name)
    ensures CredentialsIn(inputs.registry.spec, t) == Ok(c) <==> Ready(inputs, c, s)
    ensures CredentialsIn(inputs.registry.spec, t).Err? <==> !Ready(inputs, c, s)
  {
    UninterruptedAttempt(inputs, c, s, a, t);
    var ref, want := inputs.registry.spec.credentialsRef, Want(inputs, c);
    if ref.Some? {
      if ref.value in want {
        ReplicaIsNoSource(inputs.registry.name, c, DockerConfigJSON(inputs.lib, c).value, Other(s, ref.value));
        assert t[ref.value] == Secret(want[ref.value], Other(s, ref.value));
      }
    }
  }

  /** A replica holds none of the entries a source needs. */
  lemma ReplicaIsNoSource(name: string, c: Credentials, rendered: string, other: string)
    ensures CredentialsFromSecret(Secret(BuildPullSecret(name, c, rendered), other)).Err?
  {
    assert |"server"| < |DOCKER_CONFIG_KEY|;
    assert "server" !in BuildPullSecret(name, c, rendered).data;
  }

  /** And then the registry is stuck: as long as nobody else restores the source, no attempt
      plans anything again. */
  lemma OverwrittenSourceStopsTheRegistry(inputs: Inputs, c: Credentials, s: Store, a: Attempt, t: Store, b: Attempt,
                                          u: Store)
    requires CredentialsIn(inputs.registry.spec, s) == Ok(c) && Reconciles(inputs, s, a, t) && a.Succeeded()
    requires !Ready(inputs, c, s) && Reconciles(inputs, t, b, u)
    ensures b.Stopped? && b.stage == Reading && u == t
  {
    ReadyIsExact(inputs, c, s, a, t);
  }

  // --------------------------------------------------------- convergence

  /** After a successful attempt: exactly the planned Secrets are owned, with exactly the
      planned contents and everything else on updated Secrets preserved; the registry's other
      Secrets are gone; all other keys are as before; and the counters are the differences made. */
  lemma SuccessConverges(inputs: Inputs, c: Credentials, s: Store, a: Attempt, t: Store)
    requires CredentialsIn(inputs.registry.spec, s) == Ok(c) && Reconciles(inputs, s, a, t) && a.Succeeded()
    ensures
      var want, name := Want(inputs, c), inputs.registry.name;
      && Owned(t, name) == want.Keys
      && (forall k :: k in want ==> t[k] == Secret(want[k], Other(s, k)))
      && (forall k :: k in Owned(s, name) && k !in want ==> k !in t)
      && (forall k :: k !in want && k !in Owned(s, name) ==> (k in t <==> k in s) && (k in s ==> t[k] == s[k]))
      && a.counts == Counts(|want|, |Stale(s, want)|, |Obsolete(s, want, name)|)
  {
    var want, name := Want(inputs, c), inputs.registry.name;
    RunSuccess(want, name, s, a, t);
    Convergence(s, want, name);
  }

  /** At every moment of an attempt, one that is cut off included, a target namespace that
      had one of the registry's Secrets still has one, and no delete has happened unless
      every planned Secret is in place. */
  lemma AttemptMakesBeforeBreaking(inputs: Inputs, c: Credentials, s: Store, a: Attempt, t: Store, n: nat)
    requires CredentialsIn(inputs.registry.spec, s) == Ok(c) && Reconciles(inputs, s, a, t)
    requires a.Ran? && n <= a.done
    ensures
      var want, name := Want(inputs, c), inputs.registry.name;
      var moment := After(s, want, a.puts, a.deletes, n);
      && (forall k :: k in want && Served(s, name, k.namespace) ==> Served(moment, name, k.namespace))
      && ((exists k :: k in Owned(s, name) && k !in moment) ==> Stale(moment, want) == {})
  {
    MakeBeforeBreak(s, Want(inputs, c), inputs.registry.name, a.puts, a.deletes, n);
  }

  // --------------------------------------------------------- idempotence

  /** The stores differ at most in what the operator neither writes nor compares. */
  predicate SameContents(s: Store, t: Store) {
    && s.Keys == t.Keys
    && forall k :: k in s ==> s[k].content == t[k].content
  }

  lemma SameContentsSamePlan(inputs: Inputs, c: Credentials, s: Store, t: Store)
    requires SameContents(s, t) && Ready(inputs, c, s)
    ensures Ready(inputs, c, t)
    ensures Stale(t, Want(inputs, c)) == Stale(s, Want(inputs, c))
    ensures Obsolete(t, Want(inputs, c), inputs.registry.name) == Obsolete(s, Want(inputs, c), inputs.registry.name)
  {
    assert forall k, name :: Foreign(t, k, name) <==> Foreign(s, k, name);
    assert Owned(t, inputs.registry.name) == Owned(s, inputs.registry.name);
  }

  lemma NothingDueNothingDone(inputs: Inputs, c: Credentials, s: Store, b: Attempt, u: Store)
    requires Ready(inputs, c, s) && Reconciles(inputs, s, b, u)
    requires Stale(s, Want(inputs, c)) == {} && Obsolete(s, Want(inputs, c), inputs.registry.name) == {}
    ensures u == s
    ensures b.Stopped? ==> b.stage == Reading
    ensures b.Ran? ==> b == Ran([], [], 0, Counts(|Want(inputs, c)|, 0, 0), None)
  {
    if b.Ran? {
      RunOfNothing(Want(inputs, c), inputs.registry.name, s, b, u);
    }
  }

  lemma NothingDueAfterSuccess(inputs: Inputs, c: Credentials, s: Store, a: Attempt, t: Store)
    requires Ready(inputs, c, s) && Reconciles(inputs, s, a, t) && a.Succeeded()
    ensures Ready(inputs, c, t) && a.counts.desired == |Want(inputs, c)|
    ensures Stale(t, Want(inputs, c)) == {} && Obsolete(t, Want(inputs, c), inputs.registry.name) == {}
  {
    OneAttempt(inputs, c, s, a, t);
  }

  /** After a success with unchanged inputs validation still accepts, and the next attempt
      writes nothing and reports the same desired count, even if `other` was edited. */
  lemma Idempotence(inputs: Inputs, c: Credentials, s: Store, a: Attempt, t: Store, edited: Store, b: Attempt, u: Store)
    requires Ready(inputs, c, s) && Reconciles(inputs, s, a, t) && a.Succeeded()
    requires SameContents(t, edited) && Reconciles(inputs, edited, b, u)
    ensures Plannable(inputs, c, edited)
    ensures u == edited
    ensures b.Stopped? ==> b.stage == Reading
    ensures b.Ran? ==> b == Ran([], [], 0, Counts(a.counts.desired, 0, 0), None)
  {
    NothingDueAfterSuccess(inputs, c, s, a, t);
    SameContentsSamePlan(inputs, c, t, edited);
    NothingDueNothingDone(inputs, c, edited, b, u);
  }

  // ------------------------------------------------- credential rotation

  /** After a success with credentials `c`, a key planned both for `c` and for `d` is due again
      under `d` exactly when `d` logs in differently: the rendering is compared, and with an
      injective renderer that means server, user, password, email or auth entry. */
  lemma RotationReachesEveryTarget(inputs: Inputs, c: Credentials, d: Credentials, s: Store, a: Attempt, t: Store,
                                   k: Key)
    requires CredentialsIn(inputs.registry.spec, s) == Ok(c) && Reconciles(inputs, s, a, t) && a.Succeeded()
    requires Renders(inputs, d) && k in Want(inputs, c) && k in Want(inputs, d)
    ensures k in Stale(t, Want(inputs, d)) <==>
            c.server != d.server || DockerConfigJSON(inputs.lib, c) != DockerConfigJSON(inputs.lib, d)
    ensures Injective(inputs.lib) ==> (k in Stale(t, Want(inputs, d)) <==> !SameLogin(inputs.lib, c, d))
  {
    var x, y := DockerConfigJSON(inputs.lib, c), DockerConfigJSON(inputs.lib, d);
    SuccessConverges(inputs, c, s, a, t);
    ContentsTellCredentials(inputs.registry.name, c, x.value, d, y.value);
    if Injective(inputs.lib) {
      RenderingTellsLogin(inputs.lib, c, d);
    }
  }

  lemma ContentsTellCredentials(name: string, c: Credentials, rendered: string, d: Credentials, rendered': string)
    ensures BuildPullSecret(name, c, rendered) == BuildPullSecret(name, d, rendered') <==>
            c.server == d.server && rendered == rendered'
  {
    var a, b := BuildPullSecret(name, c, rendered), BuildPullSecret(name, d, rendered');
    assert a.labels[REGISTRY_SERVER_KEY] == c.server && b.labels[REGISTRY_SERVER_KEY] == d.server;
    assert a.data[DOCKER_CONFIG_KEY] == rendered && b.data[DOCKER_CONFIG_KEY] == rendered';
  }

  // ------------------------------------------------- order independence

  lemma SameWant(a: Inputs, b: Inputs, c: Credentials)
    requires b == a.(namespaces := b.namespaces) && multiset(a.namespaces) == multiset(b.namespaces)
    requires Renders(a, c)
    ensures Renders(b, c) && Want(b, c) == Want(a, c)
  {
    PermutationKeepsSet(a.namespaces, b.namespaces);
    assert TargetKeys(a, c) == TargetKeys(b, c);
  }

  /** Two successful attempts from the same store end in the same store with the same three
      counters, whatever order the namespaces are listed in and the maps are walked in. */
  lemma OrderIndependence(p: Inputs, q: Inputs, s: Store, a: Attempt, t: Store, b: Attempt, u: Store)
    requires q == p.(namespaces := q.namespaces) && multiset(p.namespaces) == multiset(q.namespaces)
    requires Reconciles(p, s, a, t) && a.Succeeded()
    requires Reconciles(q, s, b, u) && b.Succeeded()
    ensures t == u && a.counts == b.counts
  {
    var c := CredentialsIn(p.registry.spec, s).value;
    SameWant(p, q, c);
    var want, name := Want(p, c), p.registry.name;
    RunSuccess(want, name, s, a, t);
    RunSuccess(want, name, s, b, u);
  }

  // ------------------------------------------------------ attempts exist

  /** The relation is not empty: whenever a registry is plannable there are attempts that
      stop after any number of its writes, and one that succeeds. */
  lemma AttemptsExist(inputs: Inputs, c: Credentials, s: Store, puts: seq<Key>, deletes: seq<Key>, n: nat)
    requires CredentialsIn(inputs.registry.spec, s) == Ok(c) && Plannable(inputs, c, s)
    requires Due(s, Want(inputs, c), inputs.registry.name, puts, deletes) && n <= |puts| + |deletes|
    ensures exists a, t :: Reconciles(inputs, s, a, t) && a.Clean() && a.Done() == n
              && (n == |puts| + |deletes| ==> a.Succeeded())
  {
    var want := Want(inputs, c);
    RunsExist(want, inputs.registry.name, s, puts, deletes, n);
    assert Reconciles(inputs, s, CleanRun(|want|, puts, deletes, n), After(s, want, puts, deletes, n));
  }
}
