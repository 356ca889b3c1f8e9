/** Several registries on one cluster: what validation protects, what it does not, and how
    registries stay out of each other's way. */
module Registries {
  import opened Collections
  import opened Model
  import opened Names
  import opened Planner
  import opened Validation
  import opened CredentialSource
  import opened Replication
  import opened Secrets
  import opened Attempts
  import opened Retries

  // ----------------------------------------- what the finite check protects

  /** Every key an Inclusive registry writes or deletes was absent or already its own in the
      snapshot, in every namespace the cluster may have. */
  lemma InclusiveWritesOnlyItsOwn(inputs: Inputs, s: Store, a: Attempt, t: Store)
    requires inputs.Selection().policy == INCLUSIVE && Reconciles(inputs, s, a, t) && a.Ran?
    ensures forall k :: k in a.puts || k in a.deletes ==> !Foreign(s, k, inputs.registry.name)
    ensures forall k :: k in s && Foreign(s, k, inputs.registry.name) ==> k in t && t[k] == s[k]
  {
    var c := CredentialsIn(inputs.registry.spec, s).value;
    var want, name := Want(inputs, c), inputs.registry.name;
    InclusiveTargetsAreSeen(inputs, c, s);
    assert forall k :: k in a.puts ==> k in ToSet(a.puts);
    assert forall k :: k in a.deletes ==> k in ToSet(a.deletes);
    RunProgress(want, name, s, a, t);
  }

  ghost predicate AlwaysSafe(inputs: Inputs, c: Credentials, key: Key) {
    forall s: Store :: Accepts(inputs.lib, inputs.registry, c, inputs.policy, s) ==>
      !Foreign(s, key, inputs.registry.name)
  }

  /** Exactly what acceptance protects. For a selected namespace the planned key is safe from
      being taken over in every accepted cluster if and only if the validator has seen the
      namespace: always for Inclusive, and for Exclusive only where an override names it. */
  lemma ExactlyMentionedTargetsAreSafe(inputs: Inputs, c: Credentials, s: Store, ns: string)
    requires Accepts(inputs.lib, inputs.registry, c, inputs.policy, s)
    requires NamespaceSelected(inputs.Selection(), inputs.policy.excluded, ns)
    ensures
      var base := BaseName(inputs.lib, inputs.Selection(), c.server).value;
      var safe := AlwaysSafe(inputs, c, Key(ns, NameFor(inputs.Selection(), base, ns)));
      && (inputs.Selection().policy == INCLUSIVE ==> safe)
      && (inputs.Selection().policy == EXCLUSIVE ==>
            (safe <==> exists o :: o in inputs.Selection().overrides && o.namespace == ns))
  {
    var selection, excluded := inputs.Selection(), inputs.policy.excluded;
    var base := BaseName(inputs.lib, selection, c.server).value;
    var key := Key(ns, NameFor(selection, base, ns));
    MentionedMeaning(selection, excluded, ns);
    if ns in Mentioned(selection, excluded) {
      assert key in Targets(selection, excluded, base, ToSet(Mentioned(selection, excluded)));
    } else {
      var intruder := s[key := Secret(Content(map[], "", map[]), NOTHING_ELSE)];
      assert Foreign(intruder, key, inputs.registry.name);
      UnseenKeyIsUnchecked(inputs, c, s, key, intruder);
    }
  }

  /** Acceptance does not depend on a key outside the validator's inventory. */
  lemma UnseenKeyIsUnchecked(inputs: Inputs, c: Credentials, s: Store, key: Key, t: Store)
    requires Accepts(inputs.lib, inputs.registry, c, inputs.policy, s)
    requires key.namespace !in Mentioned(inputs.Selection(), inputs.policy.excluded)
    requires forall k :: k != key ==> (k in s <==> k in t) && (k in s ==> t[k] == s[k])
    ensures Accepts(inputs.lib, inputs.registry, c, inputs.policy, t)
  {
    forall k: Key | k.namespace in Mentioned(inputs.Selection(), inputs.policy.excluded)
      ensures Foreign(t, k, inputs.registry.name) <==> Foreign(s, k, inputs.registry.name)
    {
    }
  }

  // -------------------------------------------------------- two registries

  /** Two different Inclusive registries on the same cluster, both ready, whose credentials
      come from Secrets neither of them owns. */
  ghost predicate Neighbours(p: Inputs, cp: Credentials, q: Inputs, cq: Credentials, s: Store) {
    && p.Selection().policy == INCLUSIVE && q.Selection().policy == INCLUSIVE
    && p.registry.name != q.registry.name && p.namespaces == q.namespaces
    && Ready(p, cp, s) && Ready(q, cq, s)
    && (p.registry.spec.credentialsRef.Some? ==> p.registry.spec.credentialsRef.value !in Owned(s, q.registry.name))
    && (q.registry.spec.credentialsRef.Some? ==> q.registry.spec.credentialsRef.value !in Owned(s, p.registry.name))
  }

  /** Part or all of the neighbour's work leaves a registry with other targets as it was: still
      ready, with exactly the same writes due. */
  lemma NeighbourIsUnaffected(p: Inputs, cp: Credentials, q: Inputs, cq: Credentials, s: Store, put: set<Key>,
                              gone: set<Key>)
    requires Neighbours(p, cp, q, cq, s) && Want(p, cp).Keys !! Want(q, cq).Keys
    requires put <= Want(p, cp).Keys && gone <= Owned(s, p.registry.name)
    ensures
      var t := Patch(s, Want(p, cp), put, gone);
      && Ready(q, cq, t)
      && Owned(t, q.registry.name) == Owned(s, q.registry.name)
      && Stale(t, Want(q, cq)) == Stale(s, Want(q, cq))
      && Obsolete(t, Want(q, cq), q.registry.name) == Obsolete(s, Want(q, cq), q.registry.name)
  {
    var t := Patch(s, Want(p, cp), put, gone);
    NeighbourStillAccepted(p, cp, q, cq, s, put, gone);
    SourceSurvives(p, cp, q, s, put, gone);
    OwnedIsNotWantedElsewhere(p, q, cq, s);
    PatchElsewhere(s, Want(p, cp), put, gone, Want(q, cq));
    ObsoleteFollowsOwned(s, t, Want(q, cq), q.registry.name);
  }

  /** What one registry owns is not planned by an Inclusive neighbour. */
  lemma OwnedIsNotWantedElsewhere(p: Inputs, q: Inputs, cq: Credentials, s: Store)
    requires q.Selection().policy == INCLUSIVE && Plannable(q, cq, s) && p.registry.name != q.registry.name
    ensures Owned(s, p.registry.name) !! Want(q, cq).Keys
  {
    InclusiveTargetsAreSeen(q, cq, s);
  }

  lemma NeighbourStillAccepted(p: Inputs, cp: Credentials, q: Inputs, cq: Credentials, s: Store, put: set<Key>,
                               gone: set<Key>)
    requires Neighbours(p, cp, q, cq, s) && Want(p, cp).Keys !! Want(q, cq).Keys
    requires put <= Want(p, cp).Keys && gone <= Owned(s, p.registry.name)
    ensures Plannable(q, cq, Patch(s, Want(p, cp), put, gone))
  {
    var t := Patch(s, Want(p, cp), put, gone);
    var seen := SeenTargets(q, cq);
    forall k | k in seen
      ensures !Foreign(t, k, q.registry.name)
    {
      assert k !in Want(p, cp) by {
        if k in Want(p, cp) {
          SeenInTheCluster(p, cp, q, cq, k);
        }
      }
    }
  }

  /** The keys the validator checks. */
  ghost function SeenTargets(q: Inputs, cq: Credentials): set<Key>
    requires Renders(q, cq)
  {
    var excluded := q.policy.excluded;
    Targets(q.Selection(), excluded, BaseName(q.lib, q.Selection(), cq.server).value,
            ToSet(Mentioned(q.Selection(), excluded)))
  }

  /** A key another registry plans is checked only if it is planned here as well. */
  lemma SeenInTheCluster(p: Inputs, cp: Credentials, q: Inputs, cq: Credentials, k: Key)
    requires Renders(p, cp) && Renders(q, cq) && p.namespaces == q.namespaces
    requires k in SeenTargets(q, cq) && k in Want(p, cp)
    ensures k in Want(q, cq)
  {
  }

  lemma SourceSurvives(p: Inputs, cp: Credentials, q: Inputs, s: Store, put: set<Key>, gone: set<Key>)
    requires p.Selection().policy == INCLUSIVE && Plannable(p, cp, s) && p.registry.name != q.registry.name
    requires put <= Want(p, cp).Keys && gone <= Owned(s, p.registry.name)
    requires CredentialsIn(q.registry.spec, s).Ok?
    requires q.registry.spec.credentialsRef.Some? ==> q.registry.spec.credentialsRef.value !in Owned(s, p.registry.name)
    ensures CredentialsIn(q.registry.spec, Patch(s, Want(p, cp), put, gone)) == CredentialsIn(q.registry.spec, s)
    ensures Owned(Patch(s, Want(p, cp), put, gone), q.registry.name) == Owned(s, q.registry.name)
  {
    InclusiveTargetsAreSeen(p, cp, s);
    var t := Patch(s, Want(p, cp), put, gone);
    forall k
      ensures k in Owned(t, q.registry.name) <==> k in Owned(s, q.registry.name)
    {
    }
  }

  /** Syncing two disjoint plans in either order gives the same store. */
  lemma SyncsCommute(s: Store, want: map<Key, Content>, name: string, want': map<Key, Content>, name': string)
    requires Claims(want, name) && Claims(want', name') && name != name' && want.Keys !! want'.Keys
    requires forall k :: k in want ==> !Foreign(s, k, name)
    requires forall k :: k in want' ==> !Foreign(s, k, name')
    ensures Synced(Synced(s, want, name), want', name') == Synced(Synced(s, want', name'), want, name)
  {
    var t, u := Synced(s, want, name), Synced(s, want', name');
    var a, b := Synced(t, want', name'), Synced(u, want, name);
    forall k
      ensures k in a <==> k in b
      ensures k in a ==> a[k] == b[k]
    {
      SyncedAt(s, want, name, k);
      SyncedAt(s, want', name', k);
      SyncedAt(t, want', name', k);
      SyncedAt(u, want, name, k);
    }
  }

  lemma SyncedAt(s: Store, want: map<Key, Content>, name: string, k: Key)
    ensures
      var t := Synced(s, want, name);
      if k in want then k in t && t[k] == Secret(want[k], Other(s, k))
      else if k in s && OwnedBy(s[k].content, name) then k !in t
      else (k in t <==> k in s) && (k in s ==> t[k] == s[k])
  {
  }

  /** With disjoint targets the two registries do not interfere: each is still ready after
      the other's success, and both orders of reconciling end in the same cluster. */
  lemma NonInterference(p: Inputs, cp: Credentials, q: Inputs, cq: Credentials, s: Store,
                        a: Attempt, t: Store, b: Attempt, u: Store, b': Attempt, t': Store, a': Attempt, u': Store)
    requires Neighbours(p, cp, q, cq, s) && Want(p, cp).Keys !! Want(q, cq).Keys
    requires Reconciles(p, s, a, t) && a.Succeeded() && Reconciles(q, t, b, u) && b.Succeeded()
    requires Reconciles(q, s, b', t') && b'.Succeeded() && Reconciles(p, t', a', u') && a'.Succeeded()
    ensures Ready(q, cq, t) && Ready(p, cp, t')
    ensures u == u'
  {
    OneAttempt(p, cp, s, a, t);
    OneAttempt(q, cq, s, b', t');
    NeighbourIsUnaffected(p, cp, q, cq, s, Stale(s, Want(p, cp)), Obsolete(s, Want(p, cp), p.registry.name));
    NeighbourIsUnaffected(q, cq, p, cp, s, Stale(s, Want(q, cq)), Obsolete(s, Want(q, cq), q.registry.name));
    OneAttempt(q, cq, t, b, u);
    OneAttempt(p, cp, t', a', u');
    InclusiveTargetsAreSeen(p, cp, s);
    InclusiveTargetsAreSeen(q, cq, s);
    SyncsCommute(s, Want(p, cp), p.registry.name, Want(q, cq), q.registry.name);
  }

  /** A planned key in foreign hands makes the validator reject. */
  lemma TakenKeyIsRejected(q: Inputs, cq: Credentials, s: Store, t: Store, key: Key)
    requires q.Selection().policy == INCLUSIVE && Plannable(q, cq, s) && key in Want(q, cq)
    requires Foreign(t, key, q.registry.name)
    ensures !Accepts(q.lib, q.registry, cq, q.policy, t)
  {
    InclusiveTargetsAreSeen(q, cq, s);
  }

  /** After the first registry's success a shared key is its own. */
  lemma FirstOwnsSharedKey(p: Inputs, cp: Credentials, q: Inputs, cq: Credentials, s: Store, key: Key, a: Attempt,
                           t: Store)
    requires Neighbours(p, cp, q, cq, s) && key in Want(p, cp) && key in Want(q, cq)
    requires Reconciles(p, s, a, t) && a.Succeeded()
    ensures key !in s
    ensures key in Owned(t, p.registry.name)
    ensures CredentialsIn(q.registry.spec, t) == Ok(cq)
  {
    InclusiveTargetsAreSeen(p, cp, s);
    InclusiveTargetsAreSeen(q, cq, s);
    UninterruptedAttempt(p, cp, s, a, t);
    SyncedAt(s, Want(p, cp), p.registry.name, key);
    SourceSurvives(p, cp, q, s, Stale(s, Want(p, cp)), Obsolete(s, Want(p, cp), p.registry.name));
  }

  /** A key both registries plan is absent; the first to succeed owns it, and from then on the
      second one fails before writing anything: in validation, once its reads succeed. */
  lemma SharedKeyGoesToTheFirst(p: Inputs, cp: Credentials, q: Inputs, cq: Credentials, s: Store, key: Key,
                                a: Attempt, t: Store, b: Attempt, u: Store)
    requires Neighbours(p, cp, q, cq, s) && key in Want(p, cp) && key in Want(q, cq)
    requires Reconciles(p, s, a, t) && a.Succeeded() && Reconciles(q, t, b, u)
    ensures key !in s
    ensures key in Owned(t, p.registry.name)
    ensures b.Stopped? && u == t && (b.stage == Reading || b.stage == Validating)
    ensures !Accepts(q.lib, q.registry, cq, q.policy, t)
  {
    FirstOwnsSharedKey(p, cp, q, cq, s, key, a, t);
    TakenKeyIsRejected(q, cq, s, t, key);
  }

  // ----------------------------------------------- ownership over whole runs

  /** One step of a run: a write of an attempt that read the state at `start`, or something
      that happens to the Secrets from outside. */
  datatype Transition = ByReconcile(inputs: Inputs, puts: seq<Key>, deletes: seq<Key>, start: nat) | FromOutside

  /** `t` is the state after the first `n` writes of an attempt of an Inclusive registry that
      read `s`. */
  ghost predicate Midway(inputs: Inputs, s: Store, puts: seq<Key>, deletes: seq<Key>, n: nat, t: Store) {
    var c := CredentialsIn(inputs.registry.spec, s);
    && inputs.Selection().policy == INCLUSIVE
    && c.Ok? && Plannable(inputs, c.value, s)
    && Due(s, Want(inputs, c.value), inputs.registry.name, puts, deletes)
    && n <= |puts| + |deletes|
    && t == After(s, Want(inputs, c.value), puts, deletes, n)
  }

  /** Every state an attempt passes through is such a state. */
  lemma AttemptsPassMidway(inputs: Inputs, s: Store, a: Attempt, t: Store, n: nat)
    requires inputs.Selection().policy == INCLUSIVE && Reconciles(inputs, s, a, t) && a.Ran? && n <= a.done
    ensures
      var c := CredentialsIn(inputs.registry.spec, s).value;
      Midway(inputs, s, a.puts, a.deletes, n, After(s, Want(inputs, c), a.puts, a.deletes, n))
    ensures Midway(inputs, s, a.puts, a.deletes, a.done, t)
  {
  }

  /** Nobody but the operator puts its two ownership labels on an existing Secret or moves
      them to another registry. Anything else may happen. */
  predicate LabelsLeftAlone(s: Store, t: Store) {
    forall k :: k in s && k in t && Managed(t[k].content) ==>
      Managed(s[k].content) && Owner(s[k].content) == Owner(t[k].content)
  }

  /** A run: attempts of Inclusive registries, each with its own inputs and stopping
      anywhere, one at a time, and outside changes between them. */
  ghost predicate IsRun(trace: seq<Store>, steps: seq<Transition>) {
    && |trace| == |steps| + 1
    && forall i :: 0 <= i < |steps| ==> StepAt(trace, steps, i)
  }

  ghost predicate StepAt(trace: seq<Store>, steps: seq<Transition>, i: nat)
    requires i < |steps| && |trace| == |steps| + 1
  {
    IsStep(trace, steps[i], i)
  }

  ghost predicate IsStep(trace: seq<Store>, step: Transition, i: nat)
    requires i + 1 < |trace|
  {
    match step
    case FromOutside => LabelsLeftAlone(trace[i], trace[i + 1])
    case ByReconcile(inputs, puts, deletes, start) =>
      && start <= i
      && i - start < |puts| + |deletes|
      && Midway(inputs, trace[start], puts, deletes, i - start, trace[i])
      && Midway(inputs, trace[start], puts, deletes, i - start + 1, trace[i + 1])
  }

  /** The next write goes to a key that, if it is there, is the owner's. */
  lemma NextKeyIsOwn(s: Store, want: map<Key, Content>, name: string, puts: seq<Key>, deletes: seq<Key>, n: nat)
    requires Claims(want, name) && Due(s, want, name, puts, deletes) && n < |puts| + |deletes|
    requires forall k :: k in want ==> !Foreign(s, k, name)
    ensures !Foreign(After(s, want, puts, deletes, n), NthKey(puts, deletes, n), name)
  {
    AfterIsPatch(s, want, puts, deletes, n);
    var key := NthKey(puts, deletes, n);
    assert n < |puts| ==> key in ToSet(puts);
    assert n >= |puts| ==> key in ToSet(deletes);
    NoKeyTurnsForeign(s, want, name, PutBy(puts, n), GoneBy(puts, deletes, n), key);
  }

  /** One write of an Inclusive registry: it changes no Secret that is unmanaged or another
      registry's, and hands no label over. */
  lemma WriteKeepsOwnership(inputs: Inputs, s: Store, puts: seq<Key>, deletes: seq<Key>, n: nat, t: Store, u: Store)
    requires n < |puts| + |deletes|
    requires Midway(inputs, s, puts, deletes, n, t) && Midway(inputs, s, puts, deletes, n + 1, u)
    ensures forall k :: k in t && !OwnedBy(t[k].content, inputs.registry.name) ==> k in u && u[k] == t[k]
    ensures LabelsLeftAlone(t, u)
  {
    var c := CredentialsIn(inputs.registry.spec, s).value;
    var want, name := Want(inputs, c), inputs.registry.name;
    InclusiveTargetsAreSeen(inputs, c, s);
    NextKeyIsOwn(s, want, name, puts, deletes, n);
    OwnWriteLeavesOthers(t, want, name, NthKey(puts, deletes, n));
  }

  lemma OwnWriteLeavesOthers(t: Store, want: map<Key, Content>, name: string, key: Key)
    requires Claims(want, name) && !Foreign(t, key, name)
    ensures
      var u := Apply(t, WriteFor(want, key));
      && (forall k :: k in t && !OwnedBy(t[k].content, name) ==> k in u && u[k] == t[k])
      && LabelsLeftAlone(t, u)
  {
  }

  /** While a key stays present, being managed at the end means having been managed all
      along, under the same owner. */
  lemma {:induction false} OwnerPersists(trace: seq<Store>, steps: seq<Transition>, i: nat, j: nat, key: Key)
    requires IsRun(trace, steps) && i <= j < |trace|
    requires forall m :: i <= m <= j ==> key in trace[m]
    requires Managed(trace[j][key].content)
    ensures Managed(trace[i][key].content) && Owner(trace[i][key].content) == Owner(trace[j][key].content)
    decreases j
  {
    if i < j {
      StepLeavesLabels(trace, steps, j - 1);
      OwnerPersists(trace, steps, i, j - 1, key);
    }
  }

  lemma StepLeavesLabels(trace: seq<Store>, steps: seq<Transition>, i: nat)
    requires IsRun(trace, steps) && i < |steps|
    ensures LabelsLeftAlone(trace[i], trace[i + 1])
  {
    assert StepAt(trace, steps, i);
    if steps[i].ByReconcile? {
      var start := steps[i].start;
      WriteKeepsOwnership(steps[i].inputs, trace[start], steps[i].puts, steps[i].deletes, i - start, trace[i],
                          trace[i + 1]);
    }
  }

  lemma UnmanagedIsUntouched(trace: seq<Store>, steps: seq<Transition>, i: nat, k: Key)
    requires IsRun(trace, steps) && i < |steps| && steps[i].ByReconcile?
    requires k in trace[i] && !Managed(trace[i][k].content)
    ensures k in trace[i + 1] && trace[i + 1][k] == trace[i][k]
  {
    assert StepAt(trace, steps, i);
    var start := steps[i].start;
    WriteKeepsOwnership(steps[i].inputs, trace[start], steps[i].puts, steps[i].deletes, i - start, trace[i],
                        trace[i + 1]);
  }

  /** Over a whole run with arbitrary failures: no reconcile step touches a Secret without
      the managed-by label, and a key that ends up managed for a registry it was not managed
      for before has been absent in between. */
  lemma OwnershipOverRuns(trace: seq<Store>, steps: seq<Transition>, k: Key)
    requires IsRun(trace, steps)
    ensures forall i :: 0 <= i < |steps| && steps[i].ByReconcile? && k in trace[i] && !Managed(trace[i][k].content) ==>
              k in trace[i + 1] && trace[i + 1][k] == trace[i][k]
    ensures forall i, j :: 0 <= i < j < |trace| && k in trace[i] && k in trace[j] && Managed(trace[j][k].content)
              && !OwnedBy(trace[i][k].content, Owner(trace[j][k].content))
              ==> exists m :: i < m < j && k !in trace[m]
  {
    forall i | 0 <= i < |steps| && steps[i].ByReconcile? && k in trace[i] && !Managed(trace[i][k].content)
      ensures k in trace[i + 1] && trace[i + 1][k] == trace[i][k]
    {
      UnmanagedIsUntouched(trace, steps, i, k);
    }
    forall i, j | 0 <= i < j < |trace| && k in trace[i] && k in trace[j] && Managed(trace[j][k].content)
                  && !OwnedBy(trace[i][k].content, Owner(trace[j][k].content))
      ensures exists m :: i < m < j && k !in trace[m]
    {
      if forall m :: i < m < j ==> k in trace[m] {
        OwnerPersists(trace, steps, i, j, k);
      }
    }
  }

  // ------------------------------------------------------ exclusion changes

  /** An Inclusive registry that validates under two exclusion lists plans the same under
      both, in the same order, for every namespace list: exclusions can block such a registry
      but never move or delete its replicas. */
  lemma InclusivePlanIgnoresExclusions(inputs: Inputs, q: Policy, c: Credentials, s: Store, t: Store)
    requires inputs.Selection().policy == INCLUSIVE
    requires Plannable(inputs, c, s) && Plannable(inputs.(policy := q), c, t)
    ensures PlannedKeys(inputs, c) == PlannedKeys(inputs.(policy := q), c)
    ensures Want(inputs, c) == Want(inputs.(policy := q), c)
  {
    var base := BaseName(inputs.lib, inputs.Selection(), c.server).value;
    PlansIgnoreExclusions(inputs.Selection(), inputs.policy.excluded, q.excluded, base, inputs.namespaces);
    assert TargetKeys(inputs, c) == TargetKeys(inputs.(policy := q), c);
  }

  lemma {:induction false} PlansIgnoreExclusions(selection: Selection, p: seq<string>, q: seq<string>, base: string,
                                                 namespaces: seq<string>)
    requires selection.policy == INCLUSIVE && RespectsExclusions(selection, p) && RespectsExclusions(selection, q)
    ensures Plans(selection, p, base, namespaces) == Plans(selection, q, base, namespaces)
  {
    if namespaces != [] {
      PlansIgnoreExclusions(selection, p, q, base, namespaces[..|namespaces| - 1]);
    }
  }

  /** What the next reconcile does to a synced registry when the exclusions change from
      `inputs.policy` to `q`: a replica survives if and only if its namespace is not in the new
      list. The documentation promises that none is deleted. */
  lemma ExclusionDeletesExactly(inputs: Inputs, q: Policy, c: Credentials, s: Store, b: Attempt, t: Store)
    requires CredentialsIn(inputs.registry.spec, s) == Ok(c) && Plannable(inputs, c, s)
    requires Owned(s, inputs.registry.name) == Want(inputs, c).Keys
    requires Reconciles(inputs.(policy := q), s, b, t) && b.Succeeded()
    ensures forall k :: k in Want(inputs, c) ==> (k in t <==> k.namespace !in q.excluded)
  {
    var want, after, name := Want(inputs, c), Want(inputs.(policy := q), c), inputs.registry.name;
    RunSuccess(after, name, s, b, t);
    forall k | k in want
      ensures k in t <==> k.namespace !in q.excluded
    {
      assert k in after <==> k.namespace !in q.excluded;
    }
  }

  /** A case of it: an Exclusive registry in sync, a namespace excluded afterwards, and the
      replica is gone after the next success. */
  lemma ExclusionDeletesAReplica() returns (inputs: Inputs, q: Policy, c: Credentials, s: Store, key: Key)
    ensures CredentialsIn(inputs.registry.spec, s) == Ok(c)
    ensures Plannable(inputs, c, s) && Plannable(inputs.(policy := q), c, s)
    ensures s.Keys == {key} && key in Want(inputs, c) && Owned(s, inputs.registry.name) == Want(inputs, c).Keys
    ensures Synced(s, Want(inputs.(policy := q), c), inputs.registry.name) == map[]
  {
    var lib := Library(_ => Some("ghcr"), text => text, _ => Some("{}"));
    c := Credentials("ghcr", "u", "p", "", "");
    var selection := Selection(EXCLUSIVE, [], "", []);
    inputs := Inputs(lib, Registry("r", Spec(Some(c), None, selection)), Policy([]), ["a"]);
    q := Policy(["a"]);
    NameOfGhcr(lib, c);
    key := Key("a", BaseName(lib, selection, "ghcr").value);
    OneNamespace(selection, key.name);
    s := map[key := Secret(BuildPullSecret("r", c, "{}"), NOTHING_ELSE)];
    InSyncUnderBoth(inputs, q, c, s, key);
  }

  lemma InSyncUnderBoth(inputs: Inputs, q: Policy, c: Credentials, s: Store, key: Key)
    requires ValidSelection(inputs.Selection()) && inputs.Selection().overrides == []
    requires inputs.Selection().policy == EXCLUSIVE
    requires NameResolves(inputs.lib, inputs.Selection(), c.server) && DockerConfigJSON(inputs.lib, c).Ok?
    requires inputs.registry.spec.credentials == Some(c) && inputs.registry.spec.credentialsRef.None?
    requires TargetKeys(inputs, c) == {key} && TargetKeys(inputs.(policy := q), c) == {}
    requires
      var base := BaseName(inputs.lib, inputs.Selection(), c.server).value;
      && Targets(inputs.Selection(), inputs.policy.excluded, base,
                 ToSet(Mentioned(inputs.Selection(), inputs.policy.excluded))) == {}
      && Targets(inputs.Selection(), q.excluded, base, ToSet(Mentioned(inputs.Selection(), q.excluded))) == {}
    requires s.Keys == {key} && OwnedBy(s[key].content, inputs.registry.name)
    ensures CredentialsIn(inputs.registry.spec, s) == Ok(c)
    ensures Plannable(inputs, c, s) && Plannable(inputs.(policy := q), c, s)
    ensures key in Want(inputs, c) && Owned(s, inputs.registry.name) == Want(inputs, c).Keys
    ensures Synced(s, Want(inputs.(policy := q), c), inputs.registry.name) == map[]
  {
    assert Owned(s, inputs.registry.name) == {key};
    assert Want(inputs.(policy := q), c) == map[];
  }

  lemma OneNamespace(selection: Selection, base: string)
    requires selection == Selection(EXCLUSIVE, [], "", [])
    ensures Targets(selection, [], base, ToSet(["a"])) == {Key("a", base)}
    ensures forall namespaces :: namespaces <= {"a"} ==> Targets(selection, ["a"], base, namespaces) == {}
    ensures ToSet(["a"]) == {"a"}
    ensures ToSet(Mentioned(selection, [])) == {} && ToSet(Mentioned(selection, ["a"])) == {"a"}
    ensures Targets(selection, [], base, {}) == {}
  {
    assert Mentioned(selection, []) == [] && Mentioned(selection, ["a"]) == ["a"];
    assert NamespaceSelected(selection, [], "a") && !NamespaceSelected(selection, ["a"], "a");
    assert forall ns :: ns in ToSet(["a"]) <==> ns == "a";
    assert NameFor(selection, base, "a") == base;
  }

  lemma NameOfGhcr(lib: Library, c: Credentials)
    requires forall url :: lib.hostname(url) == Some("ghcr")
    requires forall payload :: lib.marshal(payload).Some?
    requires c == Credentials("ghcr", "u", "p", "", "")
    ensures DefaultName(lib, "ghcr").Ok? && GoodName(DefaultName(lib, "ghcr").value)
    ensures DockerConfigJSON(lib, c).Ok?
  {
    HostGhcr(lib);
    LabelsAreFixedPoints("ghcr");
    DerivedNamesAreGood(lib, "ghcr");
  }

  lemma HostGhcr(lib: Library)
    requires forall url :: lib.hostname(url) == Some("ghcr")
    ensures NormalizeRegistryHost(lib, "ghcr") == Ok("ghcr")
  {
    assert TrimSpace("ghcr") == "ghcr";
    assert ToLower("ghcr") == "ghcr";
  }
}
