/** The registry reconciler, issuing one API call at a time against a cluster in which any
    call may fail, before or after taking effect. */
module Controller {
  import opened Collections
  import opened Model
  import opened Validation
  import opened CredentialSource
  import opened Replication
  import opened Secrets
  import opened Attempts
  import opened Promises
  import opened Delivery

  datatype Fault = Succeeds | Fails | FailsAfterEffect

  datatype Deletion = Deleted | NotFound | Failed

  datatype Status = Status(counts: Counts, ready: bool, reason: string)

  const REASON_SYNCED := "Synced"
  const REASON_SYNC_FAILED := "SyncFailed"
  const REASON_VALIDATION_FAILED := "ValidationFailed"

  /** The status a reconcile records. */
  function StatusOf(counts: Counts, failure: Option<Error>): Status {
    match failure
    case None => Status(counts, true, REASON_SYNCED)
    case Some(e) => Status(counts, false, if IsValidationError(e) then REASON_VALIDATION_FAILED else REASON_SYNC_FAILED)
  }

  /** The status an attempt deserves. */
  function StatusFor(a: Attempt): Status {
    StatusOf(a.Report(), a.Failure())
  }

  /** `errors.Join`. */
  function JoinErrors(first: Option<Error>, second: Option<Error>): (joined: Option<Error>)
    ensures joined.None? <==> first.None? && second.None?
    ensures joined.Some? ==>
              (IsValidationError(joined.value) <==>
                 (first.Some? && IsValidationError(first.value)) || (second.Some? && IsValidationError(second.value)))
  {
    if first.None? then second
    else if second.None? then first
    else Some(Joined(first.value, second.value))
  }

  /** The API server's state. `faults` decides the fate of every call; `writes` records the
      Secret writes that took effect, `failures` counts the failed calls, `lost` the status
      writes among them that had no effect. */
  class Cluster {
    var secrets: Store
    var namespaces: seq<string>
    var policy: Option<Policy>
    var registries: map<string, Registry>
    var statuses: map<string, Status>
    var calls: nat
    const faults: nat -> Fault
    ghost var writes: seq<Write>
    ghost var failures: nat
    ghost var lost: nat

    constructor (secrets: Store, namespaces: seq<string>, policy: Option<Policy>, registries: map<string, Registry>,
                 faults: nat -> Fault)
      ensures this.secrets == secrets && this.namespaces == namespaces && this.policy == policy
      ensures this.registries == registries && this.faults == faults
      ensures statuses == map[] && calls == 0 && writes == [] && failures == 0 && lost == 0
    {
      this.secrets, this.namespaces, this.policy, this.registries := secrets, namespaces, policy, registries;
      this.faults, statuses, calls, writes, failures, lost := faults, map[], 0, [], 0, 0;
    }

    /** The number of failed calls after the given call, from the number before it. */
    ghost function Tally(before: nat, call: nat): nat {
      if faults(call) == Succeeds then before else before + 1
    }

    /** No call in the range takes effect while failing. */
    ghost predicate Clean(from: nat, to: nat) {
      forall i: nat :: from <= i < to ==> faults(i) != FailsAfterEffect
    }

    /** Registries are stored under their names. */
    predicate WellNamed()
      reads this
    {
      forall n :: n in registries ==> registries[n].name == n
    }

    method Call() returns (fault: Fault)
      modifies `calls, `failures
      ensures calls == old(calls) + 1 && fault == faults(old(calls))
      ensures failures == Tally(old(failures), old(calls))
    {
      fault := faults(calls);
      failures := Tally(failures, calls);
      calls := calls + 1;
    }

    /** Any read: whether it failed. */
    method Read() returns (failed: bool)
      modifies `calls, `failures
      ensures calls == old(calls) + 1 && failures == Tally(old(failures), old(calls))
      ensures failed <==> faults(old(calls)) != Succeeds
    {
      var fault := Call();
      failed := fault != Succeeds;
    }

    /** A list response: every Secret once, in an unspecified order. */
    method ListSecrets() returns (failed: bool, items: seq<(Key, Secret)>)
      modifies `calls, `failures
      ensures calls == old(calls) + 1 && failures == Tally(old(failures), old(calls))
      ensures failed <==> faults(old(calls)) != Succeeds
      ensures forall k, secret :: (k, secret) in items <==> k in secrets && secrets[k] == secret
    {
      failed := Read();
      items := [];
      var left := secrets.Keys;
      while left != {}
        invariant left <= secrets.Keys
        invariant forall k, secret :: (k, secret) in items <==> k in secrets && k !in left && secrets[k] == secret
        decreases left
      {
        var k :| k in left;
        items := items + [(k, secrets[k])];
        left := left - {k};
      }
    }

    method Create(key: Key, content: Content) returns (failed: bool)
      modifies `calls, `failures, `secrets, `writes
      ensures calls == old(calls) + 1 && failures == Tally(old(failures), old(calls))
      ensures failed <==> faults(old(calls)) != Succeeds || key in old(secrets)
      ensures if faults(old(calls)) == Fails || key in old(secrets)
              then secrets == old(secrets) && writes == old(writes)
              else secrets == old(secrets)[key := Secret(content, NOTHING_ELSE)]
                   && writes == old(writes) + [Put(key, content)]
    {
      var fault := Call();
      failed := fault != Succeeds || key in secrets;
      if fault != Fails && key !in secrets {
        secrets := secrets[key := Secret(content, NOTHING_ELSE)];
        writes := writes + [Put(key, content)];
      }
    }

    method Update(key: Key, secret: Secret) returns (failed: bool)
      modifies `calls, `failures, `secrets, `writes
      ensures calls == old(calls) + 1 && failures == Tally(old(failures), old(calls))
      ensures failed <==> faults(old(calls)) != Succeeds || key !in old(secrets)
      ensures if faults(old(calls)) == Fails || key !in old(secrets)
              then secrets == old(secrets) && writes == old(writes)
              else secrets == old(secrets)[key := secret] && writes == old(writes) + [Put(key, secret.content)]
    {
      var fault := Call();
      failed := fault != Succeeds || key !in secrets;
      if fault != Fails && key in secrets {
        secrets := secrets[key := secret];
        writes := writes + [Put(key, secret.content)];
      }
    }

    method Remove(key: Key) returns (outcome: Deletion)
      modifies `calls, `failures, `secrets, `writes
      ensures calls == old(calls) + 1 && failures == Tally(old(failures), old(calls))
      ensures outcome == if faults(old(calls)) != Succeeds then Failed
                         else if key in old(secrets) then Deleted else NotFound
      ensures if faults(old(calls)) == Fails || key !in old(secrets)
              then secrets == old(secrets) && writes == old(writes)
              else secrets == old(secrets) - {key} && writes == old(writes) + [Delete(key)]
    {
      var fault := Call();
      outcome := if fault != Succeeds then Failed else if key in secrets then Deleted else NotFound;
      if fault != Fails && key in secrets {
        secrets := secrets - {key};
        writes := writes + [Delete(key)];
      }
    }

    method WriteStatus(name: string, status: Status) returns (failed: bool)
      modifies `calls, `failures, `statuses, `lost
      ensures calls == old(calls) + 1 && failures == Tally(old(failures), old(calls))
      ensures failed <==> faults(old(calls)) != Succeeds
      ensures lost == old(lost) + if faults(old(calls)) == Fails then 1 else 0
      ensures statuses == if lost > old(lost) then old(statuses) else old(statuses)[name := status]
    {
      var fault := Call();
      failed := fault != Succeeds;
      if fault == Fails {
        lost := lost + 1;
      } else {
        statuses := statuses[name := status];
      }
    }
  }

  /** The keys of the entries flagged for apply, in order. */
  function ToApply(desired: seq<DesiredSecret>): seq<Key> {
    if desired == [] then []
    else
      var last := desired[|desired| - 1];
      ToApply(desired[..|desired| - 1]) + if last.needsApply then [last.key] else []
  }

  lemma {:induction false} ToApplyPrefix(desired: seq<DesiredSecret>, i: nat)
    requires i < |desired|
    ensures |ToApply(desired[..i])| <= |ToApply(desired[..i + 1])| <= |ToApply(desired)|
    ensures ToApply(desired[..i + 1]) == ToApply(desired[..i]) + if desired[i].needsApply then [desired[i].key] else []
    ensures ToApply(desired[..i + 1]) <= ToApply(desired)
    decreases |desired| - i
  {
    assert desired[..i + 1][..i] == desired[..i];
    if i + 1 == |desired| {
      assert desired[..i + 1] == desired;
    } else {
      ToApplyPrefix(desired, i + 1);
    }
  }

  predicate AsWanted(desired: seq<DesiredSecret>, want: map<Key, Content>) {
    forall i :: 0 <= i < |desired| ==> desired[i].key in want && desired[i].content == want[desired[i].key]
  }

  /** The Secrets about to be deleted are still there after the apply loop. */
  lemma ObsoleteRemain(s: Store, want: map<Key, Content>, name: string, puts: seq<Key>, deletes: seq<Key>)
    requires Due(s, want, name, puts, deletes)
    ensures forall k :: k in deletes ==> k !in want && k in After(s, want, puts, deletes, |puts|)
  {
    AfterIsPatch(s, want, puts, deletes, |puts|);
    KeysByAll(puts, deletes, |puts|);
    forall k | k in deletes
      ensures k !in want && k in After(s, want, puts, deletes, |puts|)
    {
      assert k in ToSet(deletes);
    }
  }

  /** The writes themselves, as the cluster logs them. */
  function WritesOf(want: map<Key, Content>, puts: seq<Key>, deletes: seq<Key>, n: nat): seq<Write>
    requires n <= |puts| + |deletes|
  {
    if n == 0 then [] else WritesOf(want, puts, deletes, n - 1) + [WriteFor(want, NthKey(puts, deletes, n - 1))]
  }

  lemma DesiredKeys(desired: seq<DesiredSecret>, planned: seq<Key>, want: map<Key, Content>, s: Store)
    requires Describes(desired, planned, want, s) && NoDup(planned) && ToSet(planned) == want.Keys
    ensures KeysOf(desired) == want.Keys
    ensures AsWanted(desired, want)
    ensures |desired| == |want|
  {
    NoDupIffCardinality(planned);
    assert |want| == |want.Keys|;
    forall k
      ensures k in want <==> k in KeysOf(desired)
    {
      assert k in want <==> k in ToSet(planned);
      if k in want {
        var i :| 0 <= i < |planned| && planned[i] == k;
        assert desired[i].key == k;
      }
    }
  }

  /** The keys flagged for apply are the stale planned ones, none twice. */
  lemma {:induction false} ToApplyListsStale(desired: seq<DesiredSecret>, planned: seq<Key>, want: map<Key, Content>,
                                             s: Store)
    requires Describes(desired, planned, want, s) && NoDup(planned)
    ensures NoDup(ToApply(desired))
    ensures forall k :: k in ToApply(desired) <==> k in planned && k in Stale(s, want)
  {
    if desired != [] {
      var n := |desired| - 1;
      ToApplyListsStale(desired[..n], planned[..n], want, s);
      assert planned == planned[..n] + [planned[n]];
      assert planned[n] !in planned[..n];
      assert ToApply(desired) == ToApply(desired[..n]) + if desired[n].needsApply then [planned[n]] else [];
    }
  }

  /** What the write loops need to know about a plan. */
  lemma PlanIsDue(inputs: Inputs, c: Credentials, s: Store, desired: seq<DesiredSecret>)
    requires Renders(inputs, c) && NoDup(inputs.namespaces)
    requires Describes(desired, PlannedKeys(inputs, c), Want(inputs, c), s)
    ensures AsWanted(desired, Want(inputs, c)) && |desired| == |Want(inputs, c)|
    ensures Lists(ToApply(desired), Stale(s, Want(inputs, c)))
    ensures KeysOf(desired) == Want(inputs, c).Keys
  {
    PlannedAreWanted(inputs, c);
    DesiredKeys(desired, PlannedKeys(inputs, c), Want(inputs, c), s);
    ToApplyListsAllStale(desired, PlannedKeys(inputs, c), Want(inputs, c), s);
  }

  lemma ToApplyListsAllStale(desired: seq<DesiredSecret>, planned: seq<Key>, want: map<Key, Content>, s: Store)
    requires Describes(desired, planned, want, s) && NoDup(planned) && ToSet(planned) == want.Keys
    ensures Lists(ToApply(desired), Stale(s, want))
  {
    ToApplyListsStale(desired, planned, want, s);
    forall k
      ensures k in ToSet(ToApply(desired)) <==> k in Stale(s, want)
    {
      assert k in planned <==> k in ToSet(planned);
    }
  }

  /** The cluster's write log grew by exactly the writes the attempt made. */
  ghost predicate Logged(before: seq<Write>, after: seq<Write>, inputs: Inputs, s: Store, a: Attempt) {
    match a
    case Stopped(_, _) => after == before
    case Ran(puts, deletes, done, _, _) =>
      var c := CredentialsIn(inputs.registry.spec, s);
      && c.Ok? && Renders(inputs, c.value) && done <= |puts| + |deletes|
      && after == before + WritesOf(Want(inputs, c.value), puts, deletes, done)
  }

  /** Without failing calls the inputs alone decide the outcome. */
  ghost predicate Decided(inputs: Inputs, s: Store, a: Attempt) {
    var c := CredentialsIn(inputs.registry.spec, s);
    && (a.Succeeded() <==> c.Ok? && Plannable(inputs, c.value, s))
    && (a.Stopped? && a.stage == Reading ==> c.Err?)
  }

  /** What the recorded status says is true. Ready with reason Synced means success, and then the
      counters are the differences made. ValidationFailed means that validation rejected the
      registry and nothing was written; without failing calls it is reported exactly then.
      SyncFailed is any other failure. And whether it succeeded or not, each counter is the one of
      the attempt, and unless a failing write took effect it counts exactly the Secrets that
      have come into place or gone. */
  lemma StatusTellsTheTruth(inputs: Inputs, s: Store, a: Attempt, t: Store)
    requires Reconciles(inputs, s, a, t)
    ensures
      var c := CredentialsIn(inputs.registry.spec, s);
      var rejected := c.Ok? && !Accepts(inputs.lib, inputs.registry, c.value, inputs.policy, s);
      var status := StatusFor(a);
      && (status.ready <==> a.Succeeded())
      && (status.reason == "Synced" <==> a.Succeeded())
      && (status.reason == "ValidationFailed" <==> a.Stopped? && a.stage == Validating)
      && (status.reason == "SyncFailed" <==> !a.Succeeded() && !(a.Stopped? && a.stage == Validating))
      && (status.reason == "ValidationFailed" ==> rejected && t == s && status.counts == Counts(0, 0, 0))
      && (Decided(inputs, s, a) ==> (status.reason == "ValidationFailed" <==> rejected))
    ensures
      var c, counts := CredentialsIn(inputs.registry.spec, s), StatusFor(a).counts;
      if a.Stopped? then counts == Counts(0, 0, 0)
      else counts == a.counts && CountsAreDifferences(Want(inputs, c.value), inputs.registry.name, s, a, t, counts)
  {
    ReasonsDiffer();
    if a.Ran? {
      var want := Want(inputs, CredentialsIn(inputs.registry.spec, s).value);
      CountersAreDifferences(want, inputs.registry.name, s, a, t);
    }
  }

  lemma ReasonsDiffer()
    ensures REASON_SYNCED != REASON_SYNC_FAILED && REASON_SYNC_FAILED != REASON_VALIDATION_FAILED
    ensures REASON_SYNCED != REASON_VALIDATION_FAILED
  {
    assert |REASON_SYNCED| < |REASON_SYNC_FAILED| < |REASON_VALIDATION_FAILED|;
  }

  /** The three counters, one by one: what is planned, the planned Secrets that have come into
      place, the obsolete ones that have gone. A success leaves none of either. */
  ghost predicate CountsAreDifferences(want: map<Key, Content>, name: string, s: Store, a: Attempt, t: Store,
                                       counts: Counts)
  {
    && counts.desired == |want|
    && (a.Clean() ==> counts.applied == |Stale(s, want)| - |Stale(t, want)|)
    && (a.Clean() ==> counts.deleted == |Obsolete(s, want, name)| - |Obsolete(t, want, name)|)
    && (a.Succeeded() ==> counts.applied == |Stale(s, want)| && counts.deleted == |Obsolete(s, want, name)|)
    && counts.applied + counts.deleted <= a.Done() <= counts.applied + counts.deleted + 1
    && (a.Clean() ==> a.Done() == counts.applied + counts.deleted)
  }

  lemma CountersAreDifferences(want: map<Key, Content>, name: string, s: Store, a: Attempt, t: Store)
    requires RunsDue(want, name, s, a, t)
    ensures CountsAreDifferences(want, name, s, a, t, a.counts)
  {
    if a.Clean() {
      RunCounters(want, name, s, a, t);
    }
    if a.failure.None? {
      RunSuccess(want, name, s, a, t);
    }
  }

  class RegistryPullSecretReconciler {
    const lib: Library
    const cluster: Cluster

    constructor (lib: Library, cluster: Cluster)
      ensures this.lib == lib && this.cluster == cluster
    {
      this.lib, this.cluster := lib, cluster;
    }

    /** What a reconcile of `registry` reads besides the Secrets; no policy object means no
        exclusions. */
    function InputsFor(registry: Registry): Inputs
      reads cluster`policy, cluster`namespaces
    {
      Inputs(lib, registry, if cluster.policy.Some? then cluster.policy.value else Policy([]), cluster.namespaces)
    }

    /** Create or update one Secret. */
    method ApplySecret(key: Key, content: Content) returns (err: Option<Error>, ghost wrote: bool)
      modifies cluster`calls, cluster`failures, cluster`secrets, cluster`writes
      ensures cluster.calls > old(cluster.calls) && cluster.failures >= old(cluster.failures)
      ensures if wrote
              then cluster.secrets == Apply(old(cluster.secrets), Put(key, content))
                   && cluster.writes == old(cluster.writes) + [Put(key, content)]
              else cluster.secrets == old(cluster.secrets) && cluster.writes == old(cluster.writes)
      ensures err.None? ==> wrote
      ensures err.Some? ==> !IsValidationError(err.value)
      ensures err.None? <==> cluster.failures == old(cluster.failures)
      ensures err.Some? && wrote ==> !cluster.Clean(old(cluster.calls), cluster.calls)
    {
      wrote := false;
      var failed := cluster.Read();
      if failed {
        return Some(Wrapped("get Secret", Plain("API"))), wrote;
      }
      if key !in cluster.secrets {
        wrote := cluster.faults(cluster.calls) != Fails;
        failed := cluster.Create(key, content);
        if failed {
          return Some(Wrapped("create Secret", Plain("API"))), wrote;
        }
        return None, wrote;
      }
      var existing := cluster.secrets[key];
      existing := existing.(content := existing.content.(labels := content.labels));
      existing := existing.(content := existing.content.(kind := content.kind));
      existing := existing.(content := existing.content.(data := content.data));
      wrote := cluster.faults(cluster.calls) != Fails;
      failed := cluster.Update(key, existing);
      if failed {
        return Some(Wrapped("update Secret", Plain("API"))), wrote;
      }
      return None, wrote;
    }

    /** Delete one Secret; one that is already gone counts as deleted. */
    method DeleteSecret(key: Key) returns (err: Option<Error>, ghost wrote: bool)
      modifies cluster`calls, cluster`failures, cluster`secrets, cluster`writes
      ensures cluster.calls > old(cluster.calls) && cluster.failures >= old(cluster.failures)
      ensures if wrote
              then cluster.secrets == Apply(old(cluster.secrets), Delete(key))
                   && cluster.writes == old(cluster.writes) + [Delete(key)]
              else cluster.secrets == old(cluster.secrets) && cluster.writes == old(cluster.writes)
      ensures err.None? ==> (wrote <==> key in old(cluster.secrets))
      ensures err.Some? ==> !IsValidationError(err.value)
      ensures err.None? <==> cluster.failures == old(cluster.failures)
      ensures err.Some? && wrote ==> !cluster.Clean(old(cluster.calls), cluster.calls)
    {
      wrote := cluster.faults(cluster.calls) != Fails && key in cluster.secrets;
      var outcome := cluster.Remove(key);
      if outcome == Failed {
        return Some(Wrapped("delete Secret", Plain("API"))), wrote;
      }
      return None, wrote;
    }

    /** `resolveRegistryCredentials`: a reference is fetched from the cluster first. */
    method ResolveCredentials(registry: Registry) returns (r: Result<Credentials>)
      modifies cluster`calls, cluster`failures
      ensures cluster.calls >= old(cluster.calls) && cluster.failures >= old(cluster.failures)
      ensures r.Ok? ==> r == CredentialsIn(registry.spec, cluster.secrets)
      ensures r.Ok? ==> cluster.failures == old(cluster.failures)
      ensures r.Err? ==> !IsValidationError(r.error)
      ensures r.Err? && cluster.failures == old(cluster.failures) ==>
                CredentialsIn(registry.spec, cluster.secrets).Err?
    {
      var source: Option<Secret> := None;
      if registry.spec.credentialsRef.Some? {
        var failed := cluster.Read();
        if failed || registry.spec.credentialsRef.value !in cluster.secrets {
          return Err(Wrapped("get credentials Secret", Plain("API")));
        }
        source := Some(cluster.secrets[registry.spec.credentialsRef.value]);
      }
      var resolved := ResolveRegistryCredentials(registry.spec, source);
      ResolutionDecides(registry.spec, source);
      if resolved.Err? {
        return Err(Wrapped("resolve credentials", resolved.error));
      }
      return resolved;
    }

    /** The listed Secrets as a map. */
    method ListExistingSecrets() returns (failed: bool, existing: Store)
      modifies cluster`calls, cluster`failures
      ensures cluster.calls == old(cluster.calls) + 1
      ensures cluster.failures == cluster.Tally(old(cluster.failures), old(cluster.calls))
      ensures failed <==> cluster.faults(old(cluster.calls)) != Succeeds
      ensures !failed ==> existing == cluster.secrets
    {
      existing := map[];
      var items;
      failed, items := cluster.ListSecrets();
      if failed {
        return;
      }
      for i := 0 to |items|
        invariant forall k :: k in existing <==> exists j :: 0 <= j < i && items[j].0 == k
        invariant forall k :: k in existing ==> k in cluster.secrets && existing[k] == cluster.secrets[k]
      {
        assert (items[i].0, items[i].1) in items;
        existing := existing[items[i].0 := items[i].1];
      }
      forall k | k in cluster.secrets
        ensures k in existing
      {
        assert (k, cluster.secrets[k]) in items;
      }
    }

    /** The reads of a reconcile and the plan made from them. */
    method ReadAndPlan(registry: Registry)
      returns (existing: Store, planned: Result<seq<DesiredSecret>>, ghost stage: Stage)
      modifies cluster`calls, cluster`failures
      ensures cluster.calls >= old(cluster.calls) && cluster.failures >= old(cluster.failures)
      ensures planned.Ok? ==> existing == cluster.secrets && cluster.failures == old(cluster.failures)
      ensures planned.Ok? ==>
                var c := CredentialsIn(registry.spec, cluster.secrets);
                && c.Ok? && Plannable(InputsFor(registry), c.value, cluster.secrets)
                && Describes(planned.value, PlannedKeys(InputsFor(registry), c.value),
                             Want(InputsFor(registry), c.value), cluster.secrets)
      ensures planned.Err? ==>
                Reconciles(InputsFor(registry), cluster.secrets, Stopped(stage, planned.error), cluster.secrets)
      ensures planned.Err? && cluster.failures == old(cluster.failures) ==>
                var c := CredentialsIn(registry.spec, cluster.secrets);
                && (c.Ok? ==> !Plannable(InputsFor(registry), c.value, cluster.secrets))
                && (stage == Reading ==> c.Err?)
    {
      existing, stage := map[], Reading;
      var failed := cluster.Read();
      if failed {
        return existing, Err(Wrapped("get PullSecretPolicy", Plain("API"))), stage;
      }
      var credentials := ResolveCredentials(registry);
      if credentials.Err? {
        return existing, Err(credentials.error), stage;
      }
      failed := cluster.Read();
      if failed {
        return existing, Err(Wrapped("list namespaces", Plain("API"))), stage;
      }
      failed, existing := ListExistingSecrets();
      if failed {
        return existing, Err(Wrapped("list secrets", Plain("API"))), stage;
      }
      planned := DesiredSecrets(InputsFor(registry), credentials.value, existing);
      if planned.Err? {
        stage := if IsValidationError(planned.error) then Validating else Rendering;
        planned := Err(Wrapped("build desired Secrets", planned.error));
      }
    }

    /** The apply loop. `wrote` says that the failing call took effect. */
    method ApplyDesired(desired: seq<DesiredSecret>, ghost want: map<Key, Content>, ghost deletes: seq<Key>)
      returns (applied: nat, err: Option<Error>, ghost wrote: bool)
      requires AsWanted(desired, want)
      modifies cluster`calls, cluster`failures, cluster`secrets, cluster`writes
      ensures
        var puts, done := ToApply(desired), applied + if wrote then 1 else 0;
        && done <= |puts|
        && cluster.secrets == After(old(cluster.secrets), want, puts, deletes, done)
        && cluster.writes == old(cluster.writes) + WritesOf(want, puts, deletes, done)
        && (err.None? ==> applied == |puts| && !wrote)
        && (err.Some? ==> applied < |puts| && !IsValidationError(err.value))
      ensures cluster.calls >= old(cluster.calls) && cluster.failures >= old(cluster.failures)
      ensures wrote ==> !cluster.Clean(old(cluster.calls), cluster.calls)
      ensures err.None? <==> cluster.failures == old(cluster.failures)
    {
      ghost var s, log, puts := cluster.secrets, cluster.writes, ToApply(desired);
      applied := 0;
      for i := 0 to |desired|
        invariant applied == |ToApply(desired[..i])| <= |puts|
        invariant cluster.secrets == After(s, want, puts, deletes, applied)
        invariant cluster.writes == log + WritesOf(want, puts, deletes, applied)
        invariant cluster.calls >= old(cluster.calls) && cluster.failures == old(cluster.failures)
      {
        ToApplyPrefix(desired, i);
        if !desired[i].needsApply {
          continue;
        }
        assert puts[applied] == desired[i].key;
        err, wrote := ApplySecret(desired[i].key, desired[i].content);
        if err.Some? {
          return applied, err, wrote;
        }
        applied := applied + 1;
      }
      assert desired[..|desired|] == desired;
      return applied, None, false;
    }

    /** The delete loop, once everything planned is in place. */
    method DeleteObsolete(obsolete: seq<Key>, ghost want: map<Key, Content>, ghost s: Store, ghost log: seq<Write>,
                          ghost puts: seq<Key>)
      returns (deleted: nat, err: Option<Error>, ghost wrote: bool)
      requires NoDup(obsolete) && forall k :: k in obsolete ==> k !in want && k in cluster.secrets
      requires cluster.secrets == After(s, want, puts, obsolete, |puts|)
      requires cluster.writes == log + WritesOf(want, puts, obsolete, |puts|)
      modifies cluster`calls, cluster`failures, cluster`secrets, cluster`writes
      ensures
        var done := deleted + if wrote then 1 else 0;
        && done <= |obsolete|
        && cluster.secrets == After(s, want, puts, obsolete, |puts| + done)
        && cluster.writes == log + WritesOf(want, puts, obsolete, |puts| + done)
        && (err.None? ==> deleted == |obsolete| && !wrote)
        && (err.Some? ==> deleted < |obsolete| && !IsValidationError(err.value))
      ensures cluster.calls >= old(cluster.calls) && cluster.failures >= old(cluster.failures)
      ensures wrote ==> !cluster.Clean(old(cluster.calls), cluster.calls)
      ensures err.None? <==> cluster.failures == old(cluster.failures)
    {
      deleted := 0;
      for i := 0 to |obsolete|
        invariant deleted == i
        invariant cluster.secrets == After(s, want, puts, obsolete, |puts| + i)
        invariant cluster.writes == log + WritesOf(want, puts, obsolete, |puts| + i)
        invariant cluster.calls >= old(cluster.calls) && cluster.failures == old(cluster.failures)
        invariant forall j :: i <= j < |obsolete| ==> obsolete[j] in cluster.secrets
      {
        assert obsolete[i] !in want;
        err, wrote := DeleteSecret(obsolete[i]);
        if err.Some? {
          return deleted, err, wrote;
        }
        deleted := deleted + 1;
      }
      return deleted, None, false;
    }

    /** The two write loops of the reconcile: every apply comes before the first delete. */
    method Replicate(desired: seq<DesiredSecret>, obsolete: seq<Key>, ghost want: map<Key, Content>)
      returns (counts: Counts, err: Option<Error>, ghost attempt: Attempt)
      requires AsWanted(desired, want) && NoDup(obsolete)
      requires forall k :: k in obsolete ==>
                 k !in want && k in After(cluster.secrets, want, ToApply(desired), obsolete, |ToApply(desired)|)
      modifies cluster`calls, cluster`failures, cluster`secrets, cluster`writes
      ensures attempt.Ran? && attempt.puts == ToApply(desired) && attempt.deletes == obsolete
      ensures Writes(want, |desired|, old(cluster.secrets), attempt, cluster.secrets)
      ensures counts == attempt.counts && err == attempt.failure
      ensures cluster.writes == old(cluster.writes) + WritesOf(want, attempt.puts, attempt.deletes, attempt.done)
      ensures cluster.calls >= old(cluster.calls) && cluster.failures >= old(cluster.failures)
      ensures cluster.Clean(old(cluster.calls), cluster.calls) ==> attempt.Clean()
      ensures cluster.failures == old(cluster.failures) <==> attempt.Succeeded()
    {
      ghost var s, log, puts, wrote := cluster.secrets, cluster.writes, ToApply(desired), false;
      var applied, deleted := 0, 0;
      applied, err, wrote := ApplyDesired(desired, want, obsolete);
      counts := Counts(|desired|, applied, 0);
      if err.Some? {
        return counts, err, Ran(puts, obsolete, applied + if wrote then 1 else 0, counts, err);
      }
      deleted, err, wrote := DeleteObsolete(obsolete, want, s, log, puts);
      counts := Counts(|desired|, applied, deleted);
      attempt := Ran(puts, obsolete, applied + deleted + if wrote then 1 else 0, counts, err);
    }

    /** Read, validate, plan, apply, then delete. The attempt it made is returned as a ghost
        value and matches `Reconciles`; without failing calls it succeeds exactly when the
        registry is plannable. */
    method ReconcileRegistryPullSecret(registry: Registry)
      returns (counts: Counts, err: Option<Error>, ghost attempt: Attempt)
      requires NoDup(cluster.namespaces)
      modifies cluster`calls, cluster`failures, cluster`secrets, cluster`writes
      ensures Reconciles(InputsFor(registry), old(cluster.secrets), attempt, cluster.secrets)
      ensures
        var policy := if cluster.policy.Some? then cluster.policy.value else Policy([]);
        InputsFor(registry) == Inputs(lib, registry, policy, cluster.namespaces)
      ensures counts == attempt.Report() && err == attempt.Failure()
      ensures Logged(old(cluster.writes), cluster.writes, InputsFor(registry), old(cluster.secrets), attempt)
      ensures cluster.calls >= old(cluster.calls) && cluster.failures >= old(cluster.failures)
      ensures cluster.Clean(old(cluster.calls), cluster.calls) ==> attempt.Clean()
      ensures cluster.failures == old(cluster.failures) ==>
                Decided(InputsFor(registry), old(cluster.secrets), attempt)
      ensures err.None? ==> cluster.failures == old(cluster.failures)
    {
      var existing, planned;
      ghost var stage;
      existing, planned, stage := ReadAndPlan(registry);
      if planned.Err? {
        return Counts(0, 0, 0), Some(planned.error), Stopped(stage, planned.error);
      }
      ghost var inputs := InputsFor(registry);
      ghost var c := CredentialsIn(registry.spec, cluster.secrets).value;
      ghost var want := Want(inputs, c);
      PlanIsDue(inputs, c, cluster.secrets, planned.value);
      var obsolete := ObsoleteSecrets(registry.name, existing, planned.value);
      ObsoleteRemain(cluster.secrets, want, registry.name, ToApply(planned.value), obsolete);
      counts, err, attempt := Replicate(planned.value, obsolete, want);
    }

    /** Write the status; what is recorded is determined by the counters and the error. */
    method UpdateStatus(registry: Registry, counts: Counts, failure: Option<Error>) returns (err: Option<Error>)
      modifies cluster`calls, cluster`failures, cluster`statuses, cluster`lost
      ensures cluster.calls == old(cluster.calls) + 1
      ensures cluster.failures == cluster.Tally(old(cluster.failures), old(cluster.calls))
      ensures err.None? <==> cluster.faults(old(cluster.calls)) == Succeeds
      ensures cluster.lost >= old(cluster.lost)
      ensures cluster.lost > old(cluster.lost) <==> cluster.faults(old(cluster.calls)) == Fails
      ensures cluster.statuses ==
              if cluster.lost > old(cluster.lost) then old(cluster.statuses)
              else old(cluster.statuses)[registry.name := StatusOf(counts, failure)]
    {
      var ready, reason := true, REASON_SYNCED;
      if failure.Some? {
        ready, reason := false, REASON_SYNC_FAILED;
        if IsValidationError(failure.value) {
          reason := REASON_VALIDATION_FAILED;
        }
      }
      var failed := cluster.WriteStatus(registry.name, Status(counts, ready, reason));
      return if failed then Some(Wrapped("update RegistryPullSecret status", Plain("API"))) else None;
    }

    /** A reconcile of an existing registry: one attempt, then, as the last call and however the
        attempt ended, the status update, which records what the attempt did unless that very
        call fails without effect. It reports success exactly when both work. */
    method ReconcileExisting(registry: Registry) returns (err: Option<Error>, ghost attempt: Attempt)
      requires NoDup(cluster.namespaces)
      modifies cluster`calls, cluster`failures, cluster`secrets, cluster`writes, cluster`statuses, cluster`lost
      ensures Reconciles(InputsFor(registry), old(cluster.secrets), attempt, cluster.secrets)
      ensures err.None? ==> attempt.Succeeded()
      ensures KeepsPromises(lib, registry, cluster.policy, cluster.namespaces,
                            CredentialsIn(registry.spec, old(cluster.secrets)),
                            old(cluster.secrets), cluster.secrets, attempt.Succeeded())
      ensures cluster.policy.Some? ==>
                forall k :: k in cluster.secrets && k.namespace in cluster.policy.value.excluded ==>
                  && SameAt(old(cluster.secrets), cluster.secrets, k)
                  && (attempt.Succeeded() ==> !LabelledFor(cluster.secrets[k], registry.name))
      ensures cluster.calls > old(cluster.calls) && cluster.failures >= old(cluster.failures)
      ensures cluster.lost >= old(cluster.lost)
      ensures cluster.statuses ==
              if cluster.lost > old(cluster.lost) then old(cluster.statuses)
              else old(cluster.statuses)[registry.name := StatusFor(attempt)]
      ensures cluster.lost > old(cluster.lost) ==> cluster.failures > old(cluster.failures)
      ensures cluster.Clean(old(cluster.calls), cluster.calls) ==> attempt.Clean()
      ensures cluster.failures == old(cluster.failures) ==>
                Decided(InputsFor(registry), old(cluster.secrets), attempt) && (err.None? <==> attempt.Succeeded())
      ensures err.None? ==> cluster.failures == old(cluster.failures)
    {
      var counts, reconcileErr;
      counts, reconcileErr, attempt := ReconcileRegistryPullSecret(registry);
      var statusErr := UpdateStatus(registry, counts, reconcileErr);
      err := JoinErrors(reconcileErr, statusErr);
      ghost var inputs, s := InputsFor(registry), old(cluster.secrets);
      AttemptKeepsPromises(inputs, cluster.policy, s, attempt, cluster.secrets);
      ExcludedStayEmpty(inputs, s, attempt, cluster.secrets);
    }

    /** The reconcile entry point: nothing to do for a deleted registry. For an existing one it
        reports success exactly when attempt and status update succeed, and the status of the
        attempt is filed under the requested name and no other. A success delivers what is
        promised for the registry, the policy object and the namespaces of the cluster, no policy
        object excluding nothing; a failure leaves every key as it was or as promised. Excluded
        namespaces never get a Secret, and after a success hold none of the registry's. */
    method Reconcile(name: string) returns (err: Option<Error>, ghost attempt: Option<Attempt>)
      requires NoDup(cluster.namespaces) && cluster.WellNamed()
      modifies cluster`calls, cluster`failures, cluster`secrets, cluster`writes, cluster`statuses, cluster`lost
      ensures attempt.None? ==>
                && cluster.secrets == old(cluster.secrets) && cluster.writes == old(cluster.writes)
                && cluster.statuses == old(cluster.statuses)
      ensures attempt.None? && err.None? ==> name !in cluster.registries
      ensures attempt.Some? ==> name in cluster.registries
      ensures attempt.Some? ==>
                Reconciles(InputsFor(cluster.registries[name]), old(cluster.secrets), attempt.value, cluster.secrets)
      ensures attempt.Some? ==>
                cluster.statuses ==
                  if cluster.lost > old(cluster.lost) then old(cluster.statuses)
                  else old(cluster.statuses)[name := StatusFor(attempt.value)]
      ensures attempt.Some? && err.None? ==> attempt.value.Succeeded()
      ensures cluster.failures == old(cluster.failures) ==>
                && (attempt.Some? <==> name in cluster.registries)
                && cluster.lost == old(cluster.lost)
                && (err.None? <==> attempt.None? || attempt.value.Succeeded())
      ensures err.None? ==> cluster.failures == old(cluster.failures)
      ensures attempt.Some? ==>
                var registry, s := cluster.registries[name], old(cluster.secrets);
                KeepsPromises(lib, registry, cluster.policy, cluster.namespaces, CredentialsIn(registry.spec, s),
                              s, cluster.secrets, attempt.value.Succeeded())
      ensures cluster.policy.Some? ==>
                forall k :: k in cluster.secrets && k.namespace in cluster.policy.value.excluded ==>
                  && SameAt(old(cluster.secrets), cluster.secrets, k)
                  && (attempt.Some? && err.None? ==> !LabelledFor(cluster.secrets[k], name))
    {
      var failed := cluster.Read();
      if failed {
        return Some(Wrapped("get RegistryPullSecret", Plain("API"))), None;
      }
      if name !in cluster.registries {
        return None, None;
      }
      ghost var made;
      err, made := ReconcileExisting(cluster.registries[name]);
      attempt := Some(made);
    }
  }
}
