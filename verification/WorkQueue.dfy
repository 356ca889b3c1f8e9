/** The controller's work queue: what has to be reconciled again is never forgotten. */
module WorkQueue {
  import opened Collections
  import opened Model
  import opened CredentialSource
  import opened Validation
  import opened Replication
  import opened Secrets
  import opened Attempts
  import opened Promises

  // ----------------------------------------------------- the map function

  predicate References(spec: Spec, key: Key) {
    spec.credentialsRef == Some(key)
  }

  /** Names of the listed registries that reference the Secret, in list order. */
  function Requests(items: seq<Registry>, key: Key): seq<string> {
    if items == [] then []
    else
      var last := items[|items| - 1];
      Requests(items[..|items| - 1], key) + if References(last.spec, key) then [last.name] else []
  }

  method RegistryPullSecretsForSecret(items: seq<Registry>, key: Key) returns (requests: seq<string>)
    ensures requests == Requests(items, key)
  {
    requests := [];
    for i := 0 to |items|
      invariant requests == Requests(items[..i], key)
    {
      assert items[..i + 1][..i] == items[..i];
      var ref := items[i].spec.credentialsRef;
      if ref.None? {
        continue;
      }
      if ref.value.name != key.name || ref.value.namespace != key.namespace {
        continue;
      }
      requests := requests + [items[i].name];
    }
    assert items[..|items|] == items;
  }

  /** A registry is asked for exactly when its reference has the namespace and the name of the
      Secret. */
  lemma {:induction false} RequestsMeaning(items: seq<Registry>, key: Key)
    ensures forall n :: n in Requests(items, key) <==>
              exists r :: r in items && r.name == n && r.spec.credentialsRef == Some(Key(key.namespace, key.name))
  {
    if items != [] {
      var init, last := items[..|items| - 1], items[|items| - 1];
      RequestsMeaning(init, key);
      assert items == init + [last];
      assert key == Key(key.namespace, key.name);
      forall n
        ensures n in Requests(items, key) <==> exists r :: r in items && r.name == n && References(r.spec, key)
      {
        if r :| r in items && r.name == n && References(r.spec, key) {
          assert r in init || r == last;
        }
        if r :| r in init && r.name == n && References(r.spec, key) {
          assert r in items;
        }
        assert last in items;
      }
    }
  }

  // ------------------------------------------------------- the transitions

  /** What an attempt in progress has planned from the Secrets it listed, and how far it is.
      `disturbed` says that someone else has touched its footprint since. */
  datatype Plan = Plan(
    inputs: Inputs,
    want: map<Key, Content>,
    snapshot: Store,
    puts: seq<Key>,
    deletes: seq<Key>,
    done: nat,
    disturbed: bool)

  /** A reconcile in progress: the spec it has read, the credentials once resolved, and the
      plan once made. */
  datatype Running = Running(spec: Spec, credentials: Option<Credentials>, plan: Option<Plan>)

  /** What a registry was last successfully reconciled with, and whether its footprint has been
      touched since. */
  datatype Record = Record(
    spec: Spec,
    credentials: Credentials,
    inputs: Inputs,
    want: map<Key, Content>,
    disturbed: bool)

  datatype System = System(
    registries: map<string, Spec>,
    secrets: Store,
    queue: set<string>,
    running: map<string, Running>,
    synced: map<string, Record>)

  /** The registries queued by an event on the given Secret. */
  function Woken(registries: map<string, Spec>, key: Key): set<string> {
    set n | n in registries && References(registries[n], key)
  }

  predicate Owns(s: Store, k: Key, name: string) {
    k in s && OwnedBy(s[k].content, name)
  }

  /** A change of the Secret at `k` concerns a registry if it wants that key, or the Secret is
      its own before or after. */
  predicate Touches(s: Store, t: Store, k: Key, want: map<Key, Content>, name: string) {
    k in want || Owns(s, k, name) || Owns(t, k, name)
  }

  /** Everything that happens, one step at a time. Reconciles of different registries overlap
      in any way, and outside changes fall anywhere between their steps. */
  datatype Event =
    | RegistryWritten(name: string, spec: Spec)
    | RegistryRemoved(name: string)
    | SecretWritten(key: Key, secret: Secret)
    | SecretRemoved(key: Key)
    | Requeued(name: string)
    | NothingToReconcile(name: string)
    | Started(name: string)
    | ResolvedCredentials(name: string)
    | Planned(name: string, inputs: Inputs, puts: seq<Key>, deletes: seq<Key>)
    | Wrote(name: string)
    | Finished(name: string, success: bool)

  ghost predicate Enabled(y: System, e: Event) {
    match e
    case NothingToReconcile(name) => name in y.queue && name !in y.running && name !in y.registries
    case Started(name) => name in y.queue && name !in y.running && name in y.registries
    case ResolvedCredentials(name) =>
      name in y.running && y.running[name].credentials.None? && CredentialsIn(y.running[name].spec, y.secrets).Ok?
    case Planned(name, inputs, puts, deletes) =>
      && name in y.running && y.running[name].credentials.Some? && y.running[name].plan.None?
      && inputs.registry == Registry(name, y.running[name].spec)
      && Plannable(inputs, y.running[name].credentials.value, y.secrets)
      && Due(y.secrets, Want(inputs, y.running[name].credentials.value), name, puts, deletes)
    case Wrote(name) =>
      && name in y.running && y.running[name].plan.Some?
      && y.running[name].plan.value.done < |y.running[name].plan.value.puts| + |y.running[name].plan.value.deletes|
    case Finished(name, success) =>
      && name in y.running
      && (success ==>
            && y.running[name].credentials.Some? && y.running[name].plan.Some?
            && var plan := y.running[name].plan.value; plan.done == |plan.puts| + |plan.deletes|)
    case _ => true
  }

  function Disturb(run: Running, s: Store, t: Store, k: Key, name: string): Running {
    if run.plan.Some? && Touches(s, t, k, run.plan.value.want, name)
    then run.(plan := Some(run.plan.value.(disturbed := true)))
    else run
  }

  /** The Secret at `k` changes: registries referencing it are queued, and every plan and record
      it concerns is marked, except the plan of the writer. */
  ghost function Change(y: System, t: Store, k: Key, writer: Option<string>): System {
    y.(secrets := t,
       queue := y.queue + Woken(y.registries, k),
       running := map n | n in y.running ::
         if writer == Some(n) then y.running[n] else Disturb(y.running[n], y.secrets, t, k, n),
       synced := map n | n in y.synced ::
         if Touches(y.secrets, t, k, y.synced[n].want, n) then y.synced[n].(disturbed := true) else y.synced[n])
  }

  /** The write an attempt makes next. */
  function NextKey(plan: Plan): Key
    requires plan.done < |plan.puts| + |plan.deletes|
  {
    NthKey(plan.puts, plan.deletes, plan.done)
  }

  /** Registry events queue the registry; Secret events queue every registry referencing the
      Secret. Starting takes a registry off the queue; it may be queued again while it runs.
      A failed reconcile is queued again, a successful one leaves its record. */
  ghost function Next(y: System, e: Event): System
    requires Enabled(y, e)
  {
    match e
    case RegistryWritten(name, spec) => y.(registries := y.registries[name := spec], queue := y.queue + {name})
    case RegistryRemoved(name) => y.(registries := y.registries - {name}, queue := y.queue + {name})
    case SecretWritten(key, secret) => Change(y, y.secrets[key := secret], key, None)
    case SecretRemoved(key) => Change(y, y.secrets - {key}, key, None)
    case Requeued(name) => y.(queue := y.queue + {name})
    case NothingToReconcile(name) => y.(queue := y.queue - {name})
    case Started(name) =>
      y.(queue := y.queue - {name}, running := y.running[name := Running(y.registries[name], None, None)])
    case ResolvedCredentials(name) =>
      var run := y.running[name];
      y.(running := y.running[name := run.(credentials := Some(CredentialsIn(run.spec, y.secrets).value))])
    case Planned(name, inputs, puts, deletes) =>
      var run := y.running[name];
      var plan := Plan(inputs, Want(inputs, run.credentials.value), y.secrets, puts, deletes, 0, false);
      y.(running := y.running[name := run.(plan := Some(plan))])
    case Wrote(name) =>
      var run := y.running[name];
      var plan := run.plan.value;
      var z := Change(y, Apply(y.secrets, WriteFor(plan.want, NextKey(plan))), NextKey(plan), Some(name));
      z.(running := z.running[name := run.(plan := Some(plan.(done := plan.done + 1)))])
    case Finished(name, success) =>
      var run := y.running[name];
      if success then
        var plan := run.plan.value;
        var record := Record(run.spec, run.credentials.value, plan.inputs, plan.want, plan.disturbed);
        y.(running := y.running - {name}, synced := y.synced[name := record])
      else y.(running := y.running - {name}, queue := y.queue + {name})
  }

  /** The Secret an event changes, if it changes one. */
  function Changed(y: System, e: Event): Option<Key>
    requires e.Wrote? ==> e.name in y.running && y.running[e.name].plan.Some?
    requires e.Wrote? ==>
               var plan := y.running[e.name].plan.value; plan.done < |plan.puts| + |plan.deletes|
  {
    if e.SecretWritten? || e.SecretRemoved? then Some(e.key)
    else if e.Wrote? then Some(NextKey(y.running[e.name].plan.value))
    else None
  }

  /** Nothing is queued without a reason, and every reason counts: a registry enters the queue by
      its own change or removal, by a requeue, by its own failure, and by a change of the Secret
      its spec refers to, whoever made that change; it leaves only to be reconciled. */
  lemma QueuedForAReason(y: System, e: Event, n: string)
    requires Enabled(y, e)
    ensures
      n in Next(y, e).queue <==>
        || (n in y.queue && e != Started(n) && e != NothingToReconcile(n))
        || ((e.RegistryWritten? || e.RegistryRemoved? || e.Requeued?) && e.name == n)
        || e == Finished(n, false)
        || (&& Changed(y, e).Some? && n in y.registries
            && y.registries[n].credentialsRef == Some(Changed(y, e).value))
  {
  }

  ghost predicate IsRun(states: seq<System>, events: seq<Event>) {
    && |states| == |events| + 1
    && forall i :: 0 <= i < |events| ==> Enabled(states[i], events[i]) && states[i + 1] == Next(states[i], events[i])
  }

  // ---------------------------------------------- attempts are fragments

  lemma OneMore(states: seq<System>, events: seq<Event>, e: Event) returns (states': seq<System>, events': seq<Event>)
    requires IsRun(states, events) && Enabled(states[|events|], e)
    ensures IsRun(states', events')
    ensures |events'| == |events| + 1 && states'[0] == states[0] && states'[|events'|] == Next(states[|events|], e)
  {
    states', events' := states + [Next(states[|events|], e)], events + [e];
  }

  /** The writes of a plan, made one after another. */
  lemma {:induction false} WritesAreARun(states: seq<System>, events: seq<Event>, name: string, m: nat)
    returns (states': seq<System>, events': seq<Event>)
    requires IsRun(states, events)
    requires
      var y := states[|events|];
      && name in y.running && y.running[name].plan.Some?
      && var plan := y.running[name].plan.value;
         plan.done == 0 && plan.snapshot == y.secrets && m <= |plan.puts| + |plan.deletes|
    ensures IsRun(states', events') && states'[0] == states[0]
    ensures
      var y, z := states[|events|], states'[|events'|];
      var plan := y.running[name].plan.value;
      && z.secrets == After(y.secrets, plan.want, plan.puts, plan.deletes, m)
      && name in z.running && z.running[name] == y.running[name].(plan := Some(plan.(done := m)))
  {
    if m == 0 {
      states', events' := states, events;
    } else {
      states', events' := WritesAreARun(states, events, name, m - 1);
      states', events' := OneMore(states', events', Wrote(name));
    }
  }

  /** Every attempt that matches `Reconciles` is a run of the queue model from the store it reads
      to the store it leaves. It ends recorded and undisturbed if it is reported successful, and
      queued again otherwise. */
  lemma AttemptIsARun(y: System, inputs: Inputs, a: Attempt, t: Store, success: bool)
    returns (states: seq<System>, events: seq<Event>)
    requires inputs.registry.name in y.queue && inputs.registry.name !in y.running
    requires inputs.registry.name in y.registries && y.registries[inputs.registry.name] == inputs.registry.spec
    requires Reconciles(inputs, y.secrets, a, t) && (success ==> a.Succeeded())
    ensures IsRun(states, events) && states[0] == y
    ensures
      var z, name, c := states[|events|], inputs.registry.name, CredentialsIn(inputs.registry.spec, y.secrets);
      && z.secrets == t && name !in z.running
      && if success
         then c.Ok? && name in z.synced
              && z.synced[name] == Record(inputs.registry.spec, c.value, inputs, Want(inputs, c.value), false)
         else name in z.queue
  {
    var name := inputs.registry.name;
    states, events := [y], [];
    states, events := OneMore(states, events, Started(name));
    if a.Ran? {
      states, events := OneMore(states, events, ResolvedCredentials(name));
      states, events := OneMore(states, events, Planned(name, inputs, a.puts, a.deletes));
      states, events := WritesAreARun(states, events, name, a.done);
    }
    states, events := OneMore(states, events, Finished(name, success));
  }

  // ---------------------------------------------------------- the invariant

  /** The spec and the credentials are those the registry has now. */
  predicate Current(y: System, name: string, spec: Spec, credentials: Credentials)
    requires name in y.registries
  {
    spec == y.registries[name] && CredentialsIn(y.registries[name], y.secrets) == Ok(credentials)
  }

  /** The registry was last successfully reconciled with its current spec and with the
      credentials that spec resolves to now. */
  predicate UpToDate(y: System, name: string)
    requires name in y.registries
  {
    name in y.synced && Current(y, name, y.synced[name].spec, y.synced[name].credentials)
  }

  /** Nothing the running reconcile has read of its spec and credentials is outdated. */
  predicate ReadsCurrent(y: System, name: string)
    requires name in y.registries && name in y.running
  {
    var run := y.running[name];
    && run.spec == y.registries[name]
    && (run.credentials.Some? ==> Current(y, name, run.spec, run.credentials.value))
  }

  predicate Settled(y: System, name: string)
    requires name in y.registries
  {
    if name in y.running then ReadsCurrent(y, name) else UpToDate(y, name)
  }

  ghost predicate UnsettledIsQueued(y: System) {
    forall n :: n in y.registries && n !in y.queue ==> Settled(y, n)
  }

  /** The contents are those planned from the inputs for the named registry. */
  ghost predicate PlannedFrom(inputs: Inputs, c: Credentials, spec: Spec, name: string, want: map<Key, Content>) {
    inputs.registry == Registry(name, spec) && Renders(inputs, c) && want == Want(inputs, c)
  }

  /** The stores agree on everything that concerns the registry. */
  ghost predicate SameFootprint(s: Store, t: Store, want: map<Key, Content>, name: string) {
    forall k :: k in want || Owns(s, k, name) || Owns(t, k, name) ==> SameAt(s, t, k)
  }

  ghost predicate InSync(s: Store, want: map<Key, Content>, name: string) {
    Stale(s, want) == {} && Obsolete(s, want, name) == {}
  }

  /** An attempt whose footprint nobody else has touched finds there exactly what its own writes
      have made of the Secrets it listed. */
  ghost predicate OnTrack(s: Store, run: Running, name: string) {
    run.plan.Some? ==>
      var plan := run.plan.value;
      && run.credentials.Some? && PlannedFrom(plan.inputs, run.credentials.value, run.spec, name, plan.want)
      && Due(plan.snapshot, plan.want, name, plan.puts, plan.deletes)
      && plan.done <= |plan.puts| + |plan.deletes|
      && (!plan.disturbed ==>
            SameFootprint(s, After(plan.snapshot, plan.want, plan.puts, plan.deletes, plan.done), plan.want, name))
  }

  /** A registry whose footprint nobody has touched since its success is in sync. */
  ghost predicate KeepsSync(s: Store, record: Record, name: string) {
    && PlannedFrom(record.inputs, record.credentials, record.spec, name, record.want)
    && (!record.disturbed ==> InSync(s, record.want, name))
  }

  ghost predicate WorkIsTracked(y: System) {
    && (forall n :: n in y.running ==> RunningIsTracked(y, n))
    && forall n :: n in y.synced ==> RecordIsTracked(y, n)
  }

  ghost predicate RunningIsTracked(y: System, n: string)
    requires n in y.running
  {
    OnTrack(y.secrets, y.running[n], n)
  }

  ghost predicate RecordIsTracked(y: System, n: string)
    requires n in y.synced
  {
    KeepsSync(y.secrets, y.synced[n], n)
  }

  // --------------------------------------------------- single changes

  lemma UntouchedFootprint(s: Store, t: Store, k: Key, moment: Store, want: map<Key, Content>, name: string)
    requires forall j :: j != k ==> SameAt(s, t, j)
    requires !Touches(s, t, k, want, name) && SameFootprint(s, moment, want, name)
    ensures SameFootprint(t, moment, want, name)
  {
    forall j | j in want || Owns(t, j, name) || Owns(moment, j, name)
      ensures SameAt(t, moment, j)
    {
      assert j != k ==> SameAt(s, t, j);
      assert SameAt(s, moment, j);
    }
  }

  lemma UntouchedSync(s: Store, t: Store, k: Key, want: map<Key, Content>, name: string)
    requires forall j :: j != k ==> SameAt(s, t, j)
    requires !Touches(s, t, k, want, name) && InSync(s, want, name)
    ensures InSync(t, want, name)
  {
    forall j
      ensures j !in Stale(t, want) && j !in Obsolete(t, want, name)
    {
      assert j !in Stale(s, want) && j !in Obsolete(s, want, name);
      assert j != k ==> SameAt(s, t, j);
    }
  }

  /** Its own next write keeps an attempt on track. */
  lemma OwnWriteStaysOnTrack(s: Store, plan: Plan, name: string)
    requires Claims(plan.want, name) && Due(plan.snapshot, plan.want, name, plan.puts, plan.deletes)
    requires plan.done < |plan.puts| + |plan.deletes|
    requires SameFootprint(s, After(plan.snapshot, plan.want, plan.puts, plan.deletes, plan.done), plan.want, name)
    ensures
      var moment := After(plan.snapshot, plan.want, plan.puts, plan.deletes, plan.done + 1);
      SameFootprint(Apply(s, WriteFor(plan.want, NextKey(plan))), moment, plan.want, name)
  {
    var moment := After(plan.snapshot, plan.want, plan.puts, plan.deletes, plan.done);
    NextKeyConcerns(plan.snapshot, plan.want, name, plan.puts, plan.deletes, plan.done);
    SameWriteSameFootprint(s, moment, plan.want, name, NextKey(plan));
  }

  /** The next key is planned, or it is a Secret the registry still owns. */
  lemma NextKeyConcerns(s: Store, want: map<Key, Content>, name: string, puts: seq<Key>, deletes: seq<Key>, n: nat)
    requires Due(s, want, name, puts, deletes) && n < |puts| + |deletes|
    ensures
      var k := NthKey(puts, deletes, n);
      k in want || Owns(After(s, want, puts, deletes, n), k, name)
  {
    var k := NthKey(puts, deletes, n);
    AfterIsPatch(s, want, puts, deletes, n);
    if n < |puts| {
      assert k in ToSet(puts);
    } else {
      assert k in ToSet(deletes);
      assert k !in PutBy(puts, n) by {
        KeysByAll(puts, deletes, n);
      }
      assert k !in GoneBy(puts, deletes, n);
    }
  }

  lemma SameWriteSameFootprint(s: Store, t: Store, want: map<Key, Content>, name: string, k: Key)
    requires Claims(want, name) && SameFootprint(s, t, want, name)
    requires k in want || Owns(t, k, name)
    ensures SameFootprint(Apply(s, WriteFor(want, k)), Apply(t, WriteFor(want, k)), want, name)
  {
    var s', t' := Apply(s, WriteFor(want, k)), Apply(t, WriteFor(want, k));
    assert SameAt(s, t, k);
    forall j | j in want || Owns(s', j, name) || Owns(t', j, name)
      ensures SameAt(s', t', j)
    {
      if j != k {
        assert j in want || Owns(s, j, name) || Owns(t, j, name);
        assert SameAt(s, t, j);
      }
    }
  }

  /** An undisturbed attempt that has made all its writes leaves its registry in sync. */
  lemma AllWrittenIsInSync(s: Store, plan: Plan, name: string)
    requires Claims(plan.want, name) && Due(plan.snapshot, plan.want, name, plan.puts, plan.deletes)
    requires plan.done == |plan.puts| + |plan.deletes|
    requires SameFootprint(s, After(plan.snapshot, plan.want, plan.puts, plan.deletes, plan.done), plan.want, name)
    ensures InSync(s, plan.want, name)
  {
    var goal := Synced(plan.snapshot, plan.want, name);
    AllWritesReachTheGoal(plan.snapshot, plan.want, name, plan.puts, plan.deletes, plan.done);
    Convergence(plan.snapshot, plan.want, name);
    forall k
      ensures k !in Stale(s, plan.want) && k !in Obsolete(s, plan.want, name)
    {
      if k in plan.want || Owns(s, k, name) {
        assert SameAt(s, goal, k);
        assert k in Owned(goal, name) <==> k in plan.want;
      }
    }
  }

  // ---------------------------------------------------------- every step

  /** Only a change of the referenced Secret changes what a spec resolves to. */
  lemma CredentialsNeedOneSecret(spec: Spec, s: Store, t: Store, key: Key)
    requires forall k :: k != key ==> SameAt(s, t, k)
    requires !References(spec, key)
    ensures CredentialsIn(spec, t) == CredentialsIn(spec, s)
  {
    if spec.credentialsRef.Some? {
      assert SameAt(s, t, spec.credentialsRef.value);
    }
  }

  /** The one Secret a step changes, if any. */
  ghost predicate ChangesOnly(s: Store, t: Store, k: Key) {
    forall j :: j != k ==> SameAt(s, t, j)
  }

  lemma ChangeKeepsSettled(y: System, t: Store, k: Key, writer: Option<string>)
    requires UnsettledIsQueued(y) && ChangesOnly(y.secrets, t, k)
    ensures UnsettledIsQueued(Change(y, t, k, writer))
  {
    var z := Change(y, t, k, writer);
    forall n | n in z.registries && n !in z.queue
      ensures Settled(z, n)
    {
      CredentialsNeedOneSecret(y.registries[n], y.secrets, t, k);
    }
  }

  lemma StepKeepsSettled(y: System, e: Event)
    requires UnsettledIsQueued(y) && Enabled(y, e)
    ensures UnsettledIsQueued(Next(y, e))
  {
    var z := Next(y, e);
    match e {
      case SecretWritten(key, secret) => ChangeKeepsSettled(y, z.secrets, key, None);
      case SecretRemoved(key) => ChangeKeepsSettled(y, z.secrets, key, None);
      case Wrote(name) =>
        var key := NextKey(y.running[name].plan.value);
        ChangeKeepsSettled(y, z.secrets, key, Some(name));
        var changed := Change(y, z.secrets, key, Some(name));
        forall n | n in z.registries && n !in z.queue
          ensures Settled(z, n)
        {
          assert Settled(changed, n);
        }
      case _ =>
    }
  }

  lemma ChangeKeepsTrack(run: Running, s: Store, t: Store, k: Key, n: string)
    requires OnTrack(s, run, n) && ChangesOnly(s, t, k)
    ensures OnTrack(t, Disturb(run, s, t, k, n), n)
  {
    if run.plan.Some? && !run.plan.value.disturbed && !Touches(s, t, k, run.plan.value.want, n) {
      var plan := run.plan.value;
      UntouchedFootprint(s, t, k, After(plan.snapshot, plan.want, plan.puts, plan.deletes, plan.done), plan.want, n);
    }
  }

  lemma ChangeKeepsSync(y: System, t: Store, k: Key, writer: Option<string>, n: string)
    requires n in y.synced && RecordIsTracked(y, n) && ChangesOnly(y.secrets, t, k)
    ensures RecordIsTracked(Change(y, t, k, writer), n)
  {
    var record := y.synced[n];
    if !record.disturbed && !Touches(y.secrets, t, k, record.want, n) {
      UntouchedSync(y.secrets, t, k, record.want, n);
    }
  }

  /** A change is tracked everywhere except with its writer. */
  lemma ChangeIsTracked(y: System, t: Store, k: Key, writer: Option<string>)
    requires WorkIsTracked(y) && ChangesOnly(y.secrets, t, k)
    ensures
      var z := Change(y, t, k, writer);
      && (forall n :: n in z.running && writer != Some(n) ==> RunningIsTracked(z, n))
      && forall n :: n in z.synced ==> RecordIsTracked(z, n)
  {
    var z := Change(y, t, k, writer);
    forall n | n in z.running && writer != Some(n)
      ensures RunningIsTracked(z, n)
    {
      assert RunningIsTracked(y, n);
      ChangeKeepsTrack(y.running[n], y.secrets, t, k, n);
    }
    forall n | n in z.synced
      ensures RecordIsTracked(z, n)
    {
      assert RecordIsTracked(y, n);
      ChangeKeepsSync(y, t, k, writer, n);
    }
  }

  /** The writer's own state after its write. */
  function Written(run: Running): Running
    requires run.plan.Some?
  {
    run.(plan := Some(run.plan.value.(done := run.plan.value.done + 1)))
  }

  lemma WriterStaysOnTrack(s: Store, run: Running, name: string)
    requires OnTrack(s, run, name) && run.plan.Some?
    requires run.plan.value.done < |run.plan.value.puts| + |run.plan.value.deletes|
    ensures OnTrack(Apply(s, WriteFor(run.plan.value.want, NextKey(run.plan.value))), Written(run), name)
  {
    if !run.plan.value.disturbed {
      OwnWriteStaysOnTrack(s, run.plan.value, name);
    }
  }

  /** The state of the writer aside, its write is a change like any other. */
  ghost function ChangedByWrite(y: System, name: string): System
    requires Enabled(y, Wrote(name))
  {
    var plan := y.running[name].plan.value;
    Change(y, Apply(y.secrets, WriteFor(plan.want, NextKey(plan))), NextKey(plan), Some(name))
  }

  lemma NextIsChangedByWrite(y: System, name: string)
    requires Enabled(y, Wrote(name))
    ensures
      var z := ChangedByWrite(y, name);
      Next(y, Wrote(name)) == z.(running := z.running[name := Written(y.running[name])])
  {
  }

  lemma OthersStayOnTrack(y: System, name: string)
    requires WorkIsTracked(y) && Enabled(y, Wrote(name))
    ensures
      var z := ChangedByWrite(y, name);
      && (forall n :: n in z.running && n != name ==> RunningIsTracked(z, n))
      && forall n :: n in z.synced ==> RecordIsTracked(z, n)
  {
    var plan := y.running[name].plan.value;
    ChangeIsTracked(y, Apply(y.secrets, WriteFor(plan.want, NextKey(plan))), NextKey(plan), Some(name));
  }

  lemma WriteIsTracked(y: System, name: string)
    requires WorkIsTracked(y) && Enabled(y, Wrote(name))
    ensures WorkIsTracked(Next(y, Wrote(name)))
  {
    assert RunningIsTracked(y, name);
    OthersStayOnTrack(y, name);
    WriterStaysOnTrack(y.secrets, y.running[name], name);
    ReplacedIsTracked(ChangedByWrite(y, name), name, Written(y.running[name]));
    NextIsChangedByWrite(y, name);
  }

  lemma ReplacedIsTracked(y: System, name: string, run: Running)
    requires forall n :: n in y.running && n != name ==> RunningIsTracked(y, n)
    requires forall n :: n in y.synced ==> RecordIsTracked(y, n)
    requires OnTrack(y.secrets, run, name)
    ensures WorkIsTracked(y.(running := y.running[name := run]))
  {
    var z := y.(running := y.running[name := run]);
    forall n | n in z.running
      ensures RunningIsTracked(z, n)
    {
      assert n != name ==> RunningIsTracked(y, n);
    }
    forall n | n in z.synced
      ensures RecordIsTracked(z, n)
    {
      assert RecordIsTracked(y, n);
    }
  }

  lemma FinishIsTracked(y: System, name: string, success: bool)
    requires WorkIsTracked(y) && Enabled(y, Finished(name, success))
    ensures WorkIsTracked(Next(y, Finished(name, success)))
  {
    var z, run := Next(y, Finished(name, success)), y.running[name];
    assert RunningIsTracked(y, name);
    if success && !run.plan.value.disturbed {
      AllWrittenIsInSync(y.secrets, run.plan.value, name);
    }
    forall n | n in z.running
      ensures RunningIsTracked(z, n)
    {
      assert RunningIsTracked(y, n);
    }
    forall n | n in z.synced
      ensures RecordIsTracked(z, n)
    {
      assert !(success && n == name) ==> RecordIsTracked(y, n);
    }
  }

  /** Steps that leave the Secrets and the records alone. */
  lemma QuietStepIsTracked(y: System, e: Event)
    requires WorkIsTracked(y) && Enabled(y, e)
    requires !e.SecretWritten? && !e.SecretRemoved? && !e.Wrote? && !e.Finished?
    ensures WorkIsTracked(Next(y, e))
  {
    var z := Next(y, e);
    forall n | n in z.running
      ensures RunningIsTracked(z, n)
    {
      if n in y.running && z.running[n] == y.running[n] {
        assert RunningIsTracked(y, n);
      }
    }
    forall n | n in z.synced
      ensures RecordIsTracked(z, n)
    {
      assert RecordIsTracked(y, n);
    }
  }

  lemma StepIsTracked(y: System, e: Event)
    requires WorkIsTracked(y) && Enabled(y, e)
    ensures WorkIsTracked(Next(y, e))
  {
    match e {
      case SecretWritten(key, secret) => ChangeIsTracked(y, y.secrets[key := secret], key, None);
      case SecretRemoved(key) => ChangeIsTracked(y, y.secrets - {key}, key, None);
      case Wrote(name) => WriteIsTracked(y, name);
      case Finished(name, success) => FinishIsTracked(y, name, success);
      case _ => QuietStepIsTracked(y, e);
    }
  }

  /** Stale implies queued, over all runs: from a start where every registry is queued, at every
      later moment each live registry neither queued nor running was last successfully reconciled
      with its current spec and its current credentials; and if nobody has touched its footprint
      since that reconcile planned, exactly what is planned for those credentials is in place. */
  lemma {:induction false} StaleImpliesQueued(states: seq<System>, events: seq<Event>, i: nat)
    requires IsRun(states, events) && i < |states|
    requires states[0].registries.Keys <= states[0].queue && states[0].running == map[] && states[0].synced == map[]
    ensures UnsettledIsQueued(states[i]) && WorkIsTracked(states[i])
    ensures
      var y := states[i];
      forall n :: n in y.registries && n !in y.queue && n !in y.running ==>
        && UpToDate(y, n)
        && var record := y.synced[n];
           && PlannedFrom(record.inputs, record.credentials, y.registries[n], n, record.want)
           && (!record.disturbed ==> Stale(y.secrets, record.want) == {} && Obsolete(y.secrets, record.want, n) == {})
  {
    if i == 0 {
      assert UnsettledIsQueued(states[0]);
    } else {
      StaleImpliesQueued(states, events, i - 1);
      StepKeepsSettled(states[i - 1], events[i - 1]);
      StepIsTracked(states[i - 1], events[i - 1]);
    }
    forall n | n in states[i].registries && n !in states[i].queue && n !in states[i].running
      ensures UpToDate(states[i], n) && RecordIsTracked(states[i], n)
    {
      assert Settled(states[i], n);
    }
  }

  /** The map function queues exactly the woken registries, provided it could list them. */
  lemma RequestsAreWoken(items: seq<Registry>, registries: map<string, Spec>, key: Key)
    requires forall n, spec :: Registry(n, spec) in items <==> n in registries && registries[n] == spec
    ensures ToSet(Requests(items, key)) == Woken(registries, key)
  {
    RequestsMeaning(items, key);
    forall n
      ensures n in Requests(items, key) <==> n in Woken(registries, key)
    {
      if r :| r in items && r.name == n && References(r.spec, key) {
        assert Registry(r.name, r.spec) in items;
      }
      if n in Woken(registries, key) {
        assert Registry(n, registries[n]) in items;
      }
    }
  }
}
