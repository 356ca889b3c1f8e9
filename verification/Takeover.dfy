/** What Exclusive registries do to Secrets that are not theirs: the validator sees only the
    namespaces a registry or the policy mentions, and this is where it matters. */
module Takeover {
  import opened Collections
  import opened Model
  import opened Names
  import opened Planner
  import opened Validation
  import opened CredentialSource
  import opened Replication
  import opened Secrets
  import opened Attempts
  import opened Retries
  import opened Registries

  /** What a success does to a Secret that is not the registry's, under any selection policy: a
      planned one is taken over, any other is left as it was. */
  lemma SuccessAndForeignSecrets(inputs: Inputs, c: Credentials, s: Store, a: Attempt, t: Store, k: Key)
    requires CredentialsIn(inputs.registry.spec, s) == Ok(c) && Reconciles(inputs, s, a, t) && a.Succeeded()
    requires Foreign(s, k, inputs.registry.name)
    ensures k in t
    ensures t[k] == s[k] <==> k !in Want(inputs, c)
    ensures OwnedBy(t[k].content, inputs.registry.name) <==> k in Want(inputs, c)
  {
    SuccessConverges(inputs, c, s, a, t);
  }

  // --------------------------------------------- the boundary for Exclusive

  /** In every cluster the registry plans from, every key an attempt is to put or to delete is
      absent or the registry's own. */
  ghost predicate WritesOnlyItsOwn(inputs: Inputs, c: Credentials) {
    forall s, a, t, k ::
      CredentialsIn(inputs.registry.spec, s) == Ok(c) && Reconciles(inputs, s, a, t) && IsDueIn(a, k) ==>
      !Foreign(s, k, inputs.registry.name)
  }

  predicate IsDueIn(a: Attempt, k: Key) {
    a.Ran? && (k in a.puts || k in a.deletes)
  }

  predicate NamedByOverride(selection: Selection, ns: string) {
    exists o :: o in selection.overrides && o.namespace == ns
  }

  predicate EveryTargetNamed(inputs: Inputs) {
    forall ns :: ns in inputs.namespaces && NamespaceSelected(inputs.Selection(), inputs.policy.excluded, ns) ==>
      NamedByOverride(inputs.Selection(), ns)
  }

  /** An Exclusive registry that plans at all writes only what is its own if and only if every
      selected namespace of the cluster is named by an override. */
  lemma ExclusiveWritesExactly(inputs: Inputs, c: Credentials, s: Store)
    requires inputs.Selection().policy == EXCLUSIVE
    requires CredentialsIn(inputs.registry.spec, s) == Ok(c) && Plannable(inputs, c, s)
    ensures WritesOnlyItsOwn(inputs, c) <==> EveryTargetNamed(inputs)
  {
    if EveryTargetNamed(inputs) {
      forall s', a, t, k |
        CredentialsIn(inputs.registry.spec, s') == Ok(c) && Reconciles(inputs, s', a, t) && IsDueIn(a, k)
        ensures !Foreign(s', k, inputs.registry.name)
      {
        NamedTargetsAreOwn(inputs, c, s', a, t, k);
      }
    } else {
      var ns :| ns in inputs.namespaces && NamespaceSelected(inputs.Selection(), inputs.policy.excluded, ns)
        && !NamedByOverride(inputs.Selection(), ns);
      var s', a, t, k := UnnamedTargetIsTaken(inputs, c, s, ns);
      assert IsDueIn(a, k);
    }
  }

  lemma NamedTargetsAreOwn(inputs: Inputs, c: Credentials, s: Store, a: Attempt, t: Store, k: Key)
    requires EveryTargetNamed(inputs)
    requires CredentialsIn(inputs.registry.spec, s) == Ok(c) && Reconciles(inputs, s, a, t) && IsDueIn(a, k)
    ensures !Foreign(s, k, inputs.registry.name)
  {
    var want, name := Want(inputs, c), inputs.registry.name;
    if k in a.puts {
      assert k in ToSet(a.puts);
      MentionedMeaning(inputs.Selection(), inputs.policy.excluded, k.namespace);
      assert NamedByOverride(inputs.Selection(), k.namespace);
      assert k in SeenTargets(inputs, c);
    } else {
      assert k in ToSet(a.deletes);
    }
  }

  /** A Secret with the data it had and no labels. */
  function Unlabelled(s: Store, k: Key): Secret {
    Secret(Content(map[], "", if k in s then s[k].content.data else map[]), Other(s, k))
  }

  /** Where no override names a selected namespace, there is a cluster in which a Secret nobody
      manages is written. */
  lemma UnnamedTargetIsTaken(inputs: Inputs, c: Credentials, s: Store, ns: string)
    returns (s': Store, a: Attempt, t: Store, k: Key)
    requires inputs.Selection().policy == EXCLUSIVE
    requires CredentialsIn(inputs.registry.spec, s) == Ok(c) && Plannable(inputs, c, s)
    requires ns in inputs.namespaces && NamespaceSelected(inputs.Selection(), inputs.policy.excluded, ns)
    requires !NamedByOverride(inputs.Selection(), ns)
    ensures CredentialsIn(inputs.registry.spec, s') == Ok(c) && Reconciles(inputs, s', a, t) && a.Succeeded()
    ensures k in a.puts && Foreign(s', k, inputs.registry.name) && !Managed(s'[k].content)
  {
    var want, name := Want(inputs, c), inputs.registry.name;
    k := Key(ns, NameFor(inputs.Selection(), BaseName(inputs.lib, inputs.Selection(), c.server).value, ns));
    s' := s[k := Unlabelled(s, k)];
    assert k in want;
    MentionedMeaning(inputs.Selection(), inputs.policy.excluded, ns);
    UnseenKeyIsUnchecked(inputs, c, s, k, s');
    SameDataSameCredentials(inputs.registry.spec, s, k, Unlabelled(s, k));
    a, t := SomeSuccess(inputs, c, s');
    assert k in Stale(s', want);
    assert k in ToSet(a.puts);
  }

  /** Labels do not matter to the credentials. */
  lemma SameDataSameCredentials(spec: Spec, s: Store, k: Key, secret: Secret)
    requires CredentialsIn(spec, s).Ok?
    requires k in s ==> secret.content.data == s[k].content.data
    ensures CredentialsIn(spec, s[k := secret]) == CredentialsIn(spec, s)
  {
  }

  lemma SomeSuccess(inputs: Inputs, c: Credentials, s: Store) returns (a: Attempt, t: Store)
    requires CredentialsIn(inputs.registry.spec, s) == Ok(c) && Plannable(inputs, c, s)
    ensures Reconciles(inputs, s, a, t) && a.Succeeded()
    ensures ToSet(a.puts) == Stale(s, Want(inputs, c))
  {
    var want := Want(inputs, c);
    var puts := SomeListing(Stale(s, want));
    var deletes := SomeListing(Obsolete(s, want, inputs.registry.name));
    var n := |puts| + |deletes|;
    RunsExist(want, inputs.registry.name, s, puts, deletes, n);
    a, t := CleanRun(|want|, puts, deletes, n), After(s, want, puts, deletes, n);
  }

  // --------------------------------------------------- without overrides

  /** An Exclusive registry without overrides is not checked against the cluster at all. */
  lemma NothingIsSeenWithoutOverrides(inputs: Inputs, c: Credentials, s: Store, t: Store)
    requires inputs.Selection().policy == EXCLUSIVE && inputs.Selection().overrides == []
    requires Plannable(inputs, c, s)
    ensures SeenTargets(inputs, c) == {}
    ensures Plannable(inputs, c, t)
  {
    forall ns | ns in Mentioned(inputs.Selection(), inputs.policy.excluded)
      ensures !NamespaceSelected(inputs.Selection(), inputs.policy.excluded, ns)
    {
      MentionedMeaning(inputs.Selection(), inputs.policy.excluded, ns);
    }
  }

  /** Two such registries planning the same key take it from each other on every success, and
      both keep validating: the owner changes without the key ever being absent, and after the
      second success everything is set for the first to take it back. */
  lemma ExclusiveRegistriesTakeFromEachOther(p: Inputs, cp: Credentials, q: Inputs, cq: Credentials, k: Key,
                                             s: Store, a: Attempt, t: Store, b: Attempt, u: Store)
    requires p.Selection().policy == EXCLUSIVE && p.Selection().overrides == []
    requires q.Selection().policy == EXCLUSIVE && q.Selection().overrides == []
    requires p.registry.name != q.registry.name
    requires CredentialsIn(p.registry.spec, s) == Ok(cp) && Reconciles(p, s, a, t) && a.Succeeded()
    requires CredentialsIn(q.registry.spec, t) == Ok(cq) && Reconciles(q, t, b, u) && b.Succeeded()
    requires k in Want(p, cp) && k in Want(q, cq)
    ensures k in t && OwnedBy(t[k].content, p.registry.name)
    ensures k in u && OwnedBy(u[k].content, q.registry.name)
    ensures !LabelsLeftAlone(t, u)
    ensures Plannable(p, cp, u) && Plannable(q, cq, u)
  {
    SuccessConverges(p, cp, s, a, t);
    SuccessConverges(q, cq, t, b, u);
    NothingIsSeenWithoutOverrides(p, cp, s, u);
    NothingIsSeenWithoutOverrides(q, cq, t, u);
    assert Managed(u[k].content) && Owner(t[k].content) != Owner(u[k].content);
  }

  // ---------------------------------------------------------------- cases

  /** An Exclusive registry for the host ghcr in a cluster with the one namespace "a". */
  function Everywhere(credentials: Option<Credentials>, ref: Option<Key>): Inputs {
    var lib := Library(_ => Some("ghcr"), text => text, _ => Some("{}"));
    Inputs(lib, Registry("r", Spec(credentials, ref, Selection(EXCLUSIVE, [], "", []))), Policy([]), ["a"])
  }

  const GHCR := Credentials("ghcr", "u", "p", "", "")

  const PLANNED := Key("a", "ghcr" + PULL_SECRET_SUFFIX)

  lemma EverywherePlans(credentials: Option<Credentials>, ref: Option<Key>, s: Store)
    ensures
      var inputs := Everywhere(credentials, ref);
      Plannable(inputs, GHCR, s) && Want(inputs, GHCR).Keys == {PLANNED}
  {
    var inputs := Everywhere(credentials, ref);
    var selection := inputs.Selection();
    NameOfGhcr(inputs.lib, GHCR);
    HostGhcr(inputs.lib);
    UndottedHostIsKept("ghcr");
    var base := BaseName(inputs.lib, selection, "ghcr").value;
    assert base == PLANNED.name;
    OneNamespace(selection, base);
    assert Plannable(inputs, GHCR, map[]);
    NothingIsSeenWithoutOverrides(inputs, GHCR, map[], s);
  }

  /** A Secret nobody manages is there, the registry validates, and after its success the
      Secret is the registry's. */
  lemma ExclusiveOverwritesAForeignSecret() returns (inputs: Inputs, s: Store, a: Attempt, t: Store)
    ensures inputs == Everywhere(Some(GHCR), None) && s.Keys == {PLANNED} && !Managed(s[PLANNED].content)
    ensures Accepts(inputs.lib, inputs.registry, GHCR, inputs.policy, s)
    ensures Reconciles(inputs, s, a, t) && a.Succeeded()
    ensures PLANNED in t && OwnedBy(t[PLANNED].content, "r") && t[PLANNED].content.data != s[PLANNED].content.data
  {
    inputs := Everywhere(Some(GHCR), None);
    s := map[PLANNED := Unlabelled(map[], PLANNED)];
    EverywherePlans(Some(GHCR), None, s);
    a, t := SomeSuccess(inputs, GHCR, s);
    SuccessConverges(inputs, GHCR, s, a, t);
    BuiltSecretHolds("r", GHCR, DockerConfigJSON(inputs.lib, GHCR).value);
  }

  /** The registry's own credentials Secret stands where a replica is planned: the registry
      validates, succeeds, and has no credentials any more. */
  lemma ExclusiveOverwritesItsSource() returns (inputs: Inputs, s: Store, a: Attempt, t: Store)
    ensures inputs == Everywhere(None, Some(PLANNED)) && s.Keys == {PLANNED} && !Managed(s[PLANNED].content)
    ensures CredentialsIn(inputs.registry.spec, s) == Ok(GHCR)
    ensures Accepts(inputs.lib, inputs.registry, GHCR, inputs.policy, s)
    ensures Reconciles(inputs, s, a, t) && a.Succeeded()
    ensures CredentialsIn(inputs.registry.spec, t).Err?
  {
    inputs := Everywhere(None, Some(PLANNED));
    var source := Secret(Content(map[], "Opaque", SourceData(GHCR)), NOTHING_ELSE);
    s := map[PLANNED := source];
    GhcrIsTight();
    SourceRoundTrip(GHCR, source);
    EverywherePlans(None, Some(PLANNED), s);
    a, t := SomeSuccess(inputs, GHCR, s);
    ReadyIsExact(inputs, GHCR, s, a, t);
  }

  lemma GhcrIsTight()
    ensures Tight("ghcr") && Tight("u") && Tight("p") && Tight("")
  {
  }
}
