/** The code keeps what is promised: the connection between plans and attempts on one side and
    resource fields and Secrets on the other. */
module Delivery {
  import opened Collections
  import opened Model
  import opened Names
  import opened Planner
  import opened Validation
  import opened CredentialSource
  import opened Replication
  import opened Secrets
  import opened Attempts
  import opened Retries
  import opened Promises

  // ------------------------------------------------------------- the plan

  /** The name planned in a namespace is the promised one. */
  lemma NameIsPromised(selection: Selection, host: string, base: string, k: Key)
    requires DistinctNamespaces(selection.overrides)
    requires base == if selection.targetSecretName != "" then selection.targetSecretName
                     else Candidate(host) + "-pull-secret"
    ensures NameFor(selection, base, k.namespace) == k.name <==> NamedFor(selection, host, k)
  {
    OverrideMapMeaning(selection.overrides);
    if k.namespace in OverrideMap(selection.overrides) {
      assert Override(k.namespace, OverrideMap(selection.overrides)[k.namespace]) in selection.overrides;
    }
  }

  lemma BaseIsPromised(lib: Library, selection: Selection, server: string)
    requires BaseName(lib, selection, server).Ok?
    ensures
      var host := NormalizeRegistryHost(lib, server);
      && host.Ok?
      && BaseName(lib, selection, server).value ==
           if selection.targetSecretName != "" then selection.targetSecretName
           else Candidate(host.value) + "-pull-secret"
  {
  }

  /** A key is planned exactly when it is targeted. */
  lemma PlanIsPromised(inputs: Inputs, c: Credentials, k: Key)
    requires Renders(inputs, c) && DistinctNamespaces(inputs.Selection().overrides)
    ensures
      var host := NormalizeRegistryHost(inputs.lib, c.server);
      && host.Ok?
      && (k in Want(inputs, c) <==>
            Targeted(inputs.Selection(), inputs.policy.excluded, inputs.namespaces, host.value, k))
  {
    BaseIsPromised(inputs.lib, inputs.Selection(), c.server);
    var host := NormalizeRegistryHost(inputs.lib, c.server).value;
    NameIsPromised(inputs.Selection(), host, BaseName(inputs.lib, inputs.Selection(), c.server).value, k);
  }

  ghost predicate PlansIn(inputs: Inputs, c: Credentials, ns: string)
    requires Renders(inputs, c)
  {
    exists k :: k in Want(inputs, c) && k.namespace == ns
  }

  /** For an accepted Inclusive registry the namespaces planned are exactly the listed ones that
      exist; for an Exclusive one exactly those that exist and are neither listed nor excluded.
      Each gets one Secret: under the override's name if there is one, else under the explicit
      name, else under the derived one. */
  lemma PlanSpelledOut(inputs: Inputs, c: Credentials, s: Store)
    requires Plannable(inputs, c, s)
    ensures
      var selection := inputs.Selection();
      && (selection.policy == "Inclusive" ==>
            forall ns :: PlansIn(inputs, c, ns) <==> ns in selection.namespaces && ns in inputs.namespaces)
      && (selection.policy == "Exclusive" ==>
            forall ns :: PlansIn(inputs, c, ns) <==>
              ns in inputs.namespaces && ns !in selection.namespaces && ns !in inputs.policy.excluded)
      && (selection.policy == "Inclusive" || selection.policy == "Exclusive")
    ensures forall j, k :: j in Want(inputs, c) && k in Want(inputs, c) && j.namespace == k.namespace ==> j == k
    ensures
      var selection, host := inputs.Selection(), NormalizeRegistryHost(inputs.lib, c.server);
      forall k :: k in Want(inputs, c) ==>
        && (forall o :: o in selection.overrides && o.namespace == k.namespace ==> k.name == o.secretName)
        && ((forall o :: o in selection.overrides ==> o.namespace != k.namespace) ==>
              && host.Ok?
              && k.name == if selection.targetSecretName != "" then selection.targetSecretName
                           else Candidate(host.value) + "-pull-secret")
  {
    var selection := inputs.Selection();
    var base := BaseName(inputs.lib, selection, c.server).value;
    BaseIsPromised(inputs.lib, selection, c.server);
    OverrideMapMeaning(selection.overrides);
    forall ns
      ensures PlansIn(inputs, c, ns) <==>
                ns in inputs.namespaces && NamespaceSelected(selection, inputs.policy.excluded, ns)
    {
      if ns in inputs.namespaces && NamespaceSelected(selection, inputs.policy.excluded, ns) {
        assert Key(ns, NameFor(selection, base, ns)) in Want(inputs, c);
      }
    }
  }

  /** In an accepted registry every override counts: the exclusions leave all of them alone, so
      whether its namespace gets the Secret it names is up to the selection, and the namespace
      gets no other. */
  lemma OverridesTakeEffect(inputs: Inputs, c: Credentials, s: Store, o: Override)
    requires Plannable(inputs, c, s) && o in inputs.Selection().overrides
    ensures
      Key(o.namespace, o.secretName) in Want(inputs, c) <==>
        && o.namespace in inputs.namespaces
        && (o.namespace in inputs.Selection().namespaces <==> inputs.Selection().policy == "Inclusive")
    ensures forall k :: k in Want(inputs, c) && k.namespace == o.namespace ==> k.name == o.secretName
  {
    PlanIsPromised(inputs, c, Key(o.namespace, o.secretName));
    PlanSpelledOut(inputs, c, s);
  }

  /** The desired count of an accepted Inclusive registry is the number of listed namespaces that
      exist, and no key of its plan has a slash in its namespace. */
  lemma InclusiveCount(inputs: Inputs, c: Credentials, s: Store)
    requires Plannable(inputs, c, s) && inputs.Selection().policy == "Inclusive"
    ensures |Want(inputs, c)| == |set ns | ns in inputs.Selection().namespaces && ns in inputs.namespaces|
    ensures (forall ns :: ns in inputs.Selection().namespaces ==> ns in inputs.namespaces) ==>
              |Want(inputs, c)| == |inputs.Selection().namespaces|
    ensures forall k :: k in Want(inputs, c) ==> '/' !in k.namespace
  {
    var keys, listed := Want(inputs, c).Keys, inputs.Selection().namespaces;
    assert |Want(inputs, c)| == |keys|;
    InclusiveNamespaces(inputs, c, s);
    OnePerNamespace(keys);
    if forall ns :: ns in listed ==> ns in inputs.namespaces {
      NoDupIffCardinality(listed);
      assert (set ns | ns in listed && ns in inputs.namespaces) == ToSet(listed);
    }
  }

  lemma InclusiveNamespaces(inputs: Inputs, c: Credentials, s: Store)
    requires Plannable(inputs, c, s) && inputs.Selection().policy == "Inclusive"
    ensures
      var keys, listed := Want(inputs, c).Keys, inputs.Selection().namespaces;
      && NoDup(listed)
      && (set k | k in keys :: k.namespace) == (set ns | ns in listed && ns in inputs.namespaces)
      && (forall j, k :: j in keys && k in keys && j.namespace == k.namespace ==> j == k)
      && (forall k :: k in keys ==> '/' !in k.namespace)
  {
    PlanSpelledOut(inputs, c, s);
    var keys, listed := Want(inputs, c).Keys, inputs.Selection().namespaces;
    forall ns
      ensures PlansIn(inputs, c, ns) <==> ns in set k | k in keys :: k.namespace
    {
    }
    forall k | k in keys
      ensures '/' !in k.namespace
    {
      assert PlansIn(inputs, c, k.namespace);
      assert IsDNS1123Label(k.namespace);
      assert !IsLabelChar('/');
    }
  }

  lemma {:induction false} OnePerNamespace(keys: set<Key>)
    requires forall j, k :: j in keys && k in keys && j.namespace == k.namespace ==> j == k
    ensures |set k | k in keys :: k.namespace| == |keys|
    decreases |keys|
  {
    if keys != {} {
      var k :| k in keys;
      var rest := keys - {k};
      OnePerNamespace(rest);
      var namespaces := set j | j in rest :: j.namespace;
      assert k.namespace !in namespaces;
      assert (set j | j in keys :: j.namespace) == namespaces + {k.namespace};
    }
  }

  // ------------------------------------------------------------ acceptance

  lemma OwnIsFree(s: Store, k: Key, name: string)
    ensures !Foreign(s, k, name) <==> Free(s, k, name)
  {
  }

  /** What the validator decides, field by field. */
  lemma AcceptsExactly(lib: Library, registry: Registry, c: Credentials, policy: Policy, s: Store)
    ensures
      var selection, host := registry.spec.selection, NormalizeRegistryHost(lib, c.server);
      Accepts(lib, registry, c, policy, s) <==>
        && WellFormed(selection, policy.excluded)
        && Nameable(lib, selection, c.server)
        && ChecksFree(selection, host.value, s, registry.name)
  {
    var selection := registry.spec.selection;
    FormExactly(selection, policy.excluded);
    if WellFormed(selection, policy.excluded) {
      NameResolvesExactly(lib, selection, c.server);
      if NameResolves(lib, selection, c.server) {
        BaseIsPromised(lib, selection, c.server);
        var host, base := NormalizeRegistryHost(lib, c.server).value, BaseName(lib, selection, c.server).value;
        TargetsAreFreeExactly(selection, policy.excluded, host, base, s, registry.name);
      }
    }
  }

  lemma FormExactly(selection: Selection, excluded: seq<string>)
    ensures ValidSelection(selection) && RespectsExclusions(selection, excluded) <==> WellFormed(selection, excluded)
  {
  }

  lemma TargetsAreFreeExactly(selection: Selection, excluded: seq<string>, host: string, base: string, s: Store,
                              name: string)
    requires WellFormed(selection, excluded)
    requires base == if selection.targetSecretName != "" then selection.targetSecretName
                     else Candidate(host) + "-pull-secret"
    ensures
      var seen := Targets(selection, excluded, base, ToSet(Mentioned(selection, excluded)));
      (forall k :: k in seen ==> !Foreign(s, k, name)) <==> ChecksFree(selection, host, s, name)
  {
    var seen := Targets(selection, excluded, base, ToSet(Mentioned(selection, excluded)));
    forall k: Key
      ensures k in seen <==>
              && NameFor(selection, base, k.namespace) == k.name
              && (if selection.policy == "Inclusive" then k.namespace in selection.namespaces
                  else k.namespace !in selection.namespaces
                       && exists o :: o in selection.overrides && o.namespace == k.namespace)
      ensures NameFor(selection, base, k.namespace) == k.name <==> NamedFor(selection, host, k)
      ensures !Foreign(s, k, name) <==> Free(s, k, name)
    {
      MentionedMeaning(selection, excluded, k.namespace);
      NameIsPromised(selection, host, base, k);
      OwnIsFree(s, k, name);
    }
    if selection.policy != "Inclusive" {
      forall o | o in selection.overrides
        ensures NamedFor(selection, host, Key(o.namespace, o.secretName))
      {
      }
    }
  }

  // --------------------------------------------------------------- success

  lemma ReplicaIsPromised(lib: Library, name: string, c: Credentials)
    requires DockerConfigJSON(lib, c).Ok?
    ensures
      var rendered := DockerConfigJSON(lib, c).value;
      DockerConfigOf(lib, c, rendered) && BuildPullSecret(name, c, rendered) == Replica(name, c.server, rendered)
  {
  }

  /** When a reconcile whose calls all work succeeds, in the same terms: the registry is accepted,
      there are a user and a password, and their docker config can be marshalled. */
  lemma PlannableExactly(inputs: Inputs, c: Credentials, s: Store)
    ensures
      var selection, host := inputs.Selection(), NormalizeRegistryHost(inputs.lib, c.server);
      Plannable(inputs, c, s) <==>
        && WellFormed(selection, inputs.policy.excluded)
        && Nameable(inputs.lib, selection, c.server)
        && ChecksFree(selection, host.value, s, inputs.registry.name)
        && c.username != "" && c.password != ""
        && exists rendered :: DockerConfigOf(inputs.lib, c, rendered)
  {
    AcceptsExactly(inputs.lib, inputs.registry, c, inputs.policy, s);
    PlanningDecides(inputs, c, s);
    PayloadIsPromised(inputs.lib, c);
  }

  lemma PayloadIsPromised(lib: Library, c: Credentials)
    ensures lib.marshal(Payload(lib, c)).Some? <==> exists rendered :: DockerConfigOf(lib, c, rendered)
  {
    if lib.marshal(Payload(lib, c)).Some? {
      assert DockerConfigOf(lib, c, lib.marshal(Payload(lib, c)).value);
    }
  }

  /** The rendered payload tells everything: with an injective marshaller, whatever payload is
      marshalled to a replica's data has the server, user, password and email of the credentials,
      and their auth entry, or the encoded user and password if they have none. */
  lemma PayloadIsReadBack(lib: Library, c: Credentials, p: DockerAuth)
    requires Injective(lib) && DockerConfigJSON(lib, c).Ok? && lib.marshal(p) == Some(DockerConfigJSON(lib, c).value)
    ensures p.server == c.server && p.username == c.username && p.password == c.password && p.email == c.email
    ensures p.auth == if c.auth != "" then c.auth else lib.base64(c.username + ":" + c.password)
  {
    assert lib.marshal(Payload(lib, c)) == lib.marshal(p);
  }

  /** The registry's Secrets are the wanted ones and nothing else has changed. */
  ghost predicate Converged(want: map<Key, Content>, name: string, s: Store, t: Store) {
    && Owned(t, name) == want.Keys
    && (forall k :: k in want ==> t[k] == Secret(want[k], Other(s, k)))
    && (forall k :: k in Owned(s, name) && k !in want ==> k !in t)
    && (forall k :: k !in want && k !in Owned(s, name) ==> (k in t <==> k in s) && (k in s ==> t[k] == s[k]))
  }

  lemma OwnedIsLabelled(s: Store, name: string, k: Key)
    ensures k in Owned(s, name) <==> k in s && LabelledFor(s[k], name)
  {
  }

  lemma ConvergedKey(want: map<Key, Content>, name: string, s: Store, t: Store, replica: Content, k: Key)
    requires Converged(want, name, s, t) && (k in want ==> want[k] == replica)
    ensures KeyDelivered(k in want, replica, name, s, t, k)
  {
    OwnedIsLabelled(s, name, k);
    assert k in Owned(t, name) <==> k in want;
  }

  lemma ConvergedIsDelivered(inputs: Inputs, c: Credentials, s: Store, t: Store)
    requires Renders(inputs, c) && DistinctNamespaces(inputs.Selection().overrides)
    requires Converged(Want(inputs, c), inputs.registry.name, s, t)
    ensures Delivered(inputs.lib, inputs.registry, inputs.policy.excluded, inputs.namespaces, c, s, t)
  {
    var name, rendered := inputs.registry.name, DockerConfigJSON(inputs.lib, c).value;
    ReplicaIsPromised(inputs.lib, name, c);
    BaseIsPromised(inputs.lib, inputs.Selection(), c.server);
    var host := NormalizeRegistryHost(inputs.lib, c.server).value;
    forall k
      ensures KeyDelivered(Targeted(inputs.Selection(), inputs.policy.excluded, inputs.namespaces, host, k),
                           Replica(name, c.server, rendered), name, s, t, k)
    {
      PlanIsPromised(inputs, c, k);
      ConvergedKey(Want(inputs, c), name, s, t, Replica(name, c.server, rendered), k);
    }
  }

  /** A success delivers what is promised, for any registry, credentials, exclusions, namespaces
      and Secrets. */
  lemma SuccessDelivers(inputs: Inputs, c: Credentials, s: Store, a: Attempt, t: Store)
    requires CredentialsIn(inputs.registry.spec, s) == Ok(c) && Reconciles(inputs, s, a, t) && a.Succeeded()
    ensures Delivered(inputs.lib, inputs.registry, inputs.policy.excluded, inputs.namespaces, c, s, t)
  {
    SuccessConverges(inputs, c, s, a, t);
    ConvergedIsDelivered(inputs, c, s, t);
  }

  /** An attempt that is cut off, or whose last write took effect unreported, leaves every key as
      it was or as promised; if it never got to write, all of them as they were. */
  lemma AttemptPartlyDelivers(inputs: Inputs, c: Credentials, s: Store, a: Attempt, t: Store)
    requires CredentialsIn(inputs.registry.spec, s) == Ok(c) && Reconciles(inputs, s, a, t) && a.Ran?
    ensures PartlyDelivered(inputs.lib, inputs.registry, inputs.policy.excluded, inputs.namespaces, c, s, t)
  {
    var want, name := Want(inputs, c), inputs.registry.name;
    RunProgress(want, name, s, a, t);
    PatchPartlyDelivers(inputs, c, s, PutBy(a.puts, a.done), GoneBy(a.puts, a.deletes, a.done));
  }

  lemma PatchPartlyDelivers(inputs: Inputs, c: Credentials, s: Store, put: set<Key>, gone: set<Key>)
    requires Renders(inputs, c) && DistinctNamespaces(inputs.Selection().overrides)
    requires put <= Stale(s, Want(inputs, c)) && gone <= Obsolete(s, Want(inputs, c), inputs.registry.name)
    ensures PartlyDelivered(inputs.lib, inputs.registry, inputs.policy.excluded, inputs.namespaces, c, s,
                            Patch(s, Want(inputs, c), put, gone))
  {
    var want, name, rendered := Want(inputs, c), inputs.registry.name, DockerConfigJSON(inputs.lib, c).value;
    var t, replica := Patch(s, want, put, gone), Replica(name, c.server, rendered);
    ReplicaIsPromised(inputs.lib, name, c);
    BaseIsPromised(inputs.lib, inputs.Selection(), c.server);
    var host := NormalizeRegistryHost(inputs.lib, c.server).value;
    forall k
      ensures SameAt(s, t, k)
              || KeyDelivered(Targeted(inputs.Selection(), inputs.policy.excluded, inputs.namespaces, host, k),
                              replica, name, s, t, k)
    {
      PlanIsPromised(inputs, c, k);
      PatchedKey(want, name, s, put, gone, replica, k);
    }
  }

  lemma PatchedKey(want: map<Key, Content>, name: string, s: Store, put: set<Key>, gone: set<Key>, replica: Content,
                   k: Key)
    requires put <= Stale(s, want) && gone <= Obsolete(s, want, name) && (k in want ==> want[k] == replica)
    ensures
      var t := Patch(s, want, put, gone);
      SameAt(s, t, k) || KeyDelivered(k in want, replica, name, s, t, k)
  {
    OwnedIsLabelled(s, name, k);
    if k in gone {
      assert k in Obsolete(s, want, name);
    } else if k in put {
      assert k in Stale(s, want);
    }
  }

  /** The two together, for any attempt. */
  lemma AttemptKeepsPromises(inputs: Inputs, policy: Option<Policy>, s: Store, a: Attempt, t: Store)
    requires Reconciles(inputs, s, a, t) && inputs.policy.excluded == Excluded(policy)
    ensures KeepsPromises(inputs.lib, inputs.registry, policy, inputs.namespaces,
                          CredentialsIn(inputs.registry.spec, s), s, t, a.Succeeded())
  {
    if a.Ran? {
      var c := CredentialsIn(inputs.registry.spec, s).value;
      AttemptPartlyDelivers(inputs, c, s, a, t);
      if a.Succeeded() {
        SuccessDelivers(inputs, c, s, a, t);
      }
    }
  }

  /** No attempt, whether it fails or not, puts or changes a Secret in an excluded namespace, and
      after a success none of the registry's Secrets is left there. */
  lemma ExcludedStayEmpty(inputs: Inputs, s: Store, a: Attempt, t: Store)
    requires Reconciles(inputs, s, a, t)
    ensures forall k :: k in t && k.namespace in inputs.policy.excluded ==> k in s && t[k] == s[k]
    ensures a.Succeeded() ==>
              forall k :: k in t && k.namespace in inputs.policy.excluded ==> !LabelledFor(t[k], inputs.registry.name)
  {
    if a.Ran? {
      var c, name := CredentialsIn(inputs.registry.spec, s).value, inputs.registry.name;
      RunProgress(Want(inputs, c), name, s, a, t);
      NothingPlannedWhereExcluded(inputs, c);
      PatchElsewhereIsOld(s, Want(inputs, c), PutBy(a.puts, a.done), GoneBy(a.puts, a.deletes, a.done));
      if a.Succeeded() {
        SuccessConverges(inputs, c, s, a, t);
        forall k | k in t && LabelledFor(t[k], name)
          ensures k in Want(inputs, c)
        {
          OwnedIsLabelled(t, name, k);
        }
      }
    }
  }

  lemma NothingPlannedWhereExcluded(inputs: Inputs, c: Credentials)
    requires Renders(inputs, c)
    ensures forall k :: k in Want(inputs, c) ==> k.namespace !in inputs.policy.excluded
  {
  }

  lemma PatchElsewhereIsOld(s: Store, want: map<Key, Content>, put: set<Key>, gone: set<Key>)
    requires put <= want.Keys
    ensures forall k :: k in Patch(s, want, put, gone) && k !in want ==> k in s && Patch(s, want, put, gone)[k] == s[k]
  {
  }
}
