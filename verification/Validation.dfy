/** Semantic validation of a registry resource: the code's loops, and what they decide. */
module Validation {
  import opened Collections
  import opened Model
  import opened Names
  import opened Planner

  // --------------------------------------------------- validation errors

  /** `IsValidationError`: errors.As looks through every wrapper. */
  predicate IsValidationError(e: Error) {
    match e
    case Plain(_) => false
    case Wrapped(_, cause) => IsValidationError(cause)
    case ValidationError(_) => true
    case Joined(first, second) => IsValidationError(first) || IsValidationError(second)
  }

  /** `asValidationError` on a non-nil error. */
  function AsValidationError(e: Error): (r: Error)
    ensures IsValidationError(r)
    ensures IsValidationError(e) ==> r == e
  {
    if IsValidationError(e) then e else ValidationError(e)
  }

  function WrapAll(contexts: seq<string>, e: Error): Error {
    if contexts == [] then e else Wrapped(contexts[0], WrapAll(contexts[1..], e))
  }

  /** Any number of `%w` wrappers keeps the verdict, both ways. */
  lemma {:induction false} WrappingKeepsVerdict(contexts: seq<string>, e: Error)
    ensures IsValidationError(WrapAll(contexts, e)) <==> IsValidationError(e)
    ensures AsValidationError(WrapAll(contexts, AsValidationError(e))) == WrapAll(contexts, AsValidationError(e))
  {
    if contexts != [] {
      WrappingKeepsVerdict(contexts[1..], e);
      assert IsValidationError(WrapAll(contexts[1..], AsValidationError(e))) by {
        WrappingKeepsVerdict(contexts[1..], AsValidationError(e));
      }
    }
  }

  // ------------------------------------------------ what acceptance means

  predicate NamespaceNames(namespaces: seq<string>) {
    NoDup(namespaces) && forall ns :: ns in namespaces ==> IsDNS1123Label(ns)
  }

  predicate OverrideEntries(overrides: seq<Override>) {
    && DistinctNamespaces(overrides)
    && forall o :: o in overrides ==> IsDNS1123Label(o.namespace) && GoodName(o.secretName)
  }

  predicate ValidSelection(selection: Selection) {
    && (selection.policy == INCLUSIVE || selection.policy == EXCLUSIVE)
    && (selection.targetSecretName == "" || GoodName(selection.targetSecretName))
    && NamespaceNames(selection.namespaces)
    && OverrideEntries(selection.overrides)
  }

  predicate RespectsExclusions(selection: Selection, excluded: seq<string>) {
    && (selection.policy == INCLUSIVE ==> forall ns :: ns in selection.namespaces ==> ns !in excluded)
    && forall o :: o in selection.overrides ==> o.namespace !in excluded
  }

  function OverrideNamespaces(overrides: seq<Override>): (r: seq<string>)
    ensures |r| == |overrides|
    ensures forall i :: 0 <= i < |r| ==> r[i] == overrides[i].namespace
  {
    seq(|overrides|, i requires 0 <= i < |overrides| => overrides[i].namespace)
  }

  /** Every namespace the registry or the policy mentions: all the validator ever sees of
      the cluster's namespaces. */
  function Mentioned(selection: Selection, excluded: seq<string>): seq<string> {
    selection.namespaces + OverrideNamespaces(selection.overrides) + excluded
  }

  ghost predicate NameResolves(lib: Library, selection: Selection, server: string) {
    var base := BaseName(lib, selection, server);
    base.Ok? && GoodName(base.value)
  }

  /** The declarative meaning of `ValidateRegistryPullSecret`. */
  ghost predicate Accepts(lib: Library, registry: Registry, credentials: Credentials, policy: Policy, existing: Store) {
    var selection := registry.spec.selection;
    && ValidSelection(selection)
    && RespectsExclusions(selection, policy.excluded)
    && NameResolves(lib, selection, credentials.server)
    && var base := BaseName(lib, selection, credentials.server).value;
       forall k :: k in Targets(selection, policy.excluded, base, ToSet(Mentioned(selection, policy.excluded))) ==>
         !Foreign(existing, k, registry.name)
  }

  // ------------------------------------------------------------ the code

  function ValidateNamespaceName(namespace: string): (err: Option<Error>)
    ensures err.None? <==> IsDNS1123Label(namespace)
    ensures err.Some? ==> !IsValidationError(err.value)
  {
    if '*' in namespace then
      assert IsLabelBody(namespace) ==> IsLabelChar('*');
      Some(Plain("wildcard namespace patterns are not supported"))
    else if !IsDNS1123Label(namespace) then Some(Plain("not a DNS-1123 label"))
    else None
  }

  method ValidateSelectedNamespaces(namespaces: seq<string>) returns (err: Option<Error>)
    ensures err.None? <==> NamespaceNames(namespaces)
  {
    var seen: set<string> := {};
    for i := 0 to |namespaces|
      invariant seen == ToSet(namespaces[..i])
      invariant NamespaceNames(namespaces[..i])
    {
      assert namespaces[..i + 1] == namespaces[..i] + [namespaces[i]];
      assert namespaces[i] in namespaces;
      var invalid := ValidateNamespaceName(namespaces[i]);
      if invalid.Some? {
        return Some(Wrapped("namespace is invalid", invalid.value));
      }
      if namespaces[i] in seen {
        return Some(Plain("namespace is duplicated in namespaces"));
      }
      seen := seen + {namespaces[i]};
    }
    assert namespaces[..|namespaces|] == namespaces;
    return None;
  }

  /** The policy's own validator. */
  method ValidatePullSecretPolicy(policy: Policy) returns (err: Option<Error>)
    ensures err.None? <==> NamespaceNames(policy.excluded)
    ensures err.Some? ==> IsValidationError(err.value)
  {
    var namespaces := policy.excluded;
    var seen: set<string> := {};
    for i := 0 to |namespaces|
      invariant seen == ToSet(namespaces[..i])
      invariant NamespaceNames(namespaces[..i])
    {
      assert namespaces[..i + 1] == namespaces[..i] + [namespaces[i]];
      assert namespaces[i] in namespaces;
      var invalid := ValidateNamespaceName(namespaces[i]);
      if invalid.Some? {
        return Some(AsValidationError(Wrapped("excluded namespace is invalid", invalid.value)));
      }
      if namespaces[i] in seen {
        return Some(AsValidationError(Plain("excluded namespace is duplicated")));
      }
      seen := seen + {namespaces[i]};
    }
    assert namespaces[..|namespaces|] == namespaces;
    return None;
  }

  method ValidateNamespaceOverrides(overrides: seq<Override>) returns (err: Option<Error>)
    ensures err.None? <==> OverrideEntries(overrides)
  {
    var seen: set<string> := {};
    for i := 0 to |overrides|
      invariant forall ns :: ns in seen <==> exists j :: 0 <= j < i && overrides[j].namespace == ns
      invariant OverrideEntries(overrides[..i])
    {
      var entry := overrides[i];
      assert overrides[..i + 1] == overrides[..i] + [entry];
      assert entry in overrides;
      var invalid := ValidateNamespaceName(entry.namespace);
      if invalid.Some? {
        return Some(Wrapped("namespace override is invalid", invalid.value));
      }
      if entry.namespace in seen {
        return Some(Plain("namespace override is duplicated"));
      }
      seen := seen + {entry.namespace};
      var badName := ValidatePullSecretName(entry.secretName);
      if badName.Some? {
        return Some(Wrapped("namespace override secretName is invalid", badName.value));
      }
    }
    assert overrides[..|overrides|] == overrides;
    return None;
  }

  method ValidateNamespaceSelection(selection: Selection) returns (err: Option<Error>)
    ensures err.None? <==> ValidSelection(selection)
  {
    if selection.policy != INCLUSIVE && selection.policy != EXCLUSIVE {
      return Some(Plain("namespace selection policy is invalid"));
    }
    if selection.targetSecretName != "" {
      var badName := ValidatePullSecretName(selection.targetSecretName);
      if badName.Some? {
        return Some(Wrapped("targetSecretName is invalid", badName.value));
      }
    }
    err := ValidateSelectedNamespaces(selection.namespaces);
    if err.Some? {
      return err;
    }
    err := ValidateNamespaceOverrides(selection.overrides);
  }

  method ValidateGloballyExcludedSelection(selection: Selection, excluded: seq<string>) returns (err: Option<Error>)
    ensures err.None? <==> RespectsExclusions(selection, excluded)
  {
    if selection.policy == INCLUSIVE {
      for i := 0 to |selection.namespaces|
        invariant forall j :: 0 <= j < i ==> selection.namespaces[j] !in excluded
      {
        if selection.namespaces[i] in excluded {
          return Some(Plain("namespace is explicitly selected but excluded by PullSecretPolicy"));
        }
      }
    }
    for i := 0 to |selection.overrides|
      invariant forall j :: 0 <= j < i ==> selection.overrides[j].namespace !in excluded
    {
      if selection.overrides[i].namespace in excluded {
        assert selection.overrides[i] in selection.overrides;
        return Some(Plain("namespace override is excluded by PullSecretPolicy"));
      }
    }
    return None;
  }

  method ValidateDefaultTargetSecretName(lib: Library, selection: Selection, server: string)
    returns (err: Option<Error>)
    ensures err.None? <==>
            if selection.targetSecretName == "" then NameResolves(lib, selection, server)
            else GoodName(selection.targetSecretName)
  {
    var name := selection.targetSecretName;
    if name == "" {
      var derived := DefaultTargetSecretName(lib, server);
      if derived.Err? {
        return Some(derived.error);
      }
      name := derived.value;
    }
    var badName := ValidatePullSecretName(name);
    if badName.Some? {
      return Some(Wrapped("default target pull secret name is invalid", badName.value));
    }
    return None;
  }

  /** The inventory's closure: append what has not been seen yet. */
  method AppendNamespace(known: seq<string>, seen: set<string>, namespace: string, ghost before: seq<string>)
    returns (known': seq<string>, seen': set<string>)
    requires known == Dedup(before) && seen == ToSet(known)
    ensures known' == Dedup(before + [namespace]) && seen' == ToSet(known')
  {
    DedupAppend(before, namespace);
    if namespace in seen {
      return known, seen;
    }
    known', seen' := known + [namespace], seen + {namespace};
    assert ToSet(known') == seen';
  }

  method AppendNamespaces(known: seq<string>, seen: set<string>, namespaces: seq<string>, ghost before: seq<string>)
    returns (known': seq<string>, seen': set<string>)
    requires known == Dedup(before) && seen == ToSet(known)
    ensures known' == Dedup(before + namespaces) && seen' == ToSet(known')
  {
    known', seen' := known, seen;
    assert before + namespaces[..0] == before;
    for i := 0 to |namespaces|
      invariant known' == Dedup(before + namespaces[..i]) && seen' == ToSet(known')
    {
      known', seen' := AppendNamespace(known', seen', namespaces[i], before + namespaces[..i]);
      assert before + namespaces[..i] + [namespaces[i]] == before + namespaces[..i + 1];
    }
    assert namespaces[..|namespaces|] == namespaces;
  }

  /** First occurrences of everything mentioned, in order. The source's three loops differ
      only in the list they walk. */
  method PolicyAwareNamespaceInventory(selection: Selection, policy: Policy) returns (known: seq<string>)
    ensures known == Dedup(Mentioned(selection, policy.excluded))
  {
    var overridden := OverrideNamespaces(selection.overrides);
    var seen: set<string> := {};
    known, seen := AppendNamespaces([], seen, selection.namespaces, []);
    assert [] + selection.namespaces == selection.namespaces;
    known, seen := AppendNamespaces(known, seen, overridden, selection.namespaces);
    known, seen := AppendNamespaces(known, seen, policy.excluded, selection.namespaces + overridden);
  }

  method ValidateTargets(name: string, targets: seq<Key>, existing: Store) returns (err: Option<Error>)
    ensures err.None? <==> forall k :: k in targets ==> GoodName(k.name) && !Foreign(existing, k, name)
  {
    for i := 0 to |targets|
      invariant forall j :: 0 <= j < i ==> GoodName(targets[j].name) && !Foreign(existing, targets[j], name)
    {
      var target := targets[i];
      assert target in targets;
      var badName := ValidatePullSecretName(target.name);
      if badName.Some? {
        return Some(Wrapped("resulting pull secret name is invalid", badName.value));
      }
      if target !in existing {
        continue;
      }
      if Lookup(existing[target].content.labels, MANAGED_BY_KEY) != MANAGED_BY_VALUE {
        return Some(Plain("target Secret already exists and is not managed by this operator"));
      }
      if Lookup(existing[target].content.labels, REGISTRY_NAME_KEY) != name {
        return Some(Plain("target Secret is already managed by another RegistryPullSecret"));
      }
    }
    return None;
  }

  /** The validator accepts exactly what `Accepts` describes, and only ever fails with a
      validation error. */
  method ValidateRegistryPullSecret(lib: Library, registry: Registry, credentials: Credentials, policy: Policy,
                                    existing: Store)
    returns (err: Option<Error>)
    ensures err.None? <==> Accepts(lib, registry, credentials, policy, existing)
    ensures err.Some? ==> IsValidationError(err.value)
  {
    var selection := registry.spec.selection;
    err := ValidateNamespaceSelection(selection);
    if err.Some? {
      return Some(AsValidationError(err.value));
    }
    err := ValidateGloballyExcludedSelection(selection, policy.excluded);
    if err.Some? {
      return Some(AsValidationError(err.value));
    }
    err := ValidateDefaultTargetSecretName(lib, selection, credentials.server);
    if err.Some? {
      return Some(AsValidationError(err.value));
    }
    var known := PolicyAwareNamespaceInventory(selection, policy);
    var targets := EffectiveTargets(lib, registry, credentials, policy, known);
    if targets.Err? {
      return Some(AsValidationError(targets.error));
    }
    ghost var base := BaseName(lib, selection, credentials.server).value;
    PlansListTargets(selection, policy.excluded, base, known);
    TargetNamesAreGood(selection, policy.excluded, base, ToSet(known));
    err := ValidateTargets(registry.name, targets.value, existing);
    if err.Some? {
      return Some(AsValidationError(err.value));
    }
    return None;
  }

  // ------------------------------------------------------------ theorems

  /** Good base and override names make every planned name good, in every namespace. */
  lemma TargetNamesAreGood(selection: Selection, excluded: seq<string>, base: string, namespaces: set<string>)
    requires ValidSelection(selection) && GoodName(base)
    ensures forall k :: k in Targets(selection, excluded, base, namespaces) ==> GoodName(k.name)
  {
    OverrideMapMeaning(selection.overrides);
    forall ns
      ensures GoodName(NameFor(selection, base, ns))
    {
      if ns in OverrideMap(selection.overrides) {
        assert Override(ns, OverrideMap(selection.overrides)[ns]) in selection.overrides;
      }
    }
  }

  // ------------------------------- explicit names and underivable servers

  /** What it takes for the default name to resolve. The host has to yield a name even when an
      explicit name is given; the explicit name only replaces the length condition. */
  lemma NameResolvesExactly(lib: Library, selection: Selection, server: string)
    requires selection.targetSecretName == "" || GoodName(selection.targetSecretName)
    ensures
      var host := NormalizeRegistryHost(lib, server);
      NameResolves(lib, selection, server) <==>
        && host.Ok? && HostHasName(host.value)
        && (selection.targetSecretName == "" ==> |Candidate(host.value)| <= 241)
  {
    var host := NormalizeRegistryHost(lib, server);
    if host.Ok? {
      DerivationFailsExactly(host.value);
      if Candidate(host.value) != "" {
        DerivedNamesAreGood(lib, server);
      }
    }
  }

  /** So with a good explicit name the registry is still rejected, in every cluster, exactly
      when the server has no host or the host yields no name; otherwise only the rest of the
      validation counts. */
  lemma ExplicitNameNeedsDerivableHost(lib: Library, registry: Registry, c: Credentials, policy: Policy)
    requires GoodName(registry.spec.selection.targetSecretName)
    requires ValidSelection(registry.spec.selection) && RespectsExclusions(registry.spec.selection, policy.excluded)
    ensures
      var host := NormalizeRegistryHost(lib, c.server);
      (exists s: Store :: Accepts(lib, registry, c, policy, s)) <==> host.Ok? && HostHasName(host.value)
  {
    var selection := registry.spec.selection;
    assert selection.targetSecretName != "" by {
      assert SplitDots("") == [""] && "" in SplitDots("");
    }
    NameResolvesExactly(lib, selection, c.server);
    if NameResolves(lib, selection, c.server) {
      assert Accepts(lib, registry, c, policy, map[]);
    }
  }

  /** Docker Hub's host is rejected for every registry, policy and cluster, whatever names the
      registry sets. */
  lemma DockerHubIsRejected(lib: Library, registry: Registry, c: Credentials, policy: Policy, s: Store)
    requires NormalizeRegistryHost(lib, c.server) == Ok("docker.io")
    ensures !Accepts(lib, registry, c, policy, s)
  {
    DockerHubHasNoDerivedName(lib, c.server);
  }

  /** A library that finds the host docker.io in the server "docker.io". */
  function PlainHosts(): Library {
    Library(url => if |url| < 8 then None else Some(url[8..]), text => text, _ => Some("{}"))
  }

  /** A concrete registry with a good explicit name and nothing else wrong, rejected in an empty
      cluster for docker.io and accepted there for the host ghcr. */
  lemma ExplicitNameIsNotEnough() returns (lib: Library, registry: Registry, c: Credentials, policy: Policy)
    ensures GoodName(registry.spec.selection.targetSecretName)
    ensures ValidSelection(registry.spec.selection) && RespectsExclusions(registry.spec.selection, policy.excluded)
    ensures c.server == "docker.io" && !Accepts(lib, registry, c, policy, map[])
    ensures Accepts(lib, registry, c.(server := "ghcr"), policy, map[])
  {
    lib, c, policy := PlainHosts(), Credentials("docker.io", "u", "p", "", ""), Policy([]);
    var selection := Selection(INCLUSIVE, [], "mine", []);
    registry := Registry("r", Spec(Some(c), None, selection));
    MineIsGood();
    PlainServer("docker.io");
    DockerHubIsRejected(lib, registry, c, policy, map[]);
    GhcrResolves(selection);
  }

  lemma GhcrResolves(selection: Selection)
    requires GoodName(selection.targetSecretName)
    ensures NameResolves(PlainHosts(), selection, "ghcr")
  {
    UndottedHostIsKept("ghcr");
    ResolvesWithCandidate(selection, "ghcr");
  }

  lemma ResolvesWithCandidate(selection: Selection, server: string)
    requires GoodName(selection.targetSecretName) && Candidate(server) != ""
    requires server != "" && forall c :: c in server ==> IsLabelChar(c) || c == '.'
    ensures NameResolves(PlainHosts(), selection, server)
  {
    PlainServer(server);
    assert SplitDots("") == [""] && "" in SplitDots("");
  }

  lemma PlainServer(server: string)
    requires server != "" && forall c :: c in server ==> IsLabelChar(c) || c == '.'
    ensures NormalizeRegistryHost(PlainHosts(), server) == Ok(server)
  {
    assert server[0] in server && server[|server| - 1] in server;
    assert TrimSpace(server) == server;
    assert !HasScheme(server) by {
      assert ':' !in server;
    }
    assert ("https://" + server)[8..] == server;
    LowerIsFixed(server);
  }

  lemma LowerIsFixed(server: string)
    requires forall c :: c in server ==> IsLabelChar(c) || c == '.'
    ensures ToLower(server) == server
  {
    forall i | 0 <= i < |server|
      ensures LowerChar(server[i]) == server[i]
    {
      assert server[i] in server;
    }
  }

  lemma MineIsGood()
    ensures GoodName("mine")
  {
    LabelIsSubdomain("mine");
    AlnumCountOfConcat("mi", "ne");
    assert "mi" + "ne" == "mine";
    assert "mi"[..1] == "m" && "ne"[..1] == "n";
    assert AlnumCount("m") == 1 && AlnumCount("n") == 1;
  }

  /** For a valid selection an override decides the name in its namespace and nowhere else. */
  lemma OverridesDecideNames(selection: Selection, base: string, o: Override, ns: string)
    requires ValidSelection(selection)
    ensures o in selection.overrides ==> NameFor(selection, base, o.namespace) == o.secretName
    ensures (forall p :: p in selection.overrides ==> p.namespace != ns) ==> NameFor(selection, base, ns) == base
  {
    OverrideMapMeaning(selection.overrides);
  }

  /** Names are good everywhere: after acceptance every name planned for any cluster
      namespace list is valid, namespaces the validator never saw included. */
  lemma NamesAreGoodEverywhere(lib: Library, registry: Registry, credentials: Credentials, policy: Policy,
                               existing: Store, namespaces: seq<string>)
    requires Accepts(lib, registry, credentials, policy, existing)
    ensures
      var base := BaseName(lib, registry.spec.selection, credentials.server).value;
      forall k :: k in Plans(registry.spec.selection, policy.excluded, base, namespaces) ==>
        IsDNS1123Subdomain(k.name) && AlnumCount(k.name) >= 3
  {
    var selection := registry.spec.selection;
    var base := BaseName(lib, selection, credentials.server).value;
    PlansListTargets(selection, policy.excluded, base, namespaces);
    TargetNamesAreGood(selection, policy.excluded, base, ToSet(namespaces));
  }

  /** A registry whose lists are permuted. */
  predicate Permuted(a: Registry, b: Registry) {
    && b == a.(spec := a.spec.(selection := a.spec.selection.(
          namespaces := b.spec.selection.namespaces, overrides := b.spec.selection.overrides)))
    && multiset(a.spec.selection.namespaces) == multiset(b.spec.selection.namespaces)
    && multiset(a.spec.selection.overrides) == multiset(b.spec.selection.overrides)
  }

  lemma PermutedNamespaceNames(a: seq<string>, b: seq<string>)
    requires multiset(a) == multiset(b)
    ensures NamespaceNames(a) <==> NamespaceNames(b)
  {
    PermutationKeepsSet(a, b);
  }

  lemma PermutedOverrideEntries(a: seq<Override>, b: seq<Override>)
    requires multiset(a) == multiset(b) && OverrideEntries(a)
    ensures OverrideEntries(b)
  {
    PermutationKeepsSet(a, b);
    DistinctNamespacesOfPermutation(a, b);
  }

  lemma SameMentioned(a: Selection, b: Selection, p: seq<string>, q: seq<string>)
    requires multiset(a.namespaces) == multiset(b.namespaces)
    requires multiset(a.overrides) == multiset(b.overrides)
    requires multiset(p) == multiset(q)
    ensures ToSet(Mentioned(a, p)) == ToSet(Mentioned(b, q))
  {
    PermutationKeepsSet(a.namespaces, b.namespaces);
    PermutationKeepsSet(a.overrides, b.overrides);
    PermutationKeepsSet(p, q);
    forall ns
      ensures ns in Mentioned(a, p) <==> ns in Mentioned(b, q)
    {
      MentionedMeaning(a, p, ns);
      MentionedMeaning(b, q, ns);
    }
  }

  lemma MentionedMeaning(selection: Selection, excluded: seq<string>, ns: string)
    ensures ns in Mentioned(selection, excluded) <==>
            || ns in selection.namespaces
            || (exists o :: o in selection.overrides && o.namespace == ns)
            || ns in excluded
  {
    if o :| o in selection.overrides && o.namespace == ns {
      var i :| 0 <= i < |selection.overrides| && selection.overrides[i] == o;
      assert OverrideNamespaces(selection.overrides)[i] == ns;
      assert ns in OverrideNamespaces(selection.overrides);
    }
    if ns in OverrideNamespaces(selection.overrides) {
      var i :| 0 <= i < |selection.overrides| && OverrideNamespaces(selection.overrides)[i] == ns;
      assert selection.overrides[i] in selection.overrides;
    }
  }

  lemma PermutedTargets(a: Selection, b: Selection, p: seq<string>, q: seq<string>, base: string,
                        namespaces: set<string>)
    requires b == a.(namespaces := b.namespaces, overrides := b.overrides)
    requires multiset(a.namespaces) == multiset(b.namespaces)
    requires multiset(a.overrides) == multiset(b.overrides)
    requires multiset(p) == multiset(q)
    requires DistinctNamespaces(a.overrides)
    ensures Targets(a, p, base, namespaces) == Targets(b, q, base, namespaces)
  {
    PermutationKeepsSet(a.namespaces, b.namespaces);
    PermutationKeepsSet(p, q);
    OverrideMapOfPermutation(a.overrides, b.overrides);
    assert forall ns :: NamespaceSelected(a, p, ns) <==> NamespaceSelected(b, q, ns);
    assert forall ns :: NameFor(a, base, ns) == NameFor(b, base, ns);
  }

  /** The order of the listed namespaces, of the overrides and of the exclusions changes
      neither acceptance nor the targets. */
  lemma AcceptanceIgnoresOrder(lib: Library, a: Registry, b: Registry, credentials: Credentials, p: Policy, q: Policy,
                               existing: Store, namespaces: set<string>)
    requires Permuted(a, b) && multiset(p.excluded) == multiset(q.excluded)
    requires Accepts(lib, a, credentials, p, existing)
    ensures Accepts(lib, b, credentials, q, existing)
    ensures
      var base := BaseName(lib, a.spec.selection, credentials.server).value;
      Targets(a.spec.selection, p.excluded, base, namespaces) == Targets(b.spec.selection, q.excluded, base, namespaces)
  {
    var sa, sb := a.spec.selection, b.spec.selection;
    var base := BaseName(lib, sa, credentials.server).value;
    PermutationKeepsSet(sa.namespaces, sb.namespaces);
    PermutationKeepsSet(sa.overrides, sb.overrides);
    PermutationKeepsSet(p.excluded, q.excluded);
    PermutedNamespaceNames(sa.namespaces, sb.namespaces);
    PermutedOverrideEntries(sa.overrides, sb.overrides);
    assert ValidSelection(sb) && RespectsExclusions(sb, q.excluded);
    SameMentioned(sa, sb, p.excluded, q.excluded);
    PermutedTargets(sa, sb, p.excluded, q.excluded, base, ToSet(Mentioned(sa, p.excluded)));
    PermutedTargets(sa, sb, p.excluded, q.excluded, base, namespaces);
  }
}
