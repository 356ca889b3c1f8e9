/** Which namespaces a registry targets, and under which Secret name. */
module Planner {
  import opened Collections
  import opened Model
  import opened Names

  /** `NamespaceSelected`. */
  predicate NamespaceSelected(selection: Selection, excluded: seq<string>, namespace: string) {
    if namespace in excluded then false
    else if selection.policy == INCLUSIVE then namespace in selection.namespaces
    else if selection.policy == EXCLUSIVE then namespace !in selection.namespaces
    else false
  }

  /** The map the planner fills from the overrides: a later entry replaces an earlier one. */
  function OverrideMap(overrides: seq<Override>): map<string, string> {
    if overrides == [] then map[]
    else
      var last := overrides[|overrides| - 1];
      OverrideMap(overrides[..|overrides| - 1])[last.namespace := last.secretName]
  }

  /** The name used where no override applies. Derivation has to succeed even when an
      explicit name is given. */
  function BaseName(lib: Library, selection: Selection, server: string): Result<string> {
    match DefaultName(lib, server)
    case Err(e) => Err(e)
    case Ok(derived) => Ok(if selection.targetSecretName != "" then selection.targetSecretName else derived)
  }

  function NameFor(selection: Selection, base: string, namespace: string): string {
    var overrides := OverrideMap(selection.overrides);
    if namespace in overrides then overrides[namespace] else base
  }

  function Plans(selection: Selection, excluded: seq<string>, base: string, namespaces: seq<string>): seq<Key> {
    if namespaces == [] then []
    else
      var last := namespaces[|namespaces| - 1];
      Plans(selection, excluded, base, namespaces[..|namespaces| - 1]) +
      if NamespaceSelected(selection, excluded, last) then [Key(last, NameFor(selection, base, last))] else []
  }

  /** The planned keys as a set: what every order of the namespace list plans. */
  function Targets(selection: Selection, excluded: seq<string>, base: string, namespaces: set<string>): set<Key> {
    set ns | ns in namespaces && NamespaceSelected(selection, excluded, ns) :: Key(ns, NameFor(selection, base, ns))
  }

  /** `EffectiveTargets`. */
  method EffectiveTargets(lib: Library, registry: Registry, credentials: Credentials, policy: Policy,
                          namespaces: seq<string>)
    returns (r: Result<seq<Key>>)
    ensures var base := BaseName(lib, registry.spec.selection, credentials.server);
            if base.Err? then r == Err(base.error)
            else r == Ok(Plans(registry.spec.selection, policy.excluded, base.value, namespaces))
  {
    var selection := registry.spec.selection;
    var derived := DefaultTargetSecretName(lib, credentials.server);
    if derived.Err? {
      return Err(derived.error);
    }
    var defaultSecretName := derived.value;
    if selection.targetSecretName != "" {
      defaultSecretName := selection.targetSecretName;
    }

    var overrides: map<string, string> := map[];
    for i := 0 to |selection.overrides|
      invariant overrides == OverrideMap(selection.overrides[..i])
    {
      assert selection.overrides[..i + 1][..i] == selection.overrides[..i];
      overrides := overrides[selection.overrides[i].namespace := selection.overrides[i].secretName];
    }
    assert selection.overrides[..|selection.overrides|] == selection.overrides;

    var plans: seq<Key> := [];
    for i := 0 to |namespaces|
      invariant plans == Plans(selection, policy.excluded, defaultSecretName, namespaces[..i])
    {
      assert namespaces[..i + 1][..i] == namespaces[..i];
      if !NamespaceSelected(selection, policy.excluded, namespaces[i]) {
        continue;
      }
      var secretName := defaultSecretName;
      if namespaces[i] in overrides {
        secretName := overrides[namespaces[i]];
      }
      plans := plans + [Key(namespaces[i], secretName)];
    }
    assert namespaces[..|namespaces|] == namespaces;
    return Ok(plans);
  }

  /** Plans enumerate the target set: one Secret per selected namespace, none twice, and no
      two in one namespace. */
  lemma {:induction false} PlansListTargets(selection: Selection, excluded: seq<string>, base: string,
                                            namespaces: seq<string>)
    ensures ToSet(Plans(selection, excluded, base, namespaces)) == Targets(selection, excluded, base, ToSet(namespaces))
    ensures NoDup(namespaces) ==> NoDup(Plans(selection, excluded, base, namespaces))
    ensures forall k :: k in Plans(selection, excluded, base, namespaces) <==>
              k in Targets(selection, excluded, base, ToSet(namespaces))
  {
    if namespaces != [] {
      var init, last := namespaces[..|namespaces| - 1], namespaces[|namespaces| - 1];
      PlansListTargets(selection, excluded, base, init);
      assert namespaces == init + [last];
      assert ToSet(namespaces) == ToSet(init) + {last};
      var before, after := Plans(selection, excluded, base, init), Plans(selection, excluded, base, namespaces);
      var key := Key(last, NameFor(selection, base, last));
      assert Targets(selection, excluded, base, ToSet(namespaces)) ==
             Targets(selection, excluded, base, ToSet(init))
             + if NamespaceSelected(selection, excluded, last) then {key} else {};
      assert after == before + if NamespaceSelected(selection, excluded, last) then [key] else [];
      assert ToSet(after) == ToSet(before) + if NamespaceSelected(selection, excluded, last) then {key} else {};
      if NoDup(namespaces) {
        assert last !in ToSet(init);
        assert key !in before;
      }
    }
    forall k
      ensures k in Plans(selection, excluded, base, namespaces) <==>
              k in Targets(selection, excluded, base, ToSet(namespaces))
    {
      assert k in Plans(selection, excluded, base, namespaces) <==>
        k in ToSet(Plans(selection, excluded, base, namespaces));
    }
  }

  // ------------------------------------------------------------ overrides

  predicate DistinctNamespaces(overrides: seq<Override>) {
    forall i, j :: 0 <= i < j < |overrides| ==> overrides[i].namespace != overrides[j].namespace
  }

  /** Without duplicates the override map is just the set of override entries. */
  lemma {:induction false} OverrideMapMeaning(overrides: seq<Override>)
    ensures forall ns :: ns in OverrideMap(overrides) <==> exists o :: o in overrides && o.namespace == ns
    ensures forall ns :: ns in OverrideMap(overrides) ==> Override(ns, OverrideMap(overrides)[ns]) in overrides
    ensures DistinctNamespaces(overrides) ==>
              forall o :: o in overrides ==> OverrideMap(overrides)[o.namespace] == o.secretName
  {
    if overrides != [] {
      var init, last := overrides[..|overrides| - 1], overrides[|overrides| - 1];
      OverrideMapMeaning(init);
      assert overrides == init + [last];
      assert forall o :: o in overrides <==> o in init || o == last;
      if DistinctNamespaces(overrides) {
        forall o | o in init
          ensures o.namespace != last.namespace
        {
          var i :| 0 <= i < |init| && init[i] == o;
          assert overrides[i] == o && overrides[|overrides| - 1] == last;
        }
      }
    }
  }

  lemma DistinctNamespacesOfPermutation(a: seq<Override>, b: seq<Override>)
    requires multiset(a) == multiset(b) && DistinctNamespaces(a)
    ensures DistinctNamespaces(b)
  {
    PermutationKeepsSet(a, b);
    assert NoDup(a);
    forall i, j | 0 <= i < j < |b|
      ensures b[i].namespace != b[j].namespace
    {
      assert b[i] in a && b[j] in a && b[i] != b[j];
    }
  }

  lemma OverrideMapOfPermutation(a: seq<Override>, b: seq<Override>)
    requires multiset(a) == multiset(b) && DistinctNamespaces(a)
    ensures OverrideMap(a) == OverrideMap(b)
  {
    PermutationKeepsSet(a, b);
    DistinctNamespacesOfPermutation(a, b);
    OverrideMapMeaning(a);
    OverrideMapMeaning(b);
    var ma, mb := OverrideMap(a), OverrideMap(b);
    forall ns
      ensures ns in ma <==> ns in mb
      ensures ns in ma ==> ma[ns] == mb[ns]
    {
      if ns in ma {
        assert Override(ns, ma[ns]) in b;
      }
      if ns in mb {
        assert Override(ns, mb[ns]) in a;
      }
    }
  }
}
