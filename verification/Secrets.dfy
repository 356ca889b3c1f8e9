/** Rendering the desired Secrets and comparing them with the existing ones. */
module Secrets {
  import opened Collections
  import opened Model
  import opened Names
  import opened Planner
  import opened Validation
  import opened CredentialSource
  import opened Replication

  const DOCKER_CONFIG_KIND := "kubernetes.io/dockerconfigjson"
  const DOCKER_CONFIG_KEY := ".dockerconfigjson"

  /** The auth entry that is rendered: the given one, or one made from user and password. */
  function EffectiveAuth(lib: Library, c: Credentials): string {
    if c.auth == "" then lib.base64(c.username + ":" + c.password) else c.auth
  }

  function Payload(lib: Library, c: Credentials): DockerAuth {
    DockerAuth(c.server, c.username, c.password, c.email, EffectiveAuth(lib, c))
  }

  function DockerConfigJSON(lib: Library, c: Credentials): Result<string> {
    if c.server == "" then Err(Plain("registry credentials server is empty"))
    else if c.username == "" then Err(Plain("registry credentials username is empty"))
    else if c.password == "" then Err(Plain("registry credentials password is empty"))
    else
      match lib.marshal(Payload(lib, c))
      case None => Err(Wrapped("marshal docker config json", Plain("json.Marshal")))
      case Some(rendered) => Ok(rendered)
  }

  /** Different payloads are rendered differently. */
  ghost predicate Injective(lib: Library) {
    forall p, q :: lib.marshal(p).Some? && lib.marshal(p) == lib.marshal(q) ==> p == q
  }

  /** Two credentials log in to the same registry in the same way. */
  predicate SameLogin(lib: Library, c: Credentials, d: Credentials) {
    && c.server == d.server && c.username == d.username && c.password == d.password && c.email == d.email
    && EffectiveAuth(lib, c) == EffectiveAuth(lib, d)
  }

  /** With an injective renderer the payload tells the login. */
  lemma RenderingTellsLogin(lib: Library, c: Credentials, d: Credentials)
    requires Injective(lib) && DockerConfigJSON(lib, c).Ok? && DockerConfigJSON(lib, d).Ok?
    ensures DockerConfigJSON(lib, c) == DockerConfigJSON(lib, d) <==> SameLogin(lib, c, d)
  {
    var p, q := Payload(lib, c), Payload(lib, d);
    if DockerConfigJSON(lib, c) == DockerConfigJSON(lib, d) {
      assert lib.marshal(p) == lib.marshal(q);
      assert p == q;
    }
  }

  /** `BuildPullSecret`; the key it is built for is the plan itself. */
  function BuildPullSecret(name: string, c: Credentials, rendered: string): (content: Content)
    ensures OwnedBy(content, name)
  {
    var labels := map[MANAGED_BY_KEY := MANAGED_BY_VALUE, REGISTRY_NAME_KEY := name, REGISTRY_SERVER_KEY := c.server];
    assert |MANAGED_BY_KEY| < |REGISTRY_SERVER_KEY| < |REGISTRY_NAME_KEY|;
    Content(labels, DOCKER_CONFIG_KIND, map[DOCKER_CONFIG_KEY := rendered])
  }

  /** What can be read from a built Secret: manager, owner and server and no other label, the
      type, and the payload as its only data entry. */
  lemma BuiltSecretHolds(name: string, c: Credentials, rendered: string)
    ensures
      var content := BuildPullSecret(name, c, rendered);
      && Managed(content) && Owner(content) == name && Lookup(content.labels, REGISTRY_SERVER_KEY) == c.server
      && |content.labels| == 3
      && content.kind == DOCKER_CONFIG_KIND
      && Lookup(content.data, DOCKER_CONFIG_KEY) == rendered && |content.data| == 1
  {
    var labels := BuildPullSecret(name, c, rendered).labels;
    assert |MANAGED_BY_KEY| < |REGISTRY_SERVER_KEY| < |REGISTRY_NAME_KEY|;
    assert labels.Keys == {MANAGED_BY_KEY, REGISTRY_NAME_KEY, REGISTRY_SERVER_KEY};
  }

  // ---------------------------------------------------------- comparison

  method BytesEqual(left: string, right: string) returns (equal: bool)
    ensures equal <==> left == right
  {
    if |left| != |right| {
      return false;
    }
    for i := 0 to |left|
      invariant left[..i] == right[..i]
    {
      if left[i] != right[i] {
        return false;
      }
      assert left[..i + 1] == left[..i] + [left[i]] && right[..i + 1] == right[..i] + [right[i]];
    }
    assert left[..|left|] == left && right[..|right|] == right;
    return true;
  }

  /** Type, labels and data decide; whatever else is on the Secret is ignored. */
  method SecretNeedsApply(existing: Option<Secret>, desired: Content) returns (needed: bool)
    ensures !needed <==> existing.Some? && existing.value.content == desired
  {
    if existing.None? {
      return true;
    }
    var found := existing.value.content;
    if found.kind != desired.kind {
      return true;
    }
    if found.labels != desired.labels {
      return true;
    }
    if |found.data| != |desired.data| {
      return true;
    }
    var left := found.data.Keys;
    while left != {}
      invariant left <= found.data.Keys
      invariant forall k :: k in found.data.Keys - left ==> k in desired.data && found.data[k] == desired.data[k]
      decreases left
    {
      var k :| k in left;
      if k !in desired.data {
        return true;
      }
      var equal := BytesEqual(found.data[k], desired.data[k]);
      if !equal {
        return true;
      }
      left := left - {k};
    }
    SameSizeSubsetIsAll(found.data.Keys, desired.data.Keys);
    assert found.data == desired.data;
    return false;
  }

  lemma SameSizeSubsetIsAll(small: set<string>, big: set<string>)
    requires small <= big && |small| == |big|
    ensures small == big
  {
    DifferenceSize(big, small);
    assert big == small + (big - small);
  }

  // ------------------------------------------------------------- planning

  /** What one reconcile reads besides the Secrets. */
  datatype Inputs = Inputs(lib: Library, registry: Registry, policy: Policy, namespaces: seq<string>) {
    function Selection(): Selection {
      registry.spec.selection
    }

    /** Keys planned over the cluster's namespaces. */
    function Planned(base: string): seq<Key> {
      Plans(Selection(), policy.excluded, base, namespaces)
    }
  }

  ghost predicate Renders(inputs: Inputs, c: Credentials) {
    BaseName(inputs.lib, inputs.Selection(), c.server).Ok? && DockerConfigJSON(inputs.lib, c).Ok?
  }

  ghost function TargetKeys(inputs: Inputs, c: Credentials): set<Key>
    requires Renders(inputs, c)
  {
    Targets(inputs.Selection(), inputs.policy.excluded, BaseName(inputs.lib, inputs.Selection(), c.server).value,
            ToSet(inputs.namespaces))
  }

  /** Those keys in plan order. */
  ghost function PlannedKeys(inputs: Inputs, c: Credentials): seq<Key>
    requires Renders(inputs, c)
  {
    inputs.Planned(BaseName(inputs.lib, inputs.Selection(), c.server).value)
  }

  /** The contents wanted under every planned key. */
  ghost function Want(inputs: Inputs, c: Credentials): (want: map<Key, Content>)
    requires Renders(inputs, c)
    ensures want.Keys == TargetKeys(inputs, c)
    ensures Claims(want, inputs.registry.name)
  {
    map k | k in TargetKeys(inputs, c) ::
      BuildPullSecret(inputs.registry.name, c, DockerConfigJSON(inputs.lib, c).value)
  }

  /** Validation and rendering both succeed. */
  ghost predicate Plannable(inputs: Inputs, c: Credentials, s: Store) {
    Accepts(inputs.lib, inputs.registry, c, inputs.policy, s) && DockerConfigJSON(inputs.lib, c).Ok?
  }

  datatype DesiredSecret = DesiredSecret(key: Key, content: Content, needsApply: bool)

  /** One desired Secret per planned key, in plan order, flagged exactly when stale. */
  ghost predicate Describes(desired: seq<DesiredSecret>, planned: seq<Key>, want: map<Key, Content>, s: Store) {
    && |desired| == |planned|
    && forall i :: 0 <= i < |desired| ==>
         && planned[i] in want
         && desired[i] == DesiredSecret(planned[i], want[planned[i]], planned[i] in Stale(s, want))
  }

  lemma PlannedAreWanted(inputs: Inputs, c: Credentials)
    requires Renders(inputs, c)
    ensures
      var planned := PlannedKeys(inputs, c);
      && (forall k :: k in planned <==> k in Want(inputs, c))
      && (forall k :: k in planned ==>
           Want(inputs, c)[k] == BuildPullSecret(inputs.registry.name, c, DockerConfigJSON(inputs.lib, c).value))
      && ToSet(planned) == Want(inputs, c).Keys
      && (NoDup(inputs.namespaces) ==> NoDup(planned))
  {
    PlansListTargets(inputs.Selection(), inputs.policy.excluded,
                     BaseName(inputs.lib, inputs.Selection(), c.server).value, inputs.namespaces);
  }

  method DesiredSecrets(inputs: Inputs, c: Credentials, existing: Store) returns (r: Result<seq<DesiredSecret>>)
    ensures r.Ok? <==> Plannable(inputs, c, existing)
    ensures r.Ok? ==> Describes(r.value, PlannedKeys(inputs, c), Want(inputs, c), existing)
    ensures r.Err? ==>
              (IsValidationError(r.error) <==> !Accepts(inputs.lib, inputs.registry, c, inputs.policy, existing))
  {
    var invalid := ValidateRegistryPullSecret(inputs.lib, inputs.registry, c, inputs.policy, existing);
    if invalid.Some? {
      return Err(invalid.value);
    }
    var targets := EffectiveTargets(inputs.lib, inputs.registry, c, inputs.policy, inputs.namespaces);
    assert targets.Ok?;  // validation has already derived the name, so planning cannot fail here
    var rendered := DockerConfigJSON(inputs.lib, c);
    if rendered.Err? {
      return Err(rendered.error);
    }
    PlannedAreWanted(inputs, c);
    var desired := BuildAndCompare(inputs.registry.name, c, rendered.value, targets.value, existing, Want(inputs, c));
    return Ok(desired);
  }

  /** The loop of `DesiredSecrets`. */
  method BuildAndCompare(name: string, c: Credentials, rendered: string, targets: seq<Key>, existing: Store,
                         ghost want: map<Key, Content>)
    returns (desired: seq<DesiredSecret>)
    requires forall k :: k in targets ==> k in want && want[k] == BuildPullSecret(name, c, rendered)
    ensures Describes(desired, targets, want, existing)
  {
    desired := [];
    for i := 0 to |targets|
      invariant Describes(desired, targets[..i], want, existing)
    {
      var target := targets[i];
      assert target in targets;
      var content := BuildPullSecret(name, c, rendered);
      var needed := SecretNeedsApply(if target in existing then Some(existing[target]) else None, content);
      desired := desired + [DesiredSecret(target, content, needed)];
    }
    assert targets[..|targets|] == targets;
  }

  function KeysOf(desired: seq<DesiredSecret>): set<Key> {
    set i | 0 <= i < |desired| :: desired[i].key
  }

  /** The owned Secrets that are not desired, in whatever order the map is walked. */
  method ObsoleteSecrets(name: string, existing: Store, desired: seq<DesiredSecret>) returns (obsolete: seq<Key>)
    ensures Lists(obsolete, Owned(existing, name) - KeysOf(desired))
  {
    var desiredKeys: set<Key> := {};
    for i := 0 to |desired|
      invariant desiredKeys == set j | 0 <= j < i :: desired[j].key
    {
      desiredKeys := desiredKeys + {desired[i].key};
    }
    assert desiredKeys == KeysOf(desired);

    obsolete := [];
    var left := existing.Keys;
    while left != {}
      invariant left <= existing.Keys
      invariant NoDup(obsolete)
      invariant ToSet(obsolete) == Owned(existing, name) - desiredKeys - left
      decreases left
    {
      var key :| key in left;
      left := left - {key};
      assert key !in ToSet(obsolete);
      var labels := existing[key].content.labels;
      if Lookup(labels, MANAGED_BY_KEY) != MANAGED_BY_VALUE {
        continue;
      }
      if Lookup(labels, REGISTRY_NAME_KEY) != name {
        continue;
      }
      if key in desiredKeys {
        continue;
      }
      assert ToSet(obsolete + [key]) == ToSet(obsolete) + {key};
      obsolete := obsolete + [key];
    }
  }

  // ------------------------------------------------------------- theorems

  /** Planning succeeds exactly when validation accepts, username and password are there,
      and marshalling works. */
  lemma PlanningDecides(inputs: Inputs, c: Credentials, s: Store)
    ensures Plannable(inputs, c, s) <==>
            && Accepts(inputs.lib, inputs.registry, c, inputs.policy, s)
            && c.username != "" && c.password != ""
            && inputs.lib.marshal(Payload(inputs.lib, c)).Some?
  {
    if Accepts(inputs.lib, inputs.registry, c, inputs.policy, s) {
      assert NormalizeRegistryHost(inputs.lib, c.server).Ok?;
      assert TrimSpace(c.server) != "";
    }
  }

  /** So planning never fails after validation for credentials read from a Secret, as long
      as marshalling works. */
  lemma SecretCredentialsNeverFailToRender(inputs: Inputs, c: Credentials, s: Store)
    requires inputs.registry.spec.credentialsRef.Some? && CredentialsIn(inputs.registry.spec, s) == Ok(c)
    requires inputs.lib.marshal(Payload(inputs.lib, c)).Some?
    ensures Plannable(inputs, c, s) <==> Accepts(inputs.lib, inputs.registry, c, inputs.policy, s)
  {
    PlanningDecides(inputs, c, s);
    ResolutionDecides(inputs.registry.spec, Some(s[inputs.registry.spec.credentialsRef.value]));
  }
}
