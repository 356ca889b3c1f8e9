/** What the operator promises, in the terms of the resources a user writes and of the Secrets
    that are seen afterwards: the reference everything else is measured by. */
module Promises {
  import opened Collections
  import opened Model
  import opened Names

  /** The name of the replica in a namespace: an override's, or else the explicit name, or else
      the one derived from the host. */
  predicate NamedFor(selection: Selection, host: string, k: Key) {
    if exists o :: o in selection.overrides && o.namespace == k.namespace
    then Override(k.namespace, k.name) in selection.overrides
    else k.name == if selection.targetSecretName != "" then selection.targetSecretName
                   else Candidate(host) + "-pull-secret"
  }

  /** A replica belongs at `k`: Inclusive registries go where they list, Exclusive ones
      everywhere else, and none goes where the policy excludes. */
  predicate Targeted(selection: Selection, excluded: seq<string>, namespaces: seq<string>, host: string, k: Key) {
    && k.namespace in namespaces && k.namespace !in excluded
    && (if selection.policy == "Inclusive" then k.namespace in selection.namespaces
        else selection.policy == "Exclusive" && k.namespace !in selection.namespaces)
    && NamedFor(selection, host, k)
  }

  /** The Secret says that it is the replica of the registry. */
  predicate LabelledFor(secret: Secret, name: string) {
    var labels := secret.content.labels;
    && "app.kubernetes.io/managed-by" in labels && labels["app.kubernetes.io/managed-by"] == "pull-secrets-operator"
    && name == if "pullsecrets.ognicki.ooo/registry-pull-secret" in labels
               then labels["pullsecrets.ognicki.ooo/registry-pull-secret"] else ""
  }

  /** `rendered` is the docker config of the credentials. */
  predicate DockerConfigOf(lib: Library, c: Credentials, rendered: string) {
    var auth := if c.auth != "" then c.auth else lib.base64(c.username + ":" + c.password);
    lib.marshal(DockerAuth(c.server, c.username, c.password, c.email, auth)) == Some(rendered)
  }

  function Replica(name: string, server: string, rendered: string): Content {
    Content(map["app.kubernetes.io/managed-by" := "pull-secrets-operator",
                "pullsecrets.ognicki.ooo/registry-pull-secret" := name,
                "pullsecrets.ognicki.ooo/registry-server" := server],
            "kubernetes.io/dockerconfigjson",
            map[".dockerconfigjson" := rendered])
  }

  predicate SameAt(s: Store, t: Store, k: Key) {
    (k in s <==> k in t) && (k in s ==> s[k] == t[k])
  }

  /** What has become of one key: a targeted one holds the replica, with whatever else was on
      the Secret; the registry's other Secrets are gone; all else is as it was. */
  predicate KeyDelivered(targeted: bool, replica: Content, name: string, s: Store, t: Store, k: Key) {
    if targeted then k in t && t[k] == Secret(replica, if k in s then s[k].other else "")
    else if k in s && LabelledFor(s[k], name) then k !in t
    else SameAt(s, t, k)
  }

  /** `t` is what the cluster's Secrets `s` have to become for the registry, given its
      credentials, the exclusions and the namespaces. */
  ghost predicate Delivered(lib: Library, registry: Registry, excluded: seq<string>, namespaces: seq<string>,
                            c: Credentials, s: Store, t: Store)
  {
    var host := NormalizeRegistryHost(lib, c.server);
    && host.Ok?
    && exists rendered :: DockerConfigOf(lib, c, rendered)
        && forall k :: KeyDelivered(Targeted(registry.spec.selection, excluded, namespaces, host.value, k),
                                    Replica(registry.name, c.server, rendered), registry.name, s, t, k)
  }

  /** Each key is as it was or already as promised: what an attempt that is cut off leaves. */
  ghost predicate PartlyDelivered(lib: Library, registry: Registry, excluded: seq<string>, namespaces: seq<string>,
                                  c: Credentials, s: Store, t: Store)
  {
    var host := NormalizeRegistryHost(lib, c.server);
    && host.Ok?
    && exists rendered :: DockerConfigOf(lib, c, rendered)
        && forall k :: SameAt(s, t, k)
             || KeyDelivered(Targeted(registry.spec.selection, excluded, namespaces, host.value, k),
                             Replica(registry.name, c.server, rendered), registry.name, s, t, k)
  }

  function Excluded(policy: Option<Policy>): seq<string> {
    if policy.Some? then policy.value.excluded else []
  }

  /** What an attempt for the registry leaves: everything as promised if it succeeded, and
      otherwise each key as it was or as promised, which takes credentials. */
  ghost predicate KeepsPromises(lib: Library, registry: Registry, policy: Option<Policy>, namespaces: seq<string>,
                                c: Result<Credentials>, s: Store, t: Store, succeeded: bool)
  {
    && (succeeded ==> c.Ok? && Delivered(lib, registry, Excluded(policy), namespaces, c.value, s, t))
    && (s != t ==> c.Ok? && PartlyDelivered(lib, registry, Excluded(policy), namespaces, c.value, s, t))
  }

  // ----------------------------------------------------------- acceptance

  /** The registry may write `k`: nothing is there, or its own replica. */
  predicate Free(s: Store, k: Key, name: string) {
    k in s ==> LabelledFor(s[k], name)
  }

  /** What a registry has to look like, whatever the cluster. */
  predicate WellFormed(selection: Selection, excluded: seq<string>) {
    && (selection.policy == "Inclusive" || selection.policy == "Exclusive")
    && (selection.targetSecretName == "" || GoodName(selection.targetSecretName))
    && NoDup(selection.namespaces)
    && (forall ns :: ns in selection.namespaces ==> IsDNS1123Label(ns))
    && (forall i, j :: 0 <= i < j < |selection.overrides| ==>
          selection.overrides[i].namespace != selection.overrides[j].namespace)
    && (forall o :: o in selection.overrides ==>
          IsDNS1123Label(o.namespace) && GoodName(o.secretName) && o.namespace !in excluded)
    && (selection.policy == "Inclusive" ==> forall ns :: ns in selection.namespaces ==> ns !in excluded)
  }

  /** A name can be derived from the server, and it is short enough if it is used. */
  predicate Nameable(lib: Library, selection: Selection, server: string) {
    var host := NormalizeRegistryHost(lib, server);
    host.Ok? && HostHasName(host.value) && (selection.targetSecretName == "" ==> |Candidate(host.value)| <= 241)
  }

  /** The keys the validator looks at are free: for an Inclusive registry the one in each listed
      namespace, for an Exclusive one those its overrides name in namespaces it does not list. */
  predicate ChecksFree(selection: Selection, host: string, s: Store, name: string) {
    if selection.policy == "Inclusive"
    then forall k :: k in s && k.namespace in selection.namespaces && NamedFor(selection, host, k) ==> Free(s, k, name)
    else forall o :: o in selection.overrides && o.namespace !in selection.namespaces ==>
           Free(s, Key(o.namespace, o.secretName), name)
  }
}
