/** The operator's data: resources, Secrets, errors and the external library calls. */
module Model {

  datatype Option<+T> = None | Some(value: T)

  datatype Result<+T> = Ok(value: T) | Err(error: Error)

  // ---------------------------------------------------------------- errors

  /** Go errors as far as `errors.As` can see them: plain errors, `%w` wrapping, the
      validation marker type, and `errors.Join`. */
  datatype Error =
    | Plain(message: string)
    | Wrapped(context: string, cause: Error)
    | ValidationError(cause: Error)
    | Joined(first: Error, second: Error)

  // ------------------------------------------------------------- resources

  datatype Credentials = Credentials(server: string, username: string, password: string, email: string, auth: string)

  /** Namespace and name of a Secret. A namespace plan is the key of the Secret it plans. */
  datatype Key = Key(namespace: string, name: string)

  datatype Override = Override(namespace: string, secretName: string)

  const INCLUSIVE := "Inclusive"
  const EXCLUSIVE := "Exclusive"

  datatype Selection = Selection(
    policy: string,
    namespaces: seq<string>,
    targetSecretName: string,
    overrides: seq<Override>)

  datatype Spec = Spec(
    credentials: Option<Credentials>,
    credentialsRef: Option<Key>,
    selection: Selection)

  datatype Registry = Registry(name: string, spec: Spec)

  datatype Policy = Policy(excluded: seq<string>)

  // --------------------------------------------------------------- Secrets

  /** The part of a Secret that the operator writes and compares. */
  datatype Content = Content(labels: map<string, string>, kind: string, data: map<string, string>)

  /** `other` is everything else on the object, annotations for example. */
  datatype Secret = Secret(content: Content, other: string)

  type Store = map<Key, Secret>

  /** `other` of a Secret the operator has just created. */
  const NOTHING_ELSE := ""

  const MANAGED_BY_KEY := "app.kubernetes.io/managed-by"
  const MANAGED_BY_VALUE := "pull-secrets-operator"
  const REGISTRY_NAME_KEY := "pullsecrets.ognicki.ooo/registry-pull-secret"
  const REGISTRY_SERVER_KEY := "pullsecrets.ognicki.ooo/registry-server"

  /** Indexing a Go map: a missing key reads as the empty string. */
  function Lookup(m: map<string, string>, key: string): string {
    if key in m then m[key] else ""
  }

  predicate Managed(content: Content) {
    Lookup(content.labels, MANAGED_BY_KEY) == MANAGED_BY_VALUE
  }

  function Owner(content: Content): string {
    Lookup(content.labels, REGISTRY_NAME_KEY)
  }

  predicate OwnedBy(content: Content, name: string) {
    Managed(content) && Owner(content) == name
  }

  /** A Secret at `key` that the registry `name` may not take over. */
  predicate Foreign(s: Store, key: Key, name: string) {
    key in s && !OwnedBy(s[key].content, name)
  }

  /** The source indexes Secrets by "namespace/name". With '/'-free namespaces that string
      identifies the Secret, so `Key` loses nothing. */
  function KeyString(key: Key): string {
    key.namespace + "/" + key.name
  }

  /** The first '/' of the string is the separator. */
  lemma SeparatorIsFirstSlash(key: Key)
    requires '/' !in key.namespace
    ensures KeyString(key)[|key.namespace|] == '/'
    ensures forall i :: 0 <= i < |key.namespace| ==> KeyString(key)[i] != '/'
  {
  }

  lemma KeyStringsAreInjective(a: Key, b: Key)
    requires '/' !in a.namespace && '/' !in b.namespace
    ensures KeyString(a) == KeyString(b) <==> a == b
  {
    SeparatorIsFirstSlash(a);
    SeparatorIsFirstSlash(b);
    if KeyString(a) == KeyString(b) {
      var n := |a.namespace|;
      assert n == |b.namespace|;
      assert a.namespace == KeyString(a)[..n] && b.namespace == KeyString(b)[..n];
      assert a.name == KeyString(a)[n + 1..] && b.name == KeyString(b)[n + 1..];
    }
  }

  // ---------------------------------------------------- external libraries

  /** One entry of the docker config payload. */
  datatype DockerAuth = DockerAuth(server: string, username: string, password: string, email: string, auth: string)

  /** Library calls as deterministic functions: the hostname `url.Parse` finds (None when it
      fails), base64 encoding, and JSON marshalling (None when it fails). */
  datatype Library = Library(
    hostname: string -> Option<string>,
    base64: string -> string,
    marshal: DockerAuth -> Option<string>)
}
