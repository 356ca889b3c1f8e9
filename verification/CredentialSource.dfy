/** Resolving a registry's credentials from its spec or from a source Secret. */
module CredentialSource {
  import opened Model
  import opened Names
  import opened Spelling

  function OptionalSecretString(source: Secret, key: string): string {
    TrimSpace(Lookup(source.content.data, key))
  }

  function RequiredSecretString(source: Secret, key: string): Result<string> {
    var value := OptionalSecretString(source, key);
    if value == "" then Err(Plain("source Secret is missing a required key")) else Ok(value)
  }

  function CredentialsFromSecret(source: Secret): Result<Credentials> {
    match RequiredSecretString(source, "server")
    case Err(e) => Err(e)
    case Ok(server) =>
      match RequiredSecretString(source, "username")
      case Err(e) => Err(e)
      case Ok(username) =>
        match RequiredSecretString(source, "password")
        case Err(e) => Err(e)
        case Ok(password) =>
          Ok(Credentials(server, username, password,
                         OptionalSecretString(source, "email"), OptionalSecretString(source, "auth")))
  }

  function ResolveRegistryCredentials(spec: Spec, source: Option<Secret>): Result<Credentials> {
    if spec.credentials.Some? == spec.credentialsRef.Some? then
      Err(Plain("exactly one of credentials or credentialsSecretRef must be set"))
    else if spec.credentials.Some? then Ok(spec.credentials.value)
    else if source.None? then Err(Plain("source Secret was not provided"))
    else CredentialsFromSecret(source.value)
  }

  /** The five entries hold the five fields, with any white space around them. A missing entry
      reads as an empty one. */
  ghost predicate Holds(data: map<string, string>, c: Credentials) {
    && TrimsTo(if "server" in data then data["server"] else "", c.server)
    && TrimsTo(if "username" in data then data["username"] else "", c.username)
    && TrimsTo(if "password" in data then data["password"] else "", c.password)
    && TrimsTo(if "email" in data then data["email"] else "", c.email)
    && TrimsTo(if "auth" in data then data["auth"] else "", c.auth)
  }

  /** A source Secret yields exactly the credentials its entries hold, provided server, user
      and password are not empty. */
  lemma SourceIsReadExactly(source: Secret, c: Credentials)
    ensures CredentialsFromSecret(source) == Ok(c) <==>
            Holds(source.content.data, c) && c.server != "" && c.username != "" && c.password != ""
  {
    var data := source.content.data;
    TrimSpaceExactly(Lookup(data, "server"), c.server);
    TrimSpaceExactly(Lookup(data, "username"), c.username);
    TrimSpaceExactly(Lookup(data, "password"), c.password);
    TrimSpaceExactly(Lookup(data, "email"), c.email);
    TrimSpaceExactly(Lookup(data, "auth"), c.auth);
  }

  predicate Blank(s: string) {
    forall c :: c in s ==> IsSpace(c)
  }

  /** Resolution succeeds exactly when one source is configured and, for a reference, the
      Secret exists with the three required entries not blank. Credentials in the spec are taken
      as they are; what is read from a Secret are its entries without the white space around
      them, the required ones not empty. Its errors are not validation errors. */
  lemma ResolutionDecides(spec: Spec, source: Option<Secret>)
    ensures
      var r := ResolveRegistryCredentials(spec, source);
      && (r.Ok? <==>
          || (spec.credentials.Some? && spec.credentialsRef.None?)
          || (&& spec.credentials.None? && spec.credentialsRef.Some? && source.Some?
              && HasRequired(source.value.content.data)))
      && (r.Ok? && spec.credentials.Some? ==> r.value == spec.credentials.value)
      && (r.Ok? && spec.credentialsRef.Some? ==>
            && Holds(source.value.content.data, r.value)
            && r.value.server != "" && r.value.username != "" && r.value.password != "")
      && (r.Err? ==> r.error.Plain?)
  {
    if spec.credentials.None? && spec.credentialsRef.Some? && source.Some? {
      RequiredDecides(source.value);
    }
  }

  predicate HasRequired(data: map<string, string>) {
    && "server" in data && !Blank(data["server"])
    && "username" in data && !Blank(data["username"])
    && "password" in data && !Blank(data["password"])
  }

  lemma RequiredDecides(source: Secret)
    ensures
      var r := CredentialsFromSecret(source);
      && (r.Ok? <==> HasRequired(source.content.data))
      && (r.Ok? ==> Holds(source.content.data, r.value))
      && (r.Ok? ==> r.value.server != "" && r.value.username != "" && r.value.password != "")
      && (r.Err? ==> r.error.Plain?)
  {
    RequiredEntry(source, "server");
    RequiredEntry(source, "username");
    RequiredEntry(source, "password");
    var r := CredentialsFromSecret(source);
    assert r.Ok? ==> Holds(source.content.data, r.value) by {
      if r.Ok? {
        SourceIsReadExactly(source, r.value);
      }
    }
  }

  lemma RequiredEntry(source: Secret, key: string)
    ensures
      var data, r := source.content.data, RequiredSecretString(source, key);
      && (r.Ok? <==> key in data && !Blank(data[key]))
      && (if r.Ok? then r.value != "" else r.error.Plain?)
  {
    TrimSpaceIsTight(Lookup(source.content.data, key));
  }

  /** The entries of a source Secret holding given credentials. */
  function SourceData(c: Credentials): map<string, string> {
    map["server" := c.server, "username" := c.username, "password" := c.password, "email" := c.email, "auth" := c.auth]
  }

  predicate Tight(s: string) {
    TrimSpace(s) == s
  }

  /** Credentials written to a source Secret are read back, provided the required ones are
      set and none has surrounding space. */
  lemma SourceRoundTrip(c: Credentials, source: Secret)
    requires source.content.data == SourceData(c)
    requires c.server != "" && c.username != "" && c.password != ""
    requires Tight(c.server) && Tight(c.username) && Tight(c.password) && Tight(c.email) && Tight(c.auth)
    ensures CredentialsFromSecret(source) == Ok(c)
  {
    var data := source.content.data;
    assert "username"[0] == 'u' && "password"[0] == 'p' && "email"[0] == 'e' && "auth"[0] == 'a' && "server"[0] == 's';
    assert data["server"] == c.server && data["username"] == c.username && data["password"] == c.password;
    assert data["email"] == c.email && data["auth"] == c.auth;
  }

  /** The credentials a reconcile of `spec` reads from the cluster. */
  function CredentialsIn(spec: Spec, s: Store): Result<Credentials> {
    if spec.credentialsRef.Some? && spec.credentialsRef.value !in s then
      Err(Wrapped("get credentials Secret", Plain("not found")))
    else
      var source := if spec.credentialsRef.Some? then Some(s[spec.credentialsRef.value]) else None;
      match ResolveRegistryCredentials(spec, source)
      case Err(e) => Err(Wrapped("resolve credentials", e))
      case Ok(c) => Ok(c)
  }

  /** The credentials of a spec are those written in it, or those the referenced Secret holds;
      there are none when both or neither are given, when the Secret is missing, and when it
      lacks server, user or password. */
  lemma CredentialsInExactly(spec: Spec, s: Store, c: Credentials)
    ensures CredentialsIn(spec, s) == Ok(c) <==>
            if spec.credentialsRef.None? then spec.credentials == Some(c)
            else
              && spec.credentials.None? && spec.credentialsRef.value in s
              && Holds(s[spec.credentialsRef.value].content.data, c)
              && c.server != "" && c.username != "" && c.password != ""
  {
    if spec.credentialsRef.Some? && spec.credentialsRef.value in s {
      SourceIsReadExactly(s[spec.credentialsRef.value], c);
    }
  }
}
