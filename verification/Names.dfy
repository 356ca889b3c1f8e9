/** Deriving Secret names from registry hosts, and the names Kubernetes accepts. */
module Names {
  import opened Model

  const PULL_SECRET_SUFFIX := "-pull-secret"

  const IGNORED_HOST_TOKENS: set<string> := {"docker", "registry", "www"}
  const SECONDARY_DOMAIN_TOKENS: set<string> := {"gov", "net", "com", "co", "org", "edu"}

  // ------------------------------------------------------------ characters

  predicate IsAlnum(c: char) {
    'a' <= c <= 'z' || '0' <= c <= '9'
  }

  predicate IsLabelChar(c: char) {
    IsAlnum(c) || c == '-'
  }

  /** ASCII lower-casing. */
  function LowerChar(c: char): char {
    if 'A' <= c <= 'Z' then (c as int - 'A' as int + 'a' as int) as char else c
  }

  function ToLower(s: string): string {
    seq(|s|, i requires 0 <= i < |s| => LowerChar(s[i]))
  }

  predicate IsSpace(c: char) {
    c == ' ' || ('\t' <= c <= '\r')
  }

  function TrimSpace(s: string): string {
    if s == "" then s
    else if IsSpace(s[0]) then TrimSpace(s[1..])
    else if IsSpace(s[|s| - 1]) then TrimSpace(s[..|s| - 1])
    else s
  }

  lemma {:induction false} TrimSpaceIsTight(s: string)
    ensures var t := TrimSpace(s);
            t == "" || (!IsSpace(t[0]) && !IsSpace(t[|t| - 1]))
    ensures TrimSpace(TrimSpace(s)) == TrimSpace(s)
    ensures TrimSpace(s) == "" <==> forall c :: c in s ==> IsSpace(c)
    decreases |s|
  {
    if s == "" {
    } else if IsSpace(s[0]) {
      TrimSpaceIsTight(s[1..]);
      assert s == [s[0]] + s[1..];
    } else if IsSpace(s[|s| - 1]) {
      TrimSpaceIsTight(s[..|s| - 1]);
      assert s == s[..|s| - 1] + [s[|s| - 1]];
    } else {
      assert s[0] in s;
    }
  }

  // ---------------------------------------------------- DNS-1123 validity

  /** `[a-z0-9]([-a-z0-9]*[a-z0-9])?`, the label syntax of section 2.1 of RFC 1123 as
      Kubernetes narrows it. */
  predicate IsLabelBody(s: string) {
    && s != ""
    && IsAlnum(s[0]) && IsAlnum(s[|s| - 1])
    && forall c :: c in s ==> IsLabelChar(c)
  }

  predicate IsDNS1123Label(s: string) {
    |s| <= 63 && IsLabelBody(s)
  }

  /** `strings.Split(s, ".")`. */
  function SplitDots(s: string): (parts: seq<string>)
    ensures |parts| >= 1
  {
    if s == "" then [""]
    else
      var rest := SplitDots(s[1..]);
      if s[0] == '.' then [""] + rest else [[s[0]] + rest[0]] + rest[1..]
  }

  function JoinDots(parts: seq<string>): string {
    if parts == [] then ""
    else if |parts| == 1 then parts[0]
    else parts[0] + "." + JoinDots(parts[1..])
  }

  lemma {:induction false} SplitDotsIsExact(s: string)
    ensures JoinDots(SplitDots(s)) == s
    ensures forall p :: p in SplitDots(s) ==> '.' !in p
    ensures |SplitDots(s)| == 1 <==> '.' !in s
  {
    if s != "" {
      var rest := SplitDots(s[1..]);
      SplitDotsIsExact(s[1..]);
      assert s == [s[0]] + s[1..];
      if s[0] == '.' {
        assert ([""] + rest)[1..] == rest;
        assert "" + "." + s[1..] == s;
      } else {
        var parts := [[s[0]] + rest[0]] + rest[1..];
        assert parts[1..] == rest[1..];
        if |rest| > 1 {
          assert [s[0]] + (rest[0] + "." + JoinDots(rest[1..])) == ([s[0]] + rest[0]) + "." + JoinDots(rest[1..]);
        }
      }
    }
  }

  lemma {:induction false} SplitDotsOfJoined(left: string, right: string)
    ensures SplitDots(left + "." + right) == SplitDots(left) + SplitDots(right)
  {
    var s := left + "." + right;
    if left == "" {
      assert s[1..] == right;
    } else {
      SplitDotsOfJoined(left[1..], right);
      assert s[1..] == left[1..] + "." + right && s[0] == left[0];
      PrefixFirst(left[0], SplitDots(left[1..]), SplitDots(right));
    }
  }

  lemma PrefixFirst(c: char, rest: seq<string>, more: seq<string>)
    requires rest != []
    ensures [""] + (rest + more) == ([""] + rest) + more
    ensures [[c] + (rest + more)[0]] + (rest + more)[1..] == ([[c] + rest[0]] + rest[1..]) + more
  {
    assert (rest + more)[1..] == rest[1..] + more;
  }

  predicate IsDNS1123Subdomain(s: string) {
    |s| <= 253 && forall p :: p in SplitDots(s) ==> IsLabelBody(p)
  }

  function AlnumCount(s: string): nat {
    if s == "" then 0
    else AlnumCount(s[..|s| - 1]) + if IsAlnum(s[|s| - 1]) then 1 else 0
  }

  /** What `validatePullSecretName` accepts. */
  predicate GoodName(s: string) {
    IsDNS1123Subdomain(s) && AlnumCount(s) >= 3
  }

  method ValidatePullSecretName(name: string) returns (err: Option<Error>)
    ensures err.None? <==> GoodName(name)
    ensures err.Some? ==> err.value.Plain?
  {
    if !IsDNS1123Subdomain(name) {
      return Some(Plain("not a DNS-1123 subdomain"));
    }
    var alnumCount := 0;
    for i := 0 to |name|
      invariant alnumCount == AlnumCount(name[..i])
    {
      assert name[..i + 1][..i] == name[..i];
      if 'a' <= name[i] <= 'z' {
        alnumCount := alnumCount + 1;
      } else if '0' <= name[i] <= '9' {
        alnumCount := alnumCount + 1;
      }
    }
    assert name[..|name|] == name;
    if alnumCount < 3 {
      return Some(Plain("must contain at least 3 alphanumeric characters"));
    }
    return None;
  }

  lemma {:induction false} AlnumCountOfConcat(a: string, b: string)
    ensures AlnumCount(a + b) == AlnumCount(a) + AlnumCount(b)
  {
    if b == "" {
      assert a + b == a;
    } else {
      AlnumCountOfConcat(a, b[..|b| - 1]);
      assert (a + b)[..|a + b| - 1] == a + b[..|b| - 1];
    }
  }

  // ----------------------------------------------------------- sanitizing

  function LabelChars(s: string): string {
    if s == "" then ""
    else LabelChars(s[..|s| - 1]) + if IsLabelChar(s[|s| - 1]) then [s[|s| - 1]] else ""
  }

  /** `strings.Trim(s, "-")`. */
  function TrimDashes(s: string): string {
    if s == "" then s
    else if s[0] == '-' then TrimDashes(s[1..])
    else if s[|s| - 1] == '-' then TrimDashes(s[..|s| - 1])
    else s
  }

  /** `sanitizeDNSLabelPart` as a function. */
  function Sanitize(part: string): string {
    TrimDashes(LabelChars(ToLower(part)))
  }

  method SanitizeDNSLabelPart(part: string) returns (clean: string)
    ensures clean == Sanitize(part)
  {
    var lower := ToLower(part);
    var builder := "";
    for i := 0 to |lower|
      invariant builder == LabelChars(lower[..i])
    {
      assert lower[..i + 1][..i] == lower[..i];
      var r := lower[i];
      if 'a' <= r <= 'z' {
        builder := builder + [r];
      } else if '0' <= r <= '9' {
        builder := builder + [r];
      } else if r == '-' {
        builder := builder + [r];
      }
    }
    assert lower[..|lower|] == lower;
    clean := TrimDashes(builder);
  }

  lemma {:induction false} LabelCharsOnly(s: string)
    ensures forall c :: c in LabelChars(s) ==> IsLabelChar(c)
    ensures (forall c :: c in s ==> IsLabelChar(c)) ==> LabelChars(s) == s
  {
    if s != "" {
      LabelCharsOnly(s[..|s| - 1]);
      assert s == s[..|s| - 1] + [s[|s| - 1]];
    }
  }

  lemma {:induction false} TrimDashesTrims(s: string)
    requires forall c :: c in s ==> IsLabelChar(c)
    ensures TrimDashes(s) == "" || IsLabelBody(TrimDashes(s))
    decreases |s|
  {
    if s == "" {
    } else if s[0] == '-' {
      TrimDashesTrims(s[1..]);
    } else if s[|s| - 1] == '-' {
      TrimDashesTrims(s[..|s| - 1]);
    } else {
      assert s[0] in s && s[|s| - 1] in s;
    }
  }

  /** Sanitizing yields nothing or a label; labels are exactly its non-empty fixed points. */
  lemma SanitizedIsLabel(part: string)
    ensures Sanitize(part) == "" || IsLabelBody(Sanitize(part))
    ensures part != "" ==> (Sanitize(part) == part <==> IsLabelBody(part))
    ensures Sanitize(Sanitize(part)) == Sanitize(part)
  {
    LabelCharsOnly(ToLower(part));
    TrimDashesTrims(LabelChars(ToLower(part)));
    if IsLabelBody(part) {
      LabelsAreFixedPoints(part);
    }
    if IsLabelBody(Sanitize(part)) {
      LabelsAreFixedPoints(Sanitize(part));
    }
  }

  lemma LabelsAreFixedPoints(word: string)
    requires IsLabelBody(word)
    ensures Sanitize(word) == word
  {
    forall i | 0 <= i < |word|
      ensures LowerChar(word[i]) == word[i]
    {
      assert word[i] in word;
    }
    assert ToLower(word) == word;
    LabelCharsOnly(word);
  }

  // ------------------------------------------------------- deriving names

  /** Sanitized non-empty parts. */
  function Clean(parts: seq<string>): seq<string> {
    if parts == [] then []
    else
      var p := Sanitize(parts[|parts| - 1]);
      Clean(parts[..|parts| - 1]) + if p == "" then [] else [p]
  }

  /** Sanitized non-empty parts that are no generic host token. */
  function Significant(parts: seq<string>): seq<string> {
    if parts == [] then []
    else
      var p := Sanitize(parts[|parts| - 1]);
      Significant(parts[..|parts| - 1]) + if p == "" || p in IGNORED_HOST_TOKENS then [] else [p]
  }

  /** `stripKnownTLDSuffix` as a function. */
  function StripSuffix(parts: seq<string>): seq<string> {
    var clean := Clean(parts);
    if |clean| <= 1 then []
    else if clean[|clean| - 2] in SECONDARY_DOMAIN_TOKENS then clean[..|clean| - 2]
    else clean[..|clean| - 1]
  }

  /** `deriveHostLabel` as a function. */
  function HostLabel(parts: seq<string>): string {
    var filtered := Significant(parts);
    if filtered == [] then "" else filtered[|filtered| - 1]
  }

  method StripKnownTLDSuffix(parts: seq<string>) returns (stripped: seq<string>)
    ensures stripped == StripSuffix(parts)
  {
    var sanitized: seq<string> := [];
    for i := 0 to |parts|
      invariant sanitized == Clean(parts[..i])
    {
      assert parts[..i + 1][..i] == parts[..i];
      var part := SanitizeDNSLabelPart(parts[i]);
      if part == "" {
        continue;
      }
      sanitized := sanitized + [part];
    }
    assert parts[..|parts|] == parts;
    if |sanitized| == 0 {
      return sanitized;
    }
    var trimmed := sanitized[..|sanitized| - 1];
    if |trimmed| == 0 {
      return trimmed;
    }
    var last := trimmed[|trimmed| - 1];
    if last in SECONDARY_DOMAIN_TOKENS {
      return trimmed[..|trimmed| - 1];
    }
    return trimmed;
  }

  method DeriveHostLabel(parts: seq<string>) returns (candidate: string)
    ensures candidate == HostLabel(parts)
  {
    var filtered: seq<string> := [];
    for i := 0 to |parts|
      invariant filtered == Significant(parts[..i])
    {
      assert parts[..i + 1][..i] == parts[..i];
      var part := SanitizeDNSLabelPart(parts[i]);
      if part == "" || part in IGNORED_HOST_TOKENS {
        continue;
      }
      filtered := filtered + [part];
    }
    assert parts[..|parts|] == parts;
    if |filtered| == 0 {
      return "";
    }
    return filtered[|filtered| - 1];
  }

  /** The part of a host that gives the name, before the suffix is appended. */
  function Candidate(host: string): string {
    if '.' !in host then Sanitize(host) else HostLabel(StripSuffix(SplitDots(host)))
  }

  /** `normalizeRegistryHost`: url.Parse is the library's. */
  function NormalizeRegistryHost(lib: Library, server: string): Result<string> {
    var trimmed := TrimSpace(server);
    if trimmed == "" then Err(Plain("registry server is empty"))
    else
      var url := if HasScheme(trimmed) then trimmed else "https://" + trimmed;
      match lib.hostname(url)
      case None => Err(Wrapped("parse registry server", Plain("url.Parse")))
      case Some(name) =>
        var host := ToLower(name);
        if host == "" then Err(Plain("registry server does not include a hostname")) else Ok(host)
  }

  predicate HasScheme(s: string) {
    exists i :: 0 <= i <= |s| - 3 && s[i] == ':' && s[i + 1] == '/' && s[i + 2] == '/'
  }

  /** `DefaultTargetSecretName` as a function. */
  function DefaultName(lib: Library, server: string): Result<string> {
    match NormalizeRegistryHost(lib, server)
    case Err(e) => Err(e)
    case Ok(host) =>
      if Candidate(host) == "" then Err(Plain("derive secret name: empty candidate"))
      else Ok(Candidate(host) + PULL_SECRET_SUFFIX)
  }

  method DefaultTargetSecretName(lib: Library, server: string) returns (r: Result<string>)
    ensures r == DefaultName(lib, server)
  {
    var normalized := NormalizeRegistryHost(lib, server);
    if normalized.Err? {
      return normalized;
    }
    var host := normalized.value;
    var candidate;
    if '.' !in host {
      candidate := SanitizeDNSLabelPart(host);
    } else {
      var parts := StripKnownTLDSuffix(SplitDots(host));
      candidate := DeriveHostLabel(parts);
    }
    if candidate == "" {
      return Err(Plain("derive secret name: empty candidate"));
    }
    return Ok(candidate + PULL_SECRET_SUFFIX);
  }

  // ------------------------------------- derivation as one right-to-left scan

  /** What the scan is looking for: the top-level domain, then a secondary domain token,
      then the name. */
  datatype Phase = TopLevel | Secondary | Name

  /** The whole derivation as a single scan from the right. */
  function Scan(parts: seq<string>, phase: Phase): string {
    if parts == [] then ""
    else
      var rest, p := parts[..|parts| - 1], Sanitize(parts[|parts| - 1]);
      if p == "" then Scan(rest, phase)
      else if phase == TopLevel then Scan(rest, Secondary)
      else if phase == Secondary && p in SECONDARY_DOMAIN_TOKENS then Scan(rest, Name)
      else if p in IGNORED_HOST_TOKENS then Scan(rest, Name)
      else p
  }

  lemma {:induction false} HostLabelIsScan(parts: seq<string>)
    ensures HostLabel(parts) == Scan(parts, Name)
  {
    if parts != [] {
      HostLabelIsScan(parts[..|parts| - 1]);
    }
  }

  lemma {:induction false} ScanOfClean(parts: seq<string>, phase: Phase)
    ensures Scan(Clean(parts), phase) == Scan(parts, phase)
  {
    if parts != [] {
      var rest, p := parts[..|parts| - 1], Sanitize(parts[|parts| - 1]);
      ScanOfClean(rest, phase);
      if p == "" {
        assert Clean(parts) == Clean(rest);
      } else {
        SanitizedIsLabel(parts[|parts| - 1]);
        ScanOfClean(rest, Secondary);
        ScanOfClean(rest, Name);
        assert Clean(parts)[..|Clean(parts)| - 1] == Clean(rest);
      }
    }
  }

  lemma {:induction false} CleanPartsAreLabels(parts: seq<string>)
    ensures forall p :: p in Clean(parts) ==> p != "" && Sanitize(p) == p
  {
    if parts != [] {
      CleanPartsAreLabels(parts[..|parts| - 1]);
      SanitizedIsLabel(parts[|parts| - 1]);
    }
  }

  /** Stripping the suffix and then picking the last significant token is one scan. */
  lemma DerivationIsOneScan(parts: seq<string>)
    ensures HostLabel(StripSuffix(parts)) == Scan(parts, TopLevel)
  {
    var clean := Clean(parts);
    ScanOfClean(parts, TopLevel);
    HostLabelIsScan(StripSuffix(parts));
    CleanPartsAreLabels(parts);
    if |clean| >= 1 {
      assert clean[|clean| - 1] in clean;
      var trimmed := clean[..|clean| - 1];
      assert Scan(clean, TopLevel) == Scan(trimmed, Secondary);
      if |clean| >= 2 {
        assert trimmed[|trimmed| - 1] == clean[|clean| - 2] && clean[|clean| - 2] in clean;
        assert trimmed[..|trimmed| - 1] == clean[..|clean| - 2];
      }
    }
  }

  lemma {:induction false} ScanIgnoresPrefix(front: seq<string>, parts: seq<string>, phase: Phase)
    requires Scan(parts, phase) != ""
    ensures Scan(front + parts, phase) == Scan(parts, phase)
    decreases |parts|
  {
    var rest, p := parts[..|parts| - 1], Sanitize(parts[|parts| - 1]);
    assert (front + parts)[..|front + parts| - 1] == front + rest;
    if p == "" {
      ScanIgnoresPrefix(front, rest, phase);
    } else if phase == TopLevel {
      ScanIgnoresPrefix(front, rest, Secondary);
    } else if phase == Secondary && p in SECONDARY_DOMAIN_TOKENS {
      ScanIgnoresPrefix(front, rest, Name);
    } else if p in IGNORED_HOST_TOKENS {
      ScanIgnoresPrefix(front, rest, Name);
    }
  }

  /** Subdomains do not matter: once a dotted host derives, anything put in front of it
      leaves the derived name as it is. */
  lemma SubdomainsAreIgnored(sub: string, host: string)
    requires '.' in host && Candidate(host) != ""
    ensures Candidate(sub + "." + host) == Candidate(host)
  {
    var longer := sub + "." + host;
    assert longer[|sub|] == '.';
    SplitDotsOfJoined(sub, host);
    DerivationIsOneScan(SplitDots(host));
    DerivationIsOneScan(SplitDots(longer));
    ScanIgnoresPrefix(SplitDots(sub), SplitDots(host), TopLevel);
  }

  // -------------------------------------------------- derived names are good

  lemma {:induction false} ScanYieldsLabel(parts: seq<string>, phase: Phase)
    ensures Scan(parts, phase) == "" || (IsLabelBody(Scan(parts, phase)) && Scan(parts, phase) !in IGNORED_HOST_TOKENS)
  {
    if parts != [] {
      var rest := parts[..|parts| - 1];
      ScanYieldsLabel(rest, phase);
      ScanYieldsLabel(rest, Secondary);
      ScanYieldsLabel(rest, Name);
      SanitizedIsLabel(parts[|parts| - 1]);
    }
  }

  lemma CandidateIsLabel(host: string)
    ensures Candidate(host) == "" || IsLabelBody(Candidate(host))
  {
    if '.' in host {
      DerivationIsOneScan(SplitDots(host));
      ScanYieldsLabel(SplitDots(host), TopLevel);
    } else {
      SanitizedIsLabel(host);
    }
  }

  lemma LabelIsSubdomain(s: string)
    requires IsLabelBody(s)
    ensures IsDNS1123Subdomain(s) <==> |s| <= 253
  {
    assert '.' !in s;
    SplitDotsIsExact(s);
    assert SplitDots(s) == [s];
  }

  /** A derived name is a lowercase label, and the name validator accepts it exactly when
      the derived candidate is at most 241 characters long. */
  lemma DerivedNamesAreGood(lib: Library, server: string)
    requires DefaultName(lib, server).Ok?
    ensures var name := DefaultName(lib, server).value;
            && IsLabelBody(name)
            && |PULL_SECRET_SUFFIX| < |name|
            && (GoodName(name) <==> |name| - |PULL_SECRET_SUFFIX| <= 241)
  {
    var candidate := Candidate(NormalizeRegistryHost(lib, server).value);
    CandidateIsLabel(NormalizeRegistryHost(lib, server).value);
    var name := candidate + PULL_SECRET_SUFFIX;
    SuffixFacts();
    assert name[0] == candidate[0] && name[|name| - 1] == PULL_SECRET_SUFFIX[|PULL_SECRET_SUFFIX| - 1];
    assert IsLabelBody(name);
    LabelIsSubdomain(name);
    AlnumCountOfConcat(candidate, PULL_SECRET_SUFFIX);
  }

  lemma SuffixFacts()
    ensures forall c :: c in PULL_SECRET_SUFFIX ==> IsLabelChar(c)
    ensures IsAlnum(PULL_SECRET_SUFFIX[|PULL_SECRET_SUFFIX| - 1])
    ensures AlnumCount(PULL_SECRET_SUFFIX) >= 3
  {
    AlnumCountOfConcat("-pull-sec", "ret");
    assert PULL_SECRET_SUFFIX == "-pull-sec" + "ret";
    assert "ret"[..2] == "re" && "re"[..1] == "r" && "r"[..0] == "";
    assert AlnumCount("r") == 1;
    assert AlnumCount("re") == 2;
  }

  // ------------------------------------------------ what the host gives

  /** The scheme is optional and surrounding space is ignored. */
  lemma SchemeIsOptional(lib: Library, server: string)
    requires TrimSpace(server) != "" && !HasScheme(TrimSpace(server))
    ensures NormalizeRegistryHost(lib, "https://" + TrimSpace(server)) == NormalizeRegistryHost(lib, server)
    ensures NormalizeRegistryHost(lib, TrimSpace(server)) == NormalizeRegistryHost(lib, server)
  {
    TrimSpaceIsTight(server);
    var url := "https://" + TrimSpace(server);
    assert url[|url| - 1] == TrimSpace(server)[|TrimSpace(server)| - 1];
    assert TrimSpace(url) == url;
    assert url[5] == ':' && url[6] == '/' && url[7] == '/';
  }

  /** A host without a dot that is a label is kept as the name. */
  lemma UndottedHostIsKept(host: string)
    requires IsLabelBody(host)
    ensures Candidate(host) == host
  {
    LabelsAreFixedPoints(host);
    assert '.' !in host;
  }

  /** With a top-level domain the label in front of it is the name, unless it is generic or a
      secondary domain; with a secondary domain in between it is the label before that.
      Together with `SubdomainsAreIgnored` this covers hosts of any depth. */
  lemma DocumentedShapes(name: string, secondary: string, tld: string)
    requires IsLabelBody(name) && IsLabelBody(tld) && name !in IGNORED_HOST_TOKENS
    requires IsLabelBody(secondary) && secondary in SECONDARY_DOMAIN_TOKENS
    ensures name !in SECONDARY_DOMAIN_TOKENS ==> Candidate(name + "." + tld) == name
    ensures Candidate(name + "." + (secondary + "." + tld)) == name
  {
    LabelsAreFixedPoints(name);
    LabelsAreFixedPoints(secondary);
    LabelsAreFixedPoints(tld);
    assert '.' !in name && '.' !in secondary && '.' !in tld;
    UndottedSplitsToItself(name);
    UndottedSplitsToItself(secondary);
    UndottedSplitsToItself(tld);
    var short, long := name + "." + tld, name + "." + (secondary + "." + tld);
    assert short[|name|] == '.' && long[|name|] == '.';
    SplitDotsOfJoined(name, tld);
    SplitDotsOfJoined(secondary, tld);
    SplitDotsOfJoined(name, secondary + "." + tld);
    DerivationIsOneScan(SplitDots(short));
    DerivationIsOneScan(SplitDots(long));
    ScanOfLabels(name, secondary, tld);
  }

  lemma ScanOfLabels(name: string, secondary: string, tld: string)
    requires Sanitize(name) == name != "" && Sanitize(secondary) == secondary != "" && Sanitize(tld) == tld != ""
    requires name !in IGNORED_HOST_TOKENS && secondary in SECONDARY_DOMAIN_TOKENS
    ensures name !in SECONDARY_DOMAIN_TOKENS ==> Scan([name] + [tld], TopLevel) == name
    ensures Scan([name] + ([secondary] + [tld]), TopLevel) == name
  {
    var short, long := [name] + [tld], [name] + ([secondary] + [tld]);
    assert short[..1] == [name] && long[..2] == [name, secondary] && [name, secondary][..1] == [name];
    assert long[2] == tld && short[1] == tld;
    assert Scan(long, TopLevel) == Scan([name, secondary], Secondary);
    assert Scan([name, secondary], Secondary) == Scan([name], Name);
    assert Scan(short, TopLevel) == Scan([name], Secondary);
  }

  // ----------------------------------------------- when derivation fails

  lemma {:induction false} ScanFailsExactly(parts: seq<string>)
    ensures Scan(parts, Name) == "" <==>
              forall p :: p in parts ==> Sanitize(p) == "" || Sanitize(p) in IGNORED_HOST_TOKENS
  {
    if parts != [] {
      ScanFailsExactly(parts[..|parts| - 1]);
      assert parts == parts[..|parts| - 1] + [parts[|parts| - 1]];
    }
  }

  /** Some label left of the top-level domain, and of a secondary domain in front of it, is
      not one of the generic tokens; without a dot, the host has a letter or a digit. */
  predicate HostHasName(host: string) {
    if '.' in host then exists p :: p in StripSuffix(SplitDots(host)) && p !in IGNORED_HOST_TOKENS
    else exists c :: c in host && IsAlnum(LowerChar(c))
  }

  /** A host yields a name exactly when it has one in that sense. */
  lemma DerivationFailsExactly(host: string)
    ensures Candidate(host) != "" <==> HostHasName(host)
  {
    if '.' in host {
      var parts := StripSuffix(SplitDots(host));
      HostLabelIsScan(parts);
      ScanFailsExactly(parts);
      CleanPartsAreLabels(SplitDots(host));
      assert forall p :: p in parts ==> p in Clean(SplitDots(host));
    } else {
      SanitizesToNothing(host);
    }
  }

  /** Nothing is left of a part exactly when it has no letter and no digit. */
  lemma SanitizesToNothing(part: string)
    ensures Sanitize(part) != "" <==> exists c :: c in part && IsAlnum(LowerChar(c))
  {
    var lower := ToLower(part);
    LabelCharsMembers(lower);
    TrimsToNothing(LabelChars(lower));
    if c :| c in part && IsAlnum(LowerChar(c)) {
      var i :| 0 <= i < |part| && part[i] == c;
      assert lower[i] == LowerChar(c);
      assert LowerChar(c) in LabelChars(lower);
    }
    if c :| c in LabelChars(lower) && c != '-' {
      LabelCharsOnly(lower);
      var i :| 0 <= i < |lower| && lower[i] == c;
      assert part[i] in part && LowerChar(part[i]) == c;
    }
  }

  lemma {:induction false} LabelCharsMembers(s: string)
    ensures forall c :: c in LabelChars(s) <==> c in s && IsLabelChar(c)
  {
    if s != "" {
      LabelCharsMembers(s[..|s| - 1]);
      assert s == s[..|s| - 1] + [s[|s| - 1]];
    }
  }

  lemma {:induction false} TrimsToNothing(s: string)
    ensures TrimDashes(s) != "" <==> exists c :: c in s && c != '-'
    decreases |s|
  {
    if s == "" {
    } else if s[0] == '-' {
      TrimsToNothing(s[1..]);
      assert s == [s[0]] + s[1..];
      assert forall c :: c in s <==> c == '-' || c in s[1..];
    } else {
      assert s[0] in s;
      if s[|s| - 1] == '-' {
        TrimsToNothing(s[..|s| - 1]);
        assert s[..|s| - 1][0] == s[0];
        assert s[0] in s[..|s| - 1];
      }
    }
  }

  /** The documentation promises "docker-pull-secret" for docker.io; the code finds no name. */
  lemma DockerHubHasNoDerivedName(lib: Library, server: string)
    requires NormalizeRegistryHost(lib, server) == Ok("docker.io")
    ensures Candidate("docker.io") == ""
    ensures DefaultName(lib, server).Err?
  {
    LabelsAreFixedPoints("docker");
    LabelsAreFixedPoints("io");
    assert "docker.io" == "docker" + "." + "io";
    TwoLabelHost("docker", "io");
  }

  /** A generic token in front of a top-level domain is not enough for a name. */
  lemma TwoLabelHost(first: string, last: string)
    requires '.' !in first && '.' !in last
    requires first in IGNORED_HOST_TOKENS && first !in SECONDARY_DOMAIN_TOKENS
    requires last != "" && Sanitize(first) == first && Sanitize(last) == last
    ensures Candidate(first + "." + last) == ""
  {
    assert (first + "." + last)[|first|] == '.';
    SplitDotsOfJoined(first, last);
    UndottedSplitsToItself(first);
    UndottedSplitsToItself(last);
    ScanOfTwoLabels(first, last);
    DerivationIsOneScan(SplitDots(first + "." + last));
  }

  lemma UndottedSplitsToItself(s: string)
    requires '.' !in s
    ensures SplitDots(s) == [s]
  {
    SplitDotsIsExact(s);
  }

  lemma ScanOfTwoLabels(first: string, last: string)
    requires first in IGNORED_HOST_TOKENS && first !in SECONDARY_DOMAIN_TOKENS
    requires last != "" && Sanitize(first) == first && Sanitize(last) == last
    ensures Scan([first] + [last], TopLevel) == ""
  {
    var parts := [first, last];
    assert parts[..1] == [first];
    assert Scan([first], Secondary) == Scan([first][..0], Name);
    assert Scan(parts, TopLevel) == Scan([first], Secondary);
  }
}
