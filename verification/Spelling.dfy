/** What trimming, sanitizing, deriving and name checking mean on the text itself, in terms of
    the characters and labels a user writes. */
module Spelling {
  import opened Model
  import opened Names

  // ------------------------------------------------------------- trimming

  predicate White(c: char) {
    c in {' ', '\t', '\n', '\r', '\U{000B}', '\U{000C}'}
  }

  predicate Spaces(s: string) {
    forall c :: c in s ==> White(c)
  }

  /** `t` is `s` without the white space around it. */
  ghost predicate TrimsTo(s: string, t: string) {
    && (t == "" || (!White(t[0]) && !White(t[|t| - 1])))
    && exists left, right :: Spaces(left) && Spaces(right) && s == left + t + right
  }

  /** Trimming takes away all the white space around a text and nothing else. */
  lemma TrimSpaceExactly(s: string, t: string)
    ensures TrimSpace(s) == t <==> TrimsTo(s, t)
  {
    TrimSpaceIsTight(s);
    SpacesAreWhite();
    var left, right := TrimmedSpace(s);
    if TrimsTo(s, t) {
      var l, r :| Spaces(l) && Spaces(r) && s == l + t + r;
      PaddingIsTrimmed(l, t, r);
    }
  }

  lemma SpacesAreWhite()
    ensures forall c :: IsSpace(c) <==> White(c)
  {
  }

  lemma {:induction false} TrimmedSpace(s: string) returns (left: string, right: string)
    ensures Spaces(left) && Spaces(right) && s == left + TrimSpace(s) + right
    decreases |s|
  {
    left, right := "", "";
    SpacesAreWhite();
    if s == "" {
    } else if IsSpace(s[0]) {
      left, right := TrimmedSpace(s[1..]);
      left := [s[0]] + left;
    } else if IsSpace(s[|s| - 1]) {
      left, right := TrimmedSpace(s[..|s| - 1]);
      right := right + [s[|s| - 1]];
    }
  }

  lemma {:induction false} PaddingIsTrimmed(left: string, t: string, right: string)
    requires Spaces(left) && Spaces(right)
    requires t == "" || (!White(t[0]) && !White(t[|t| - 1]))
    ensures TrimSpace(left + t + right) == t
    decreases |left| + |right|
  {
    var s := left + t + right;
    SpacesAreWhite();
    if t == "" {
      TrimSpaceIsTight(s);
    } else if left != "" {
      assert left[0] in left && forall c :: c in left[1..] ==> c in left;
      assert s[1..] == left[1..] + t + right;
      PaddingIsTrimmed(left[1..], t, right);
    } else if right != "" {
      assert s[0] == t[0] && s[..|s| - 1] == left + t + right[..|right| - 1];
      assert s[|s| - 1] == right[|right| - 1] && right[|right| - 1] in right;
      assert forall c :: c in right[..|right| - 1] ==> c in right;
      PaddingIsTrimmed(left, t, right[..|right| - 1]);
    } else {
      assert s == t;
    }
  }

  // ----------------------------------------------------------- sanitizing

  predicate Letter(c: char) {
    'a' <= c <= 'z'
  }

  predicate Capital(c: char) {
    'A' <= c <= 'Z'
  }

  predicate Digit(c: char) {
    '0' <= c <= '9'
  }

  /** 'A' is 32 below 'a'. */
  function Lower(c: char): char {
    if Capital(c) then (c as int + 32) as char else c
  }

  /** Removing or lowering one character is sanitizing's business, and so are the outer dashes. */
  ghost predicate Sanitizes(f: string -> string) {
    && (forall a, c, b :: !Letter(c) && !Capital(c) && !Digit(c) && c != '-' ==> f(a + [c] + b) == f(a + b))
    && (forall a, c, b :: Capital(c) ==> f(a + [c] + b) == f(a + [Lower(c)] + b))
    && (forall a :: f("-" + a) == f(a) && f(a + "-") == f(a))
    && (forall a :: a == "" || IsLabelBody(a) ==> f(a) == a)
  }

  lemma SanitizeSanitizes()
    ensures Sanitizes(Sanitize)
  {
    forall a: string, c: char, b: string
      ensures !Letter(c) && !Capital(c) && !Digit(c) && c != '-' ==> Sanitize(a + [c] + b) == Sanitize(a + b)
      ensures Capital(c) ==> Sanitize(a + [c] + b) == Sanitize(a + [Lower(c)] + b)
    {
      FilteredAround(a, c, b);
      assert Filtered(a) + "" + Filtered(b) == Filtered(a) + Filtered(b);
    }
    forall a: string
      ensures Sanitize("-" + a) == Sanitize(a) && Sanitize(a + "-") == Sanitize(a)
    {
      OuterDashes(a);
    }
    forall a | a == "" || IsLabelBody(a)
      ensures Sanitize(a) == a
    {
      if a != "" {
        LabelsAreFixedPoints(a);
      }
    }
  }

  function Filtered(s: string): string {
    LabelChars(ToLower(s))
  }

  lemma {:induction false} LabelCharsOfConcat(a: string, b: string)
    ensures LabelChars(a + b) == LabelChars(a) + LabelChars(b)
  {
    if b == "" {
      assert a + b == a;
    } else {
      LabelCharsOfConcat(a, b[..|b| - 1]);
      assert (a + b)[..|a + b| - 1] == a + b[..|b| - 1];
    }
  }

  lemma FilteredOfConcat(a: string, b: string)
    ensures Filtered(a + b) == Filtered(a) + Filtered(b)
  {
    assert ToLower(a + b) == ToLower(a) + ToLower(b);
    LabelCharsOfConcat(ToLower(a), ToLower(b));
  }

  lemma FilteredAround(a: string, c: char, b: string)
    ensures Filtered(a + [c] + b) == Filtered(a) + Filtered([c]) + Filtered(b)
    ensures Filtered(a + b) == Filtered(a) + Filtered(b)
    ensures Filtered(a + [Lower(c)] + b) == Filtered(a) + Filtered([Lower(c)]) + Filtered(b)
    ensures !Letter(c) && !Capital(c) && !Digit(c) && c != '-' ==> Filtered([c]) == ""
    ensures Filtered([Lower(c)]) == Filtered([c])
  {
    FilteredOfConcat(a + [c], b);
    FilteredOfConcat(a, [c]);
    FilteredOfConcat(a, b);
    FilteredOfConcat(a + [Lower(c)], b);
    FilteredOfConcat(a, [Lower(c)]);
    OneCharacter(c);
    OneCharacter(Lower(c));
  }

  lemma OneCharacter(c: char)
    ensures Filtered([c]) == if Letter(c) || Capital(c) || Digit(c) || c == '-' then [Lower(c)] else ""
  {
    assert ToLower([c]) == [LowerChar(c)];
    assert LabelChars([LowerChar(c)]) == LabelChars("") + if IsLabelChar(LowerChar(c)) then [LowerChar(c)] else "";
  }

  lemma {:induction false} TrimDashesAround(s: string)
    ensures TrimDashes("-" + s) == TrimDashes(s)
    ensures TrimDashes(s + "-") == TrimDashes(s)
    decreases |s|
  {
    assert ("-" + s)[1..] == s;
    assert (s + "-")[..|s|] == s;
    if s == "" {
      assert TrimDashes("-") == TrimDashes("-"[1..]);
    } else if s[0] == '-' {
      TrimDashesAround(s[1..]);
      assert (s + "-")[1..] == s[1..] + "-";
    }
  }

  lemma OuterDashes(a: string)
    ensures Sanitize("-" + a) == Sanitize(a) && Sanitize(a + "-") == Sanitize(a)
  {
    FilteredOfConcat("-", a);
    FilteredOfConcat(a, "-");
    OneCharacter('-');
    TrimDashesAround(Filtered(a));
  }

  /** Case is lowered, characters other than letters, digits and dashes are dropped wherever they
      are, outer dashes are dropped, and labels are left alone: only sanitizing does that. */
  lemma SanitizeIsTheOnlyOne(f: string -> string)
    ensures Sanitizes(f) <==> forall part :: f(part) == Sanitize(part)
  {
    SanitizeSanitizes();
    if Sanitizes(f) {
      forall part: string
        ensures f(part) == Sanitize(part)
      {
        AgreeAfter(f, "", part);
        assert "" + part == part;
      }
    } else if forall part :: f(part) == Sanitize(part) {
      SameLaws(f);
    }
  }

  lemma SameLaws(f: string -> string)
    requires forall part :: f(part) == Sanitize(part)
    ensures Sanitizes(f)
  {
    SanitizeSanitizes();
    forall a: string, c: char, b: string
      ensures !Letter(c) && !Capital(c) && !Digit(c) && c != '-' ==> f(a + [c] + b) == f(a + b)
      ensures Capital(c) ==> f(a + [c] + b) == f(a + [Lower(c)] + b)
    {
      FilteredAround(a, c, b);
    }
  }

  /** With the first part already lowered and filtered. */
  lemma {:induction false} AgreeAfter(f: string -> string, clean: string, rest: string)
    requires Sanitizes(f) && forall c :: c in clean ==> IsLabelChar(c)
    ensures f(clean + rest) == Sanitize(clean + rest)
    decreases |rest|
  {
    if rest == "" {
      assert clean + rest == clean;
      AgreeOnClean(f, clean);
    } else {
      SanitizeSanitizes();
      var c := rest[0];
      assert clean + rest == clean + [c] + rest[1..];
      if !Letter(c) && !Capital(c) && !Digit(c) && c != '-' {
        AgreeAfter(f, clean, rest[1..]);
      } else {
        AgreeAfter(f, clean + [Lower(c)], rest[1..]);
      }
    }
  }

  lemma {:induction false} AgreeOnClean(f: string -> string, s: string)
    requires Sanitizes(f) && forall c :: c in s ==> IsLabelChar(c)
    ensures f(s) == Sanitize(s)
    decreases |s|
  {
    if s == "" {
      assert Sanitize("") == "";
    } else if s[0] == '-' {
      assert s == "-" + s[1..];
      OuterDashes(s[1..]);
      AgreeOnClean(f, s[1..]);
    } else if s[|s| - 1] == '-' {
      assert s == s[..|s| - 1] + "-";
      OuterDashes(s[..|s| - 1]);
      AgreeOnClean(f, s[..|s| - 1]);
    } else {
      assert s[0] in s && s[|s| - 1] in s;
      LabelsAreFixedPoints(s);
    }
  }

  // ------------------------------------------------------------- the host

  /** The host of a server is what the URL parser finds, with a scheme put in front if there is
      none, in lower case. */
  lemma HostIsFoundExactly(lib: Library, server: string, t: string, host: string)
    requires TrimsTo(server, t)
    ensures
      var found := lib.hostname(if exists i :: SchemeAt(t, i) then t else "https://" + t);
      NormalizeRegistryHost(lib, server) == Ok(host) <==>
        && t != "" && found.Some? && found.value != "" && |host| == |found.value|
        && forall i :: 0 <= i < |host| ==> host[i] == Lower(found.value[i])
  {
    TrimSpaceExactly(server, t);
    SchemeIsSeparator(t);
    var found := lib.hostname(if HasScheme(t) then t else "https://" + t);
    if found.Some? {
      LoweredExactly(found.value, host);
    }
  }

  predicate SchemeAt(t: string, i: int) {
    0 <= i <= |t| - 3 && t[i..i + 3] == "://"
  }

  lemma SchemeIsSeparator(t: string)
    ensures HasScheme(t) <==> exists i :: SchemeAt(t, i)
  {
    if HasScheme(t) {
      var i :| 0 <= i <= |t| - 3 && t[i] == ':' && t[i + 1] == '/' && t[i + 2] == '/';
      assert SchemeAt(t, i);
    }
    if i :| SchemeAt(t, i) {
      assert t[i] == t[i..i + 3][0] && t[i + 1] == t[i..i + 3][1] && t[i + 2] == t[i..i + 3][2];
    }
  }

  lemma LoweredExactly(s: string, t: string)
    ensures ToLower(s) == t <==> |t| == |s| && forall i :: 0 <= i < |t| ==> t[i] == Lower(s[i])
  {
  }

  // -------------------------------------------------- hosts made of labels

  /** The number of labels in front of the suffix: all but the top-level domain, and but a
      secondary domain before it. */
  function NameLabels(labels: seq<string>): nat
    requires |labels| >= 2
  {
    if labels[|labels| - 2] in {"gov", "net", "com", "co", "org", "edu"} then |labels| - 2 else |labels| - 1
  }

  predicate Generic(part: string) {
    part in {"docker", "registry", "www"}
  }

  /** The last of the first `n` labels that is not generic. */
  predicate LastNamed(labels: seq<string>, n: nat, i: int)
    requires n <= |labels|
  {
    0 <= i < n && !Generic(labels[i]) && forall j :: i < j < n ==> Generic(labels[j])
  }

  predicate AllGeneric(labels: seq<string>, n: nat)
    requires n <= |labels|
  {
    forall i :: 0 <= i < n ==> Generic(labels[i])
  }

  /** The name of a dotted host is the last label in front of the suffix that is not generic,
      whatever its depth; with generic labels only there is no name. */
  lemma LabelsDerive(labels: seq<string>)
    requires |labels| >= 2 && forall i :: 0 <= i < |labels| ==> IsLabelBody(labels[i])
    ensures
      var name, n := Candidate(JoinDots(labels)), NameLabels(labels);
      && (name == "" <==> AllGeneric(labels, n))
      && forall i :: LastNamed(labels, n, i) ==> name == labels[i]
  {
    var n := NameLabels(labels);
    LabelsAreFixed(labels);
    CandidateOfLabels(labels);
    LastLabelIsHostLabel(labels, n);
    LastOfLabels(labels, n);
  }

  predicate Fixed(p: string) {
    p != "" && '.' !in p && Sanitize(p) == p
  }

  lemma LabelsAreFixed(labels: seq<string>)
    requires forall i :: 0 <= i < |labels| ==> IsLabelBody(labels[i])
    ensures forall i :: 0 <= i < |labels| ==> Fixed(labels[i])
  {
    forall i | 0 <= i < |labels|
      ensures Fixed(labels[i])
    {
      LabelsAreFixedPoints(labels[i]);
    }
  }

  lemma CandidateOfLabels(labels: seq<string>)
    requires |labels| >= 2 && forall i :: 0 <= i < |labels| ==> Fixed(labels[i])
    ensures Candidate(JoinDots(labels)) == HostLabel(labels[..NameLabels(labels)])
  {
    var host := JoinDots(labels);
    assert SplitDots(host) == labels by {
      JoinedLabelsSplit(labels);
    }
    assert '.' in host by {
      SplitDotsIsExact(host);
    }
    LabelsAreClean(labels);
    SuffixOfClean(labels, labels);
  }

  lemma SuffixOfClean(parts: seq<string>, clean: seq<string>)
    requires |clean| >= 2 && Clean(parts) == clean
    ensures StripSuffix(parts) == clean[..NameLabels(clean)]
  {
    SameTokens(clean[|clean| - 2]);
  }

  lemma SameTokens(part: string)
    ensures part in SECONDARY_DOMAIN_TOKENS <==> part in {"gov", "net", "com", "co", "org", "edu"}
  {
  }

  lemma {:induction false} JoinedLabelsSplit(parts: seq<string>)
    requires parts != [] && forall i :: 0 <= i < |parts| ==> Fixed(parts[i])
    ensures SplitDots(JoinDots(parts)) == parts
  {
    UndottedSplitsToItself(parts[0]);
    if |parts| > 1 {
      JoinedLabelsSplit(parts[1..]);
      SplitDotsOfJoined(parts[0], JoinDots(parts[1..]));
    }
  }

  lemma {:induction false} LabelsAreClean(labels: seq<string>)
    requires forall i :: 0 <= i < |labels| ==> Fixed(labels[i])
    ensures Clean(labels) == labels
  {
    if labels != [] {
      LabelsAreClean(labels[..|labels| - 1]);
      CleanNext(labels[..|labels| - 1], labels[|labels| - 1]);
      assert labels == labels[..|labels| - 1] + [labels[|labels| - 1]];
    }
  }

  lemma CleanNext(parts: seq<string>, p: string)
    requires Fixed(p)
    ensures Clean(parts + [p]) == Clean(parts) + [p]
  {
    assert (parts + [p])[..|parts|] == parts;
  }

  /** The same search on the labels as they are. */
  function LastLabel(labels: seq<string>, n: nat): string
    requires n <= |labels|
  {
    if n == 0 then ""
    else if Generic(labels[n - 1]) then LastLabel(labels, n - 1)
    else labels[n - 1]
  }

  lemma {:induction false} LastLabelIsHostLabel(labels: seq<string>, n: nat)
    requires n <= |labels| && forall i :: 0 <= i < |labels| ==> IsLabelBody(labels[i])
    ensures HostLabel(labels[..n]) == LastLabel(labels, n)
  {
    if n == 0 {
      assert labels[..0] == [];
    } else {
      LastLabelIsHostLabel(labels, n - 1);
      NextLabel(labels, n - 1);
    }
  }

  lemma {:induction false} LastOfLabels(labels: seq<string>, n: nat)
    requires n <= |labels| && forall i :: 0 <= i < |labels| ==> labels[i] != ""
    ensures LastLabel(labels, n) == "" <==> AllGeneric(labels, n)
    ensures forall i :: LastNamed(labels, n, i) ==> LastLabel(labels, n) == labels[i]
  {
    if n > 0 {
      LastOfLabels(labels, n - 1);
      assert forall i :: LastNamed(labels, n, i) && i < n - 1 ==> LastNamed(labels, n - 1, i);
    }
  }

  lemma NextLabel(labels: seq<string>, n: nat)
    requires n < |labels| && IsLabelBody(labels[n])
    ensures HostLabel(labels[..n + 1]) == if Generic(labels[n]) then HostLabel(labels[..n]) else labels[n]
  {
    LabelsAreFixedPoints(labels[n]);
    assert labels[..n + 1][..n] == labels[..n];
  }

  /** The default Secret name of a server whose host is made of labels. */
  lemma DefaultNameOfLabels(lib: Library, server: string, labels: seq<string>)
    requires |labels| >= 2 && forall i :: 0 <= i < |labels| ==> IsLabelBody(labels[i])
    requires NormalizeRegistryHost(lib, server) == Ok(JoinDots(labels))
    ensures
      var r, n := DefaultName(lib, server), NameLabels(labels);
      && (r.Err? <==> AllGeneric(labels, n))
      && forall i :: LastNamed(labels, n, i) ==> r == Ok(labels[i] + "-pull-secret")
  {
    var n := NameLabels(labels);
    LabelsDerive(labels);
    forall i | LastNamed(labels, n, i)
      ensures labels[i] != ""
    {
      assert IsLabelBody(labels[i]);
    }
  }

  /** For example: a top-level domain is stripped, and so are a secondary domain and a generic
      label in front. */
  lemma DocumentedHosts()
    ensures Candidate("ghcr.io") == "ghcr" && Candidate("registry.widgets.co.uk") == "widgets"
  {
    GhcrNamed();
    WidgetsNamed();
  }

  lemma GhcrNamed()
    ensures Candidate("ghcr.io") == "ghcr"
  {
    var labels := ["ghcr", "io"];
    assert labels[1..] == ["io"];
    assert JoinDots(labels) == "ghcr" + "." + "io" == "ghcr.io";
    LabelsDerive(labels);
    assert LastNamed(labels, 1, 0);
  }

  lemma WidgetsNamed()
    ensures Candidate("registry.widgets.co.uk") == "widgets"
  {
    var labels := ["registry", "widgets", "co", "uk"];
    WidgetsJoined();
    assert IsLabelBody("registry") && IsLabelBody("widgets") && IsLabelBody("co") && IsLabelBody("uk");
    LabelsDerive(labels);
    assert NameLabels(labels) == 2;
    assert LastNamed(labels, 2, 1);
  }

  lemma WidgetsJoined()
    ensures JoinDots(["registry", "widgets", "co", "uk"]) == "registry.widgets.co.uk"
  {
    assert ["registry", "widgets", "co", "uk"][1..] == ["widgets", "co", "uk"];
    assert ["widgets", "co", "uk"][1..] == ["co", "uk"] && ["co", "uk"][1..] == ["uk"];
    assert JoinDots(["co", "uk"]) == "co" + "." + "uk" == "co.uk";
    assert JoinDots(["widgets", "co", "uk"]) == "widgets" + "." + "co.uk" == "widgets.co.uk";
  }

  // --------------------------------------------------------- valid names

  /** Where a reader of a subdomain is: at the start of a label, after a letter or digit, or
      after a dash. */
  datatype Reader = AtStart | AfterAlnum | AfterDash

  /** Reads `[a-z0-9]([-a-z0-9]*[a-z0-9])?(\.[a-z0-9]([-a-z0-9]*[a-z0-9])?)*` from left to right. */
  predicate Reads(reader: Reader, s: string)
    decreases |s|
  {
    if s == "" then reader == AfterAlnum
    else if Letter(s[0]) || Digit(s[0]) then Reads(AfterAlnum, s[1..])
    else if s[0] == '-' then reader != AtStart && Reads(AfterDash, s[1..])
    else s[0] == '.' && reader == AfterAlnum && Reads(AtStart, s[1..])
  }

  /** What the rest of the label being read still has to look like. */
  predicate LabelEnd(reader: Reader, rest: string) {
    && (forall c :: c in rest ==> IsLabelChar(c))
    && (if rest == "" then reader == AfterAlnum
        else IsAlnum(rest[|rest| - 1]) && (reader == AtStart ==> IsAlnum(rest[0])))
  }

  lemma {:induction false} ReadsExactly(reader: Reader, s: string)
    ensures
      var parts := SplitDots(s);
      Reads(reader, s) <==> LabelEnd(reader, parts[0]) && forall p :: p in parts[1..] ==> IsLabelBody(p)
    decreases |s|
  {
    if s != "" {
      var parts, rest := SplitDots(s), SplitDots(s[1..]);
      ReadsExactly(AtStart, s[1..]);
      ReadsExactly(AfterAlnum, s[1..]);
      ReadsExactly(AfterDash, s[1..]);
      if s[0] == '.' {
        assert parts[1..] == rest;
        assert LabelEnd(AtStart, rest[0]) <==> IsLabelBody(rest[0]);
        assert rest == [rest[0]] + rest[1..];
      } else {
        assert parts[1..] == rest[1..] && parts[0] == [s[0]] + rest[0];
        LabelEndNext(reader, s[0], rest[0]);
      }
    }
  }

  lemma LabelEndNext(reader: Reader, c: char, rest: string)
    requires c != '.'
    ensures LabelEnd(reader, [c] + rest) <==>
            if Letter(c) || Digit(c) then LabelEnd(AfterAlnum, rest)
            else c == '-' && reader != AtStart && LabelEnd(AfterDash, rest)
  {
    var longer := [c] + rest;
    assert longer[0] == c && longer[1..] == rest;
    assert (forall d :: d in longer ==> IsLabelChar(d)) <==>
           IsLabelChar(c) && forall d :: d in rest ==> IsLabelChar(d)
    by {
      assert forall d :: d in longer <==> d == c || d in rest;
    }
    assert rest != "" ==> longer[|longer| - 1] == rest[|rest| - 1];
  }

  /** A name is good when one pass over it accepts, it is not too long, and three of its
      characters are letters or digits. */
  lemma GoodNameExactly(s: string)
    ensures GoodName(s) <==>
            && |s| <= 253 && Reads(AtStart, s)
            && exists i, j, k :: 0 <= i < j < k < |s| && AlnumAt(s, i) && AlnumAt(s, j) && AlnumAt(s, k)
  {
    ReadsExactly(AtStart, s);
    var parts := SplitDots(s);
    assert parts == [parts[0]] + parts[1..];
    assert LabelEnd(AtStart, parts[0]) <==> IsLabelBody(parts[0]);
    CountsThree(s);
  }

  predicate AlnumAt(s: string, i: int) {
    0 <= i < |s| && (Letter(s[i]) || Digit(s[i]))
  }

  lemma {:induction false} CountsExactly(s: string, n: nat)
    ensures AlnumCount(s) > n <==> exists k :: AlnumAt(s, k) && AlnumCount(s[..k]) >= n
  {
    if s != "" {
      var last, init := |s| - 1, s[..|s| - 1];
      CountsExactly(init, n);
      assert s[..last] == init;
      if k :| AlnumAt(init, k) && AlnumCount(init[..k]) >= n {
        assert AlnumAt(s, k) && s[..k] == init[..k];
      }
      if k :| AlnumAt(s, k) && AlnumCount(s[..k]) >= n && k < last {
        assert AlnumAt(init, k) && s[..k] == init[..k];
      }
      if IsAlnum(s[last]) && AlnumCount(s) > n {
        assert AlnumAt(s, last) && AlnumCount(s[..last]) >= n;
      }
    }
  }

  lemma CountsThree(s: string)
    ensures AlnumCount(s) >= 3 <==>
            exists i, j, k :: 0 <= i < j < k < |s| && AlnumAt(s, i) && AlnumAt(s, j) && AlnumAt(s, k)
  {
    CountsExactly(s, 2);
    if AlnumCount(s) >= 3 {
      var k :| AlnumAt(s, k) && AlnumCount(s[..k]) >= 2;
      var i, j := TwoCounted(s[..k]);
      assert AlnumAt(s, i) && AlnumAt(s, j);
    }
    if i, j, k :| 0 <= i < j < k < |s| && AlnumAt(s, i) && AlnumAt(s, j) && AlnumAt(s, k) {
      CountsTwo(s[..k], i, j);
    }
  }

  lemma TwoCounted(s: string) returns (i: int, j: int)
    requires AlnumCount(s) >= 2
    ensures 0 <= i < j < |s| && AlnumAt(s, i) && AlnumAt(s, j)
  {
    CountsExactly(s, 1);
    j :| AlnumAt(s, j) && AlnumCount(s[..j]) >= 1;
    CountsExactly(s[..j], 0);
    i :| AlnumAt(s[..j], i);
  }

  lemma CountsTwo(s: string, i: int, j: int)
    requires 0 <= i < j < |s| && AlnumAt(s, i) && AlnumAt(s, j)
    ensures AlnumCount(s) >= 2
  {
    CountsExactly(s[..j], 0);
    assert AlnumAt(s[..j], i) && AlnumCount(s[..j][..i]) >= 0;
    CountsExactly(s, 1);
  }

  /** A namespace name is a name of one label and at most 63 characters. */
  lemma NamespaceNameExactly(s: string)
    ensures IsDNS1123Label(s) <==> |s| <= 63 && '.' !in s && Reads(AtStart, s)
  {
    ReadsExactly(AtStart, s);
    if '.' !in s {
      UndottedSplitsToItself(s);
    }
  }
}
