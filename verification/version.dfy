/** The release check on the compiler's own version string (`isRelease` in
    kotlin-native/backend.native/compiler/ir/backend.native/src/org/jetbrains/kotlin/backend/konan/SetupConfiguration.kt).
    The version must match, as a whole, the pattern
      (\d+)\.(\d+)(?:\.(\d+))?(?:-(\p{Alpha}*\p{Alnum}|[\p{Alpha}-]*))?(?:-(\d+))?
    and it is a release when the meta (fourth) and build (fifth) groups are both empty; a group
    that takes no part in the match reads as empty. The model follows the backtracking order of
    Java's regex engine: greedy repetitions are tried longest first, the alternatives of the meta
    group left to right, and an optional group is first tried taken. Without the
    UNICODE_CHARACTER_CLASS flag `\d`, `\p{Alpha}` and `\p{Alnum}` are ASCII classes. */
module Version {
  import opened Wrappers
  import opened Text

  predicate IsAlpha(c: char) {
    'a' <= c <= 'z' || 'A' <= c <= 'Z'
  }

  predicate IsAlnum(c: char) {
    IsAlpha(c) || IsDigit(c)
  }

  /** A character of `[\p{Alpha}-]`. */
  predicate IsMetaChar(c: char) {
    IsAlpha(c) || c == '-'
  }

  /** The length of the longest prefix of `s` whose characters all satisfy `p`. */
  function Run(s: string, p: char -> bool): (n: nat)
    ensures n <= |s|
    ensures forall i | 0 <= i < n :: p(s[i])
    ensures n < |s| ==> !p(s[n])
  {
    if |s| == 0 || !p(s[0]) then 0 else 1 + Run(s[1..], p)
  }

  /** `(?:-(\d+))?` followed by the end of the input: the build group's text ("" when the group
      is not taken), or nothing when the rest does not fit. */
  function BuildTail(r: string): (b: Option<string>)
    ensures b.Some? <==> r == "" || (r[0] == '-' && IsDigits(r[1..]))
    ensures b.Some? ==> r == (if b.value == "" then "" else "-" + b.value)
  {
    if r == "" then Some("")
    else if r[0] == '-' && IsDigits(r[1..]) then
      assert r == "-" + r[1..];
      Some(r[1..])
    else None
  }

  /** The first alternative `\p{Alpha}*\p{Alnum}` with its `\p{Alpha}*` taking `k` characters,
      then fewer: the first choice after which the rest matches gives (meta, build). */
  function MetaAlpha(u: string, k: nat): (r: Option<(string, string)>)
    requires k <= |u|
    ensures r.Some? ==> |r.value.0| >= 1 && r.value.0 + (if r.value.1 == "" then "" else "-" + r.value.1) == u
    decreases k
  {
    var here := if k < |u| && IsAlnum(u[k]) then BuildTail(u[k + 1..]) else None;
    if here.Some? then
      assert u == u[..k + 1] + u[k + 1..];
      Some((u[..k + 1], here.value))
    else if k == 0 then None
    else MetaAlpha(u, k - 1)
  }

  /** The second alternative `[\p{Alpha}-]*` taking `l` characters, then fewer. */
  function MetaDashed(u: string, l: nat): (r: Option<(string, string)>)
    requires l <= |u|
    ensures r.Some? ==> r.value.0 + (if r.value.1 == "" then "" else "-" + r.value.1) == u
    ensures r.Some? && r.value.0 == "" ==> BuildTail(u) == Some(r.value.1)
    decreases l
  {
    var here := BuildTail(u[l..]);
    if here.Some? then
      assert u == u[..l] + u[l..];
      Some((u[..l], here.value))
    else if l == 0 then None
    else MetaDashed(u, l - 1)
  }

  /** The part after `major.minor[.patch]`, matched against
      `(?:-(meta))?(?:-(\d+))?` and the end of input: (meta, build), or nothing on a mismatch. */
  function TailGroups(t: string): (r: Option<(string, string)>)
  {
    var taken :=
      if |t| > 0 && t[0] == '-' then
        var u := t[1..];
        var first := MetaAlpha(u, Run(u, IsAlpha));
        if first.Some? then first else MetaDashed(u, Run(u, IsMetaChar))
      else None;
    if taken.Some? then taken
    else
      match BuildTail(t)
      case Some(b) => Some(("", b))
      case None => None
  }

  /** The digit groups and the tail: `(\d+)\.(\d+)`, then the rest. Each `\d+` takes the whole
      run of digits, since giving one back leaves a digit where '.', '-' or the end is needed. */
  function VersionGroups(v: string): (r: Option<(string, string)>)
  {
    var major := Run(v, IsDigit);
    if major == 0 || major == |v| || v[major] != '.' then None
    else
      var afterMajor := v[major + 1..];
      var minor := Run(afterMajor, IsDigit);
      if minor == 0 then None
      else AfterMinor(afterMajor[minor..])
  }

  /** `(?:\.(\d+))?` and the tail: the patch group is tried taken first and, if the rest does
      not match, left out. */
  function AfterMinor(rest: string): (r: Option<(string, string)>)
  {
    var patch := if |rest| > 0 && rest[0] == '.' then Run(rest[1..], IsDigit) else 0;
    var withPatch := if patch > 0 then TailGroups(rest[1 + patch..]) else None;
    if withPatch.Some? then withPatch else TailGroups(rest)
  }

  function CannotParse(v: string): string {
    "Cannot parse Kotlin/Native version: " + v
  }

  /** `isRelease`: a failure when the version does not match; otherwise whether the meta and
      build groups are both empty. */
  function IsRelease(v: string): (r: Result<bool>)
    ensures r.Failure? <==> VersionGroups(v).None?
    ensures r == Ok(true) <==> VersionGroups(v) == Some(("", ""))
  {
    match VersionGroups(v)
    case None => Failure(CannotParse(v))
    case Some((meta, build)) => Ok(meta == "" && build == "")
  }

  /** The tail leaves both groups empty exactly when it is empty or a lone '-': the second
      alternative of the meta group matches the empty string. */
  lemma TailIsRelease(t: string)
    ensures TailGroups(t) == Some(("", "")) <==> t == "" || t == "-"
  {
    if t == "-" {
      assert t[1..] == "";
    }
  }

  /** `major.minor` and `major.minor.patch` are releases, with or without one trailing '-'. */
  lemma PlainVersionsAreReleases(major: string, minor: string, patch: string, dash: string)
    requires IsDigits(major) && IsDigits(minor) && IsDigits(patch)
    requires dash == "" || dash == "-"
    ensures IsRelease(major + "." + minor + dash) == Ok(true)
    ensures IsRelease(major + "." + minor + "." + patch + dash) == Ok(true)
  {
    TailIsRelease(dash);
    Numbers(major, minor, dash);
    NoPatch(dash);
    FullVersion(major, minor, patch, dash);
  }

  /** The converse of `PlainVersionsAreReleases`: a release is `major.minor`, optionally followed
      by `.patch`, then at most one '-'. */
  lemma ReleasesArePlain(v: string) returns (major: string, minor: string, patch: string, dash: string)
    requires IsRelease(v) == Ok(true)
    ensures IsDigits(major) && IsDigits(minor) && (patch == "" || IsDigits(patch))
    ensures dash == "" || dash == "-"
    ensures v == major + "." + minor + (if patch == "" then "" else "." + patch) + dash
  {
    var rest;
    major, minor, rest := VersionParts(v);
    patch, dash := ReleaseRest(rest);
    Regroup(major, ".", minor, rest);
  }

  /** A matching version is its major digits, a '.', its minor digits and the rest after them. */
  lemma VersionParts(v: string) returns (major: string, minor: string, rest: string)
    requires VersionGroups(v).Some?
    ensures IsDigits(major) && IsDigits(minor)
    ensures v == major + "." + (minor + rest)
    ensures AfterMinor(rest) == VersionGroups(v)
  {
    var m := Run(v, IsDigit);
    major := v[..m];
    var afterMajor := v[m + 1..];
    var n := Run(afterMajor, IsDigit);
    minor := afterMajor[..n];
    rest := afterMajor[n..];
    assert v == v[..m] + [v[m]] + v[m + 1..];
    assert afterMajor == minor + rest;
  }

  /** The rest of a release after the minor version: an optional `.patch`, then at most one '-'. */
  lemma ReleaseRest(rest: string) returns (patch: string, dash: string)
    requires AfterMinor(rest) == Some(("", ""))
    ensures patch == "" || IsDigits(patch)
    ensures dash == "" || dash == "-"
    ensures rest == (if patch == "" then "" else "." + patch) + dash
  {
    var q := if |rest| > 0 && rest[0] == '.' then Run(rest[1..], IsDigit) else 0;
    if q > 0 && TailGroups(rest[1 + q..]).Some? {
      patch := rest[1..1 + q];
      dash := rest[1 + q..];
      TailIsRelease(dash);
      assert rest == rest[..1] + rest[1..1 + q] + rest[1 + q..];
    } else {
      patch := "";
      dash := rest;
      TailIsRelease(dash);
    }
  }

  /** With a patch, the tail after it decides the groups. */
  lemma FullVersion(major: string, minor: string, patch: string, tail: string)
    requires IsDigits(major) && IsDigits(minor) && IsDigits(patch)
    requires tail == "" || tail[0] == '-'
    requires TailGroups(tail).Some?
    ensures VersionGroups(major + "." + minor + "." + patch + tail) == TailGroups(tail)
  {
    var rest := "." + patch + tail;
    Regroup(major + "." + minor, ".", patch, tail);
    Numbers(major, minor, rest);
    WithPatch(patch, tail);
  }

  lemma Regroup(a: string, b: string, c: string, d: string)
    ensures a + b + c + d == a + (b + c + d)
    ensures a + b + c == a + (b + c)
  {
  }

  /** The digit groups end where the first non-digit after the minor version starts. */
  lemma Numbers(major: string, minor: string, rest: string)
    requires IsDigits(major) && IsDigits(minor)
    requires rest == "" || !IsDigit(rest[0])
    ensures VersionGroups(major + "." + minor + rest) == AfterMinor(rest)
  {
    var v := major + "." + minor + rest;
    DigitRunEnds(major, "." + minor + rest);
    assert v == major + ("." + minor + rest);
    assert v[|major|] == '.';
    var afterMajor := v[|major| + 1..];
    assert afterMajor == minor + rest;
    DigitRunEnds(minor, rest);
    assert afterMajor[|minor|..] == rest;
  }

  /** Without a patch the rest is the tail. */
  lemma NoPatch(tail: string)
    requires tail == "" || tail[0] == '-'
    ensures AfterMinor(tail) == TailGroups(tail)
  {
  }

  /** With a patch the tail follows it, when the tail matches. */
  lemma WithPatch(patch: string, tail: string)
    requires IsDigits(patch)
    requires tail == "" || tail[0] == '-'
    requires TailGroups(tail).Some?
    ensures AfterMinor("." + patch + tail) == TailGroups(tail)
  {
    var rest := "." + patch + tail;
    PatchSlices(patch, tail);
    DigitRunEnds(patch, tail);
  }

  lemma PatchSlices(patch: string, tail: string)
    ensures ("." + patch + tail)[0] == '.'
    ensures ("." + patch + tail)[1..] == patch + tail
    ensures ("." + patch + tail)[1 + |patch|..] == tail
  {
  }

  lemma {:induction false} DigitRunEnds(digits: string, rest: string)
    requires forall i | 0 <= i < |digits| :: IsDigit(digits[i])
    requires |rest| == 0 || !IsDigit(rest[0])
    ensures Run(digits + rest, IsDigit) == |digits|
    decreases |digits|
  {
    if |digits| > 0 {
      assert (digits + rest)[1..] == digits[1..] + rest;
      DigitRunEnds(digits[1..], rest);
    } else {
      assert digits + rest == rest;
    }
  }

  /** A build number makes a version a pre-release. */
  lemma BuildIsNotRelease(major: string, minor: string, patch: string, build: string)
    requires IsDigits(major) && IsDigits(minor) && IsDigits(patch) && IsDigits(build)
    ensures IsRelease(major + "." + minor + "." + patch + "-" + build) == Ok(false)
  {
    var tail := "-" + build;
    BuildTailMatches(build);
    TailIsRelease(tail);
    FullVersion(major, minor, patch, tail);
    Regroup(major + "." + minor + "." + patch, "-", build, []);
  }

  /** A dash and digits always match the tail: as the meta group when there is one digit, as the
      build group otherwise. */
  lemma BuildTailMatches(build: string)
    requires IsDigits(build)
    ensures TailGroups("-" + build).Some?
  {
    var t := "-" + build;
    assert t[1..] == build;
    assert Run(build, IsAlpha) == 0 by {
      assert !IsAlpha(build[0]);
    }
    if |build| == 1 {
      assert build[1..] == "";
      assert MetaAlpha(build, 0).Some?;
    } else {
      assert BuildTail(t) == Some(build);
    }
  }

  /** A meta part made of letters ending in a letter or digit is read by the first alternative,
      and a build after it by the build group. */
  lemma BetaExample()
    ensures TailGroups("-Beta-123") == Some(("Beta", "123"))
  {
    var u := "Beta-123";
    assert "-Beta-123"[1..] == u;
    assert Run(u, IsAlpha) == 4 by {
      assert IsAlpha(u[0]) && IsAlpha(u[1]) && IsAlpha(u[2]) && IsAlpha(u[3]) && !IsAlpha(u[4]);
    }
    assert u[4..] == "-123";
    assert u[..4] == "Beta";
    BuildTails();
    assert MetaAlpha(u, 3) == Some(("Beta", "123"));
  }

  lemma CandidateExample()
    ensures TailGroups("-RC2") == Some(("RC2", ""))
  {
    var u := "RC2";
    assert "-RC2"[1..] == u;
    assert Run(u, IsAlpha) == 2;
    assert u[3..] == "" && u[..3] == u;
  }

  /** A meta part with inner dashes needs the second alternative, which gives back the dash
      before the build. */
  lemma DashedExample()
    ensures TailGroups("-dev-google-pr-42") == Some(("dev-google-pr", "42"))
  {
    var u := "dev-google-pr-42";
    assert "-dev-google-pr-42"[1..] == u;
    DashedRuns(u);
    NoAlphaMeta(u);
    DashedMeta(u);
  }

  lemma DashedRuns(u: string)
    requires u == "dev-google-pr-42"
    ensures Run(u, IsAlpha) == 3
    ensures Run(u, IsMetaChar) == 14
  {
    assert IsAlpha(u[0]) && IsAlpha(u[1]) && IsAlpha(u[2]) && !IsAlpha(u[3]);
    assert forall i | 0 <= i < 14 :: IsMetaChar(u[i]);
    assert !IsMetaChar(u[14]);
  }

  lemma DashedMeta(u: string)
    requires u == "dev-google-pr-42"
    ensures MetaDashed(u, 14) == Some(("dev-google-pr", "42"))
  {
    assert u[14..] == "42";
    assert u[13..] == "-42";
    assert u[..13] == "dev-google-pr";
    BuildTails();
  }

  lemma BuildTails()
    ensures BuildTail("42").None?
    ensures BuildTail("-42") == Some("42")
    ensures BuildTail("-123") == Some("123")
  {
    assert "-42"[1..] == "42";
    assert "-123"[1..] == "123";
  }

  lemma NoAlphaMeta(u: string)
    requires u == "dev-google-pr-42"
    ensures MetaAlpha(u, 3).None?
  {
    assert u[1..][0] == 'e' && u[2..][0] == 'v';
    assert MetaAlpha(u, 0).None?;
    assert MetaAlpha(u, 1).None?;
    assert u[3..][0] == '-' && u[3..][1..][0] == 'g';
    assert MetaAlpha(u, 2).None?;
  }

  /** A version that is not `major.minor...` is refused. */
  lemma MalformedVersion()
    ensures IsRelease("1.x").Failure?
  {
    assert Run("1.x", IsDigit) == 1;
    assert "1.x"[2..] == "x";
    assert Run("x", IsDigit) == 0;
  }
}
