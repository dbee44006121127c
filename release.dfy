/** `src/determine-release.ts`: the release name of a workflow run, read off
    the branch ref. Only branches under `refs/heads/<prefix>` are releases; the
    rest of the ref is matched against `/^v(\d+[.]\d+(?:[.]\d+)?)$|(.*)/`. The
    release date is not part of this model. */
module Release {
  import opened Wrappers
  import opened Strings

  datatype Release = Release(name: string)

  /** The two errors `determine_release` throws, with their messages. */
  datatype ReleaseError =
    | MissingPrefix(message: string)
    | NoReleaseName(message: string)

  const HeadsPrefix := "refs/heads/"
  const DefaultPrefix := "release/"

  /** The characters a regular-expression `.` does not match. */
  predicate IsLineTerminator(c: char)
  {
    c == '\n' || c == '\r' || c == '\U{2028}' || c == '\U{2029}'
  }

  /** `s[i..j]` is a non-empty run of digits: it matches `\d+`. */
  predicate DigitsBetween(s: string, i: nat, j: nat)
  {
    i < j <= |s| && forall k :: i <= k < j ==> IsDigit(s[k])
  }

  /** The language of `\d+[.]\d+(?:[.]\d+)?`: two or three non-empty digit
      runs separated by dots. */
  ghost predicate IsVersion(s: string)
  {
    || (exists i :: 0 <= i < |s| && s[i] == '.' && DigitsBetween(s, 0, i) && DigitsBetween(s, i + 1, |s|))
    || (exists i, k :: 0 <= i < k < |s| && s[i] == '.' && s[k] == '.'
          && DigitsBetween(s, 0, i) && DigitsBetween(s, i + 1, k) && DigitsBetween(s, k + 1, |s|))
  }

  /** The end of the run of digits that starts at `i`. */
  function DigitRun(s: string, i: nat): (j: nat)
    requires i <= |s|
    ensures i <= j <= |s|
    ensures forall k :: i <= k < j ==> IsDigit(s[k])
    ensures j == |s| || !IsDigit(s[j])
    decreases |s| - i
  {
    if i == |s| || !IsDigit(s[i]) then i else DigitRun(s, i + 1)
  }

  /** A left-to-right matcher for `\d+[.]\d+(?:[.]\d+)?` anchored at both ends.
      A digit run is never followed by a digit, so matching each `\d+`
      greedily needs no backtracking. */
  predicate MatchesVersion(s: string)
  {
    var j1 := DigitRun(s, 0);
    && 0 < j1 < |s| && s[j1] == '.'
    && var j2 := DigitRun(s, j1 + 1);
    && j1 + 1 < j2
    && (j2 == |s| || (s[j2] == '.' && j2 + 1 < DigitRun(s, j2 + 1) == |s|))
  }

  /** A run of digits that ends at a non-digit (or at the end) is the run
      `DigitRun` finds. */
  lemma {:induction false} DigitRunStops(s: string, i: nat, j: nat)
    requires i <= j <= |s|
    requires forall k :: i <= k < j ==> IsDigit(s[k])
    requires j == |s| || !IsDigit(s[j])
    ensures DigitRun(s, i) == j
    decreases j - i
  {
    if i < j {
      DigitRunStops(s, i + 1, j);
    }
  }

  lemma MatchedIsVersion(s: string)
    requires MatchesVersion(s)
    ensures IsVersion(s)
  {
    var j1 := DigitRun(s, 0);
    var j2 := DigitRun(s, j1 + 1);
    assert DigitsBetween(s, 0, j1) && DigitsBetween(s, j1 + 1, j2);
    if j2 < |s| {
      assert DigitsBetween(s, j2 + 1, |s|);
    }
  }

  lemma TwoRunsMatched(s: string, i: nat)
    requires i < |s| && s[i] == '.' && DigitsBetween(s, 0, i) && DigitsBetween(s, i + 1, |s|)
    ensures MatchesVersion(s)
  {
    DigitRunStops(s, 0, i);
    DigitRunStops(s, i + 1, |s|);
  }

  lemma ThreeRunsMatched(s: string, i: nat, k: nat)
    requires i < k < |s| && s[i] == '.' && s[k] == '.'
    requires DigitsBetween(s, 0, i) && DigitsBetween(s, i + 1, k) && DigitsBetween(s, k + 1, |s|)
    ensures MatchesVersion(s)
  {
    DigitRunStops(s, 0, i);
    DigitRunStops(s, i + 1, k);
    DigitRunStops(s, k + 1, |s|);
  }

  /** The matcher accepts exactly the language of the version pattern. */
  lemma MatchesVersionIff(s: string)
    ensures MatchesVersion(s) <==> IsVersion(s)
  {
    if MatchesVersion(s) {
      MatchedIsVersion(s);
    }
    if IsVersion(s) {
      if exists i :: 0 <= i < |s| && s[i] == '.' && DigitsBetween(s, 0, i) && DigitsBetween(s, i + 1, |s|) {
        var i :| 0 <= i < |s| && s[i] == '.' && DigitsBetween(s, 0, i) && DigitsBetween(s, i + 1, |s|);
        TwoRunsMatched(s, i);
      } else {
        var i, k :| 0 <= i < k < |s| && s[i] == '.' && s[k] == '.'
          && DigitsBetween(s, 0, i) && DigitsBetween(s, i + 1, k) && DigitsBetween(s, k + 1, |s|);
        ThreeRunsMatched(s, i, k);
      }
    }
  }

  /** What `(.*)` matches at the start of `s`: everything up to the first line
      terminator. */
  function FirstLine(s: string): (r: string)
    ensures StartsWith(s, r)
    ensures forall i :: 0 <= i < |r| ==> !IsLineTerminator(r[i])
    ensures |r| == |s| || IsLineTerminator(s[|r|])
  {
    if s == [] || IsLineTerminator(s[0]) then ""
    else
      var rest := FirstLine(s[1..]);
      assert ([s[0]] + rest)[..|[s[0]] + rest|] == [s[0]] + s[1..][..|rest|];
      [s[0]] + rest
  }

  lemma {:induction false} FirstLineWhole(s: string)
    requires forall i :: 0 <= i < |s| ==> !IsLineTerminator(s[i])
    ensures FirstLine(s) == s
  {
    if s != [] {
      FirstLineWhole(s[1..]);
    }
  }

  /** The captures of a successful `String.prototype.match`: group 1 (the
      version) and group 2 (the catch-all); `None` is `undefined`. */
  datatype Captures = Captures(version: Option<string>, rest: Option<string>)

  /** `s.match(/^v(\d+[.]\d+(?:[.]\d+)?)$|(.*)/)`. At index 0 the first
      alternative is tried first and needs the whole input; otherwise the
      second one matches there, so the match never fails (`null`). */
  function MatchReleasePattern(s: string): (m: Option<Captures>)
    ensures m.Some?
    ensures m.value.version.Some? <==> |s| > 0 && s[0] == 'v' && IsVersion(s[1..])
    ensures m.value.version.Some? ==> m.value.version.value == s[1..] && m.value.rest.None?
    ensures m.value.version.None? ==> m.value.rest == Some(FirstLine(s))
  {
    MatchesVersionIff(if s == [] then [] else s[1..]);
    if |s| > 0 && s[0] == 'v' && MatchesVersion(s[1..]) then Some(Captures(Some(s[1..]), None))
    else Some(Captures(None, Some(FirstLine(s))))
  }

  /** `determine_release(github_ref, timezone, release_prefix)`, without the date. */
  function DetermineRelease(githubRef: string, releasePrefix: string := DefaultPrefix): (r: Result<Release, ReleaseError>)
    ensures r.Failure? <==> !StartsWith(githubRef, HeadsPrefix + releasePrefix)
    ensures r.Failure? ==> r.error.MissingPrefix?
  {
    var fullPrefix := HeadsPrefix + releasePrefix;
    if !StartsWith(githubRef, fullPrefix) then
      Failure(MissingPrefix("'" + githubRef + "' does not have the required prefix '" + releasePrefix + "'"))
    else
      var unprefixed := githubRef[|fullPrefix|..];
      match MatchReleasePattern(unprefixed)
      case None => Failure(NoReleaseName("Could not determine release name from '" + githubRef + "'"))
      case Some(m) => Success(Release(if m.version.Some? then m.version.value else m.rest.value))
  }

  /** The resolver rejects a ref exactly when it is not a branch under the
      release prefix, with the message naming the ref and the prefix; the
      "could not determine" error never happens. */
  lemma RejectsExactlyOffPrefix(githubRef: string, releasePrefix: string)
    ensures DetermineRelease(githubRef, releasePrefix).Failure? <==> !StartsWith(githubRef, HeadsPrefix + releasePrefix)
    ensures DetermineRelease(githubRef, releasePrefix).Failure? ==>
      DetermineRelease(githubRef, releasePrefix).error
        == MissingPrefix("'" + githubRef + "' does not have the required prefix '" + releasePrefix + "'")
  {
  }

  /** The name `matches[1] ?? matches[2]` picks for the unprefixed ref. */
  function NameOf(suffix: string): string
  {
    if |suffix| > 0 && suffix[0] == 'v' && MatchesVersion(suffix[1..]) then suffix[1..] else FirstLine(suffix)
  }

  lemma OnPrefixNamesSuffix(githubRef: string, releasePrefix: string)
    requires StartsWith(githubRef, HeadsPrefix + releasePrefix)
    ensures DetermineRelease(githubRef, releasePrefix)
      == Success(Release(NameOf(githubRef[|HeadsPrefix + releasePrefix|..])))
  {
    var suffix := githubRef[|HeadsPrefix + releasePrefix|..];
    MatchesVersionIff(if suffix == [] then [] else suffix[1..]);
  }

  /** On a release branch whose name is `v` and a version, the release name is
      the version: the ref is the prefix, `v` and the name. */
  lemma VersionBranchName(githubRef: string, releasePrefix: string)
    requires StartsWith(githubRef, HeadsPrefix + releasePrefix)
    requires var suffix := githubRef[|HeadsPrefix + releasePrefix|..];
      |suffix| > 0 && suffix[0] == 'v' && IsVersion(suffix[1..])
    ensures DetermineRelease(githubRef, releasePrefix).Success?
    ensures var suffix := githubRef[|HeadsPrefix + releasePrefix|..];
      DetermineRelease(githubRef, releasePrefix).value.name == suffix[1..]
    ensures githubRef == HeadsPrefix + releasePrefix + "v" + DetermineRelease(githubRef, releasePrefix).value.name
  {
    var p := HeadsPrefix + releasePrefix;
    var suffix := githubRef[|p|..];
    OnPrefixNamesSuffix(githubRef, releasePrefix);
    MatchesVersionIff(suffix[1..]);
    assert githubRef == p + suffix;
    assert suffix == "v" + suffix[1..];
  }

  /** On any other release branch the name is the branch name up to its first
      line break: the ref continues after the name with a line break or ends. */
  lemma OtherBranchName(githubRef: string, releasePrefix: string)
    requires StartsWith(githubRef, HeadsPrefix + releasePrefix)
    requires var suffix := githubRef[|HeadsPrefix + releasePrefix|..];
      !(|suffix| > 0 && suffix[0] == 'v' && IsVersion(suffix[1..]))
    ensures DetermineRelease(githubRef, releasePrefix).Success?
    ensures var name := DetermineRelease(githubRef, releasePrefix).value.name;
      && StartsWith(githubRef, HeadsPrefix + releasePrefix + name)
      && (forall i :: 0 <= i < |name| ==> !IsLineTerminator(name[i]))
      && (|githubRef| == |HeadsPrefix + releasePrefix + name|
          || IsLineTerminator(githubRef[|HeadsPrefix + releasePrefix + name|]))
  {
    var p := HeadsPrefix + releasePrefix;
    var suffix := githubRef[|p|..];
    OnPrefixNamesSuffix(githubRef, releasePrefix);
    if suffix != [] {
      MatchesVersionIff(suffix[1..]);
    }
    var name := FirstLine(suffix);
    assert githubRef == p + suffix;
    assert (p + name) == githubRef[..|p + name|];
    if |name| < |suffix| {
      assert githubRef[|p + name|] == suffix[|name|];
    }
  }

  /** Without a line break in the ref, a branch that does not name a version
      gives its name verbatim. */
  lemma NonVersionNameVerbatim(githubRef: string, releasePrefix: string)
    requires StartsWith(githubRef, HeadsPrefix + releasePrefix)
    requires forall i :: 0 <= i < |githubRef| ==> !IsLineTerminator(githubRef[i])
    requires var suffix := githubRef[|HeadsPrefix + releasePrefix|..];
      !(|suffix| > 0 && suffix[0] == 'v' && IsVersion(suffix[1..]))
    ensures DetermineRelease(githubRef, releasePrefix) == Success(Release(githubRef[|HeadsPrefix + releasePrefix|..]))
  {
    var p := HeadsPrefix + releasePrefix;
    var suffix := githubRef[|p|..];
    OnPrefixNamesSuffix(githubRef, releasePrefix);
    if suffix != [] {
      MatchesVersionIff(suffix[1..]);
    }
    var name := FirstLine(suffix);
    assert githubRef == p + suffix;
    assert forall i :: 0 <= i < |suffix| ==> !IsLineTerminator(suffix[i]) by {
      forall i | 0 <= i < |suffix| ensures !IsLineTerminator(suffix[i]) {
        assert suffix[i] == githubRef[|p| + i];
      }
    }
    FirstLineWhole(suffix);
  }

  /** The release name is a suffix of the ref whenever the ref holds no line break. */
  lemma NameIsSuffixOfRef(githubRef: string, releasePrefix: string)
    requires forall i :: 0 <= i < |githubRef| ==> !IsLineTerminator(githubRef[i])
    requires DetermineRelease(githubRef, releasePrefix).Success?
    ensures EndsWith(githubRef, DetermineRelease(githubRef, releasePrefix).value.name)
  {
    var p := HeadsPrefix + releasePrefix;
    var suffix := githubRef[|p|..];
    var name := DetermineRelease(githubRef, releasePrefix).value.name;
    if |suffix| > 0 && suffix[0] == 'v' && IsVersion(suffix[1..]) {
      VersionBranchName(githubRef, releasePrefix);
      assert githubRef[|githubRef| - |name|..] == suffix[1..];
    } else {
      NonVersionNameVerbatim(githubRef, releasePrefix);
      assert githubRef[|githubRef| - |name|..] == suffix;
    }
  }

  /** A ref that differs from the prefix at some position is not under it. */
  lemma DiffersFromPrefix(s: string, p: string, i: nat)
    requires i < |s| && i < |p| && s[i] != p[i]
    ensures !StartsWith(s, p)
  {
    if |p| <= |s| {
      assert s[..|p|][i] == s[i];
    }
  }

  /** A branch under the prefix is named after what follows the prefix. */
  lemma BranchNamed(releasePrefix: string, suffix: string)
    ensures DetermineRelease(HeadsPrefix + releasePrefix + suffix, releasePrefix)
      == Success(Release(NameOf(suffix)))
  {
    var p := HeadsPrefix + releasePrefix;
    var r := p + suffix;
    assert r[..|p|] == p;
    assert r[|p|..] == suffix;
    OnPrefixNamesSuffix(r, releasePrefix);
  }

  lemma TagRefRejected()
    ensures DetermineRelease("refs/tags/feature-branch-1").Failure?
  {
    DiffersFromPrefix("refs/tags/feature-branch-1", HeadsPrefix + DefaultPrefix, 5);
    RejectsExactlyOffPrefix("refs/tags/feature-branch-1", DefaultPrefix);
  }

  lemma PullRefRejected()
    ensures DetermineRelease("refs/pull/2/merge").Failure?
  {
    DiffersFromPrefix("refs/pull/2/merge", HeadsPrefix + DefaultPrefix, 5);
    RejectsExactlyOffPrefix("refs/pull/2/merge", DefaultPrefix);
  }

  lemma OtherBranchRejected()
    ensures DetermineRelease("refs/heads/feature/v1.0").Failure?
  {
    DiffersFromPrefix("refs/heads/feature/v1.0", HeadsPrefix + DefaultPrefix, 11);
    RejectsExactlyOffPrefix("refs/heads/feature/v1.0", DefaultPrefix);
  }

  /** `refs/heads/release/v1.0` is release `1.0`. */
  lemma VersionBranchExample()
    ensures DetermineRelease(HeadsPrefix + DefaultPrefix + "v1.0") == Success(Release("1.0"))
  {
    BranchNamed(DefaultPrefix, "v1.0");
    assert "v1.0"[1..] == "1.0";
    DigitRunStops("1.0", 0, 1);
    DigitRunStops("1.0", 2, 3);
  }

  /** A branch name that does not start with `v` and holds no line break is
      the release name as it stands. */
  lemma PlainBranchNamed(releasePrefix: string, name: string)
    requires name != [] && name[0] != 'v'
    requires forall i :: 0 <= i < |name| ==> !IsLineTerminator(name[i])
    ensures DetermineRelease(HeadsPrefix + releasePrefix + name, releasePrefix) == Success(Release(name))
  {
    BranchNamed(releasePrefix, name);
    FirstLineWhole(name);
  }

  /** `refs/heads/release/anything` is release `anything`. */
  lemma NamedBranchExample()
    ensures DetermineRelease(HeadsPrefix + DefaultPrefix + "anything") == Success(Release("anything"))
  {
    PlainBranchNamed(DefaultPrefix, "anything");
  }

  /** Under the prefix `test/`, `refs/heads/test/anything` is release `anything`. */
  lemma CustomPrefixExample()
    ensures DetermineRelease(HeadsPrefix + "test/" + "anything", "test/") == Success(Release("anything"))
  {
    PlainBranchNamed("test/", "anything");
  }

  /** `v1.2.3` is a version; `v1.2.3.4` is kept verbatim. */
  lemma VersionShapes()
    ensures NameOf("v1.2.3") == "1.2.3"
    ensures NameOf("v1.2.3.4") == "v1.2.3.4"
  {
    assert "v1.2.3"[1..] == "1.2.3";
    DigitRunStops("1.2.3", 0, 1);
    DigitRunStops("1.2.3", 2, 3);
    DigitRunStops("1.2.3", 4, 5);
    assert "v1.2.3.4"[1..] == "1.2.3.4";
    DigitRunStops("1.2.3.4", 0, 1);
    DigitRunStops("1.2.3.4", 2, 3);
    DigitRunStops("1.2.3.4", 4, 5);
    FirstLineWhole("v1.2.3.4");
  }
}
