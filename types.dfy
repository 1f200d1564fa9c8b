/** Package names, specifiers and repository candidates (mqpkg/src/types.rs;
    mqpkg/src/lib.rs holds the same name and specifier parsers). */
module Types {
  import O = Orderings
  import opened Results
  import S = Semver

  /** `PackageName`: a validated, lower-cased name. */
  datatype PackageName = PackageName(value: string)

  datatype PackageNameError =
    | TooShort
    | NoStartingAlpha(name: string, character: string)
    | InvalidCharacter(name: string, character: string)

  predicate IsAsciiAlpha(c: char) {
    ('a' <= c <= 'z') || ('A' <= c <= 'Z')
  }

  predicate IsAsciiAlnum(c: char) {
    IsAsciiAlpha(c) || ('0' <= c <= '9')
  }

  /** `char::to_ascii_lowercase`. */
  function LowerChar(c: char): char {
    if 'A' <= c <= 'Z' then (c as int + 32) as char else c
  }

  /** `str::to_ascii_lowercase`. */
  function Lower(s: string): (r: string)
    ensures |r| == |s|
    ensures forall i :: 0 <= i < |s| ==> r[i] == LowerChar(s[i])
  {
    seq(|s|, i requires 0 <= i < |s| => LowerChar(s[i]))
  }

  /** The position of the first character at or after `from` that is not
      ASCII alphanumeric, if any. */
  function FirstNonAlnumFrom(s: string, from: nat): (r: Option<nat>)
    requires from <= |s|
    ensures r.Some? ==> from <= r.value < |s| && !IsAsciiAlnum(s[r.value])
    ensures r.Some? ==> forall j :: from <= j < r.value ==> IsAsciiAlnum(s[j])
    ensures r.None? ==> forall j :: from <= j < |s| ==> IsAsciiAlnum(s[j])
    decreases |s| - from
  {
    if from == |s| then None
    else if !IsAsciiAlnum(s[from]) then Some(from)
    else FirstNonAlnumFrom(s, from + 1)
  }

  /** `str::find(|c| !c.is_ascii_alphanumeric())`. */
  function FirstNonAlnum(s: string): (r: Option<nat>)
    ensures r.Some? ==> r.value < |s| && !IsAsciiAlnum(s[r.value])
    ensures r.Some? ==> forall j :: 0 <= j < r.value ==> IsAsciiAlnum(s[j])
    ensures r.None? ==> forall j :: 0 <= j < |s| ==> IsAsciiAlnum(s[j])
  {
    FirstNonAlnumFrom(s, 0)
  }

  /** What a valid name looks like: an ASCII letter, then ASCII letters and
      digits. */
  predicate ValidName(s: string) {
    |s| > 0 && IsAsciiAlpha(s[0]) && forall i :: 0 <= i < |s| ==> IsAsciiAlnum(s[i])
  }

  /** `PackageName::from_str`. */
  function Parse(value: string): (r: Result<PackageName, PackageNameError>)
    ensures r.Ok? <==> ValidName(value)
    ensures r.Ok? ==> r.value.value == Lower(value)
    ensures r == Err(TooShort) <==> |value| == 0
    ensures r.Err? && r.error.NoStartingAlpha? <==> |value| > 0 && !IsAsciiAlpha(value[0])
    ensures r.Err? && r.error.NoStartingAlpha? ==> r.error == NoStartingAlpha(value, [value[0]])
    ensures r.Err? && r.error.InvalidCharacter? ==>
              && r.error.name == value
              && exists i :: && 0 <= i < |value| && !IsAsciiAlnum(value[i]) && r.error.character == [value[i]]
                             && forall j :: 0 <= j < i ==> IsAsciiAlnum(value[j])
  {
    if |value| == 0 then Err(TooShort)
    else if !IsAsciiAlpha(value[0]) then Err(NoStartingAlpha(value, [value[0]]))
    else
      match FirstNonAlnum(value)
      case Some(i) => Err(InvalidCharacter(value, [value[i]]))
      case None => Ok(PackageName(Lower(value)))
  }

  /** Lower-casing keeps a name valid and leaves no upper-case letter. */
  lemma LowerKeepsValid(s: string)
    requires ValidName(s)
    ensures ValidName(Lower(s))
    ensures forall i :: 0 <= i < |s| ==> !('A' <= Lower(s)[i] <= 'Z')
    ensures Lower(Lower(s)) == Lower(s)
  {
  }

  /** Parsing the text of a parsed name gives the same name back. */
  lemma ParseIdempotent(value: string)
    requires Parse(value).Ok?
    ensures Parse(Parse(value).value.value) == Parse(value)
  {
    LowerKeepsValid(value);
  }

  /** A specifier's parse errors, as in `errors.rs`. `NoPackageName` is never
      produced. The version parser is the `semver` crate, outside this model. */
  datatype SemverError = SemverError(message: string)

  datatype PackageSpecifierError =
    | NoPackageName
    | InvalidPackageName(nameError: PackageNameError)
    | InvalidVersionRequirement(reqError: SemverError)

  datatype PackageSpecifier = PackageSpecifier(name: PackageName, version: S.VersionReq)

  /** The split of `PackageSpecifier::from_str`: at the first character that is
      not ASCII alphanumeric, or the whole text with the requirement `*`. */
  function SplitSpecifier(value: string): (r: (string, string))
    ensures forall i :: 0 <= i < |r.0| ==> IsAsciiAlnum(r.0[i])
    ensures FirstNonAlnum(value).Some? ==> r.0 + r.1 == value && |r.1| > 0 && !IsAsciiAlnum(r.1[0])
    ensures FirstNonAlnum(value).None? ==> r == (value, "*")
  {
    match FirstNonAlnum(value)
    case Some(idx) => (value[..idx], value[idx..])
    case None => (value, "*")
  }

  /** `PackageSpecifier::from_str`, with the requirement parser a parameter.
      A name error is reported first. */
  function ParseSpecifier(value: string, parseReq: string -> Result<S.VersionReq, SemverError>): (r: Result<PackageSpecifier, PackageSpecifierError>)
    ensures r != Err(NoPackageName)
    ensures Parse(SplitSpecifier(value).0).Err? ==> r == Err(InvalidPackageName(Parse(SplitSpecifier(value).0).error))
    ensures r.Ok? <==> Parse(SplitSpecifier(value).0).Ok? && parseReq(SplitSpecifier(value).1).Ok?
    ensures r.Ok? ==> r.value.name == Parse(SplitSpecifier(value).0).value && r.value.version == parseReq(SplitSpecifier(value).1).value
  {
    var (nameText, versionText) := SplitSpecifier(value);
    match Parse(nameText)
    case Err(e) => Err(InvalidPackageName(e))
    case Ok(name) =>
      match parseReq(versionText)
      case Err(e) => Err(InvalidVersionRequirement(e))
      case Ok(version) => Ok(PackageSpecifier(name, version))
  }

  /** A bare name is a request for any version: the requirement text is `*`,
      and the name is the whole text. */
  lemma BareSpecifier(value: string, parseReq: string -> Result<S.VersionReq, SemverError>)
    requires ValidName(value)
    ensures ParseSpecifier(value, parseReq).Ok? <==> parseReq("*").Ok?
    ensures ParseSpecifier(value, parseReq).Ok? ==> ParseSpecifier(value, parseReq).value == PackageSpecifier(PackageName(Lower(value)), parseReq("*").value)
  {
  }

  /** A specifier whose name part is followed by a requirement: the name is the
      longest alphanumeric prefix. */
  lemma SpecifierNamePrefix(name: string, rest: string, parseReq: string -> Result<S.VersionReq, SemverError>)
    requires ValidName(name) && |rest| > 0 && !IsAsciiAlnum(rest[0])
    ensures SplitSpecifier(name + rest) == (name, rest)
    ensures ParseSpecifier(name + rest, parseReq).Ok? ==> ParseSpecifier(name + rest, parseReq).value.name == PackageName(Lower(name))
  {
    var s := name + rest;
    assert s[|name|] == rest[0];
    assert s[..|name|] == name && s[|name|..] == rest;
  }

  // ---- Candidate -----------------------------------------------------------

  /** A configured repository (`config::Repository`), known by its URL. */
  datatype RepoConfig = RepoConfig(url: string)

  /** `Candidate`: a version, its dependencies when known, and the position
      and configuration of the repository it came from. */
  datatype Candidate = Candidate(
    isRoot: bool,
    version: S.Version,
    dependencies: Option<map<PackageName, S.VersionReq>>,
    repository: Option<(int, RepoConfig)>)

  function FromParts(major: nat, minor: nat, patch: nat): Candidate {
    Candidate(false, S.Version(major, minor, patch, []), None, None)
  }

  function FromPartsPre(major: nat, minor: nat, patch: nat, pre: seq<S.Identifier>): Candidate {
    Candidate(false, S.Version(major, minor, patch, pre), None, None)
  }

  /** `Candidate::new`. */
  function New(version: S.Version, deps: map<PackageName, S.VersionReq>): Candidate {
    Candidate(false, version, Some(deps), None)
  }

  /** `Candidate::root`: 0.0.0 with the root flag. */
  function Root(deps: map<PackageName, S.VersionReq>): (c: Candidate)
    ensures c.isRoot && c.version == S.Version(0, 0, 0, []) && c.dependencies == Some(deps) && c.repository == None
  {
    Candidate(true, S.Version(0, 0, 0, []), Some(deps), None)
  }

  /** The root candidate displays as nothing and ranks below every
      candidate that comes from a repository, unless that candidate is a
      pre-release of 0.0.0. */
  lemma RootRanksLowest(deps: map<PackageName, S.VersionReq>, c: Candidate)
    requires c.repository.Some? && !S.BelowZero(c.version)
    ensures Text(Root(deps)) == ""
    ensures Cmp(Root(deps), c) == O.Less
  {
    S.BelowZeroIsBelow(c.version);
    S.CompareLaws(c.version, S.Version(0, 0, 0, []));
  }

  /** `with_repository`: a copy with only the repository replaced. */
  function WithRepository(c: Candidate, idx: int, repo: RepoConfig): (r: Candidate)
    ensures r.repository == Some((idx, repo))
    ensures r.isRoot == c.isRoot && r.version == c.version && r.dependencies == c.dependencies
  {
    c.(repository := Some((idx, repo)))
  }

  /** `Candidate::dependencies`, which unwraps. */
  function Dependencies(c: Candidate): map<PackageName, S.VersionReq>
    requires c.dependencies.Some?
  {
    c.dependencies.value
  }

  /** `Display`: nothing for the root, the version text otherwise. */
  function Text(c: Candidate): (r: string)
    ensures c.isRoot <==> r == ""
    ensures !c.isRoot ==> r == S.Text(c.version)
  {
    if c.isRoot then "" else S.Text(c.version)
  }

  /** `PartialEq`: equal versions and equal repository positions, or both
      without a repository. */
  predicate Eq(a: Candidate, b: Candidate) {
    && a.version == b.version
    && match (a.repository, b.repository)
       case (Some((l, _)), Some((r, _))) => l == r
       case (None, None) => true
       case _ => false
  }

  /** `Ord`: by version; on a tie, the earlier repository ranks greater and a
      candidate with a repository ranks above one without. It is Equal
      exactly when `eq` holds. */
  function Cmp(a: Candidate, b: Candidate): (r: O.Ordering)
    ensures r == O.Equal <==> Eq(a, b)
    ensures S.Compare(a.version, b.version) != O.Equal ==> r == S.Compare(a.version, b.version)
  {
    S.CompareLaws(a.version, b.version);
    match S.Compare(a.version, b.version)
    case Equal =>
      (match (a.repository, b.repository)
       case (Some((l, _)), Some((r, _))) => O.CompareInt(r, l)
       case (Some(_), None) => O.Greater
       case (None, Some(_)) => O.Less
       case (None, None) => O.Equal)
    case Greater => O.Greater
    case Less => O.Less
  }

  /** The order agrees with equality, and swapping the arguments reverses it. */
  lemma CmpLaws(a: Candidate, b: Candidate)
    ensures Cmp(a, b) == O.Equal <==> Eq(a, b)
    ensures Cmp(b, a) == Cmp(a, b).Reverse()
  {
    S.CompareLaws(a.version, b.version);
  }

  lemma CmpTransitive(a: Candidate, b: Candidate, c: Candidate)
    requires Cmp(a, b) == O.Less && Cmp(b, c) == O.Less
    ensures Cmp(a, c) == O.Less
  {
    S.CompareLaws(a.version, b.version);
    S.CompareLaws(b.version, c.version);
    S.CompareLaws(a.version, c.version);
    var ab, bc := S.Compare(a.version, b.version), S.Compare(b.version, c.version);
    if ab == O.Less && bc == O.Less {
      S.CompareTransitive(a.version, b.version, c.version);
    } else if ab == O.Less {
      assert a.version != c.version by {
        if a.version == c.version {
          S.CompareLaws(c.version, b.version);
        }
      }
    }
  }

  /** Two candidates of one version from repositories `i` and `j`: the one
      from the earlier repository ranks greater. */
  lemma EarlierRepositoryRanksGreater(c: Candidate, i: int, j: int, ri: RepoConfig, rj: RepoConfig)
    requires i < j
    ensures Cmp(WithRepository(c, i, ri), WithRepository(c, j, rj)) == O.Greater
  {
    S.CompareLaws(c.version, c.version);
  }
}
