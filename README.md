# mqpkg version and constraint model

This project models the core of mqpkg, a package manager written in Rust. The
core is the part that decides which package versions a requirement admits and
feeds them to the pubgrub dependency solver. It has these parts:

- **Versions.** Semantic versions are ordered by precedence, as in Semantic
  Versioning 2.0.0 sections 9 and 11 (`Semver`). The resolver's tagged
  `Version` adds a source id and a source discriminator (`Versions`). When two
  versions have the same semantic version, the lower source stamp ranks
  greater.
- **Comparator conversion.** Each Cargo-style comparator (`=`, `>`, `>=`, `<`,
  `<=`, `~`, `^`, `I.J.*`) becomes an interval of versions. The code exists in four files,
  which form three generations:
  - `Candidates`, from `resolver/candidates.rs`;
  - `Requirements`, from `resolver/types/requirement.rs` and
    `resolver/semver.rs`, which are identical;
  - `Resolver.Convert`, from `resolver.rs`, which returns errors.
  The meaning of every conversion is proved as set membership against a
  reference semantics. That semantics is `Semver.MatchesFinal` for final
  versions and `Semver.PreAdmits` for pre-releases.
- **The two-track version set** (`VersionSets`, `Candidates.CandidateSet`).
  A final version is looked up in `range`; a pre-release is looked up in
  `pre`. The module provides the set operations, and folding a requirement's
  comparators into one set.
- **Names and specifiers.**
  - `Types.Parse` validates and lower-cases a package name.
  - `Types.ParseSpecifier` splits a specifier into a name and a requirement.
  - `Names` is the resolver's name type, with a reserved root name.
  - `Dependencies` holds the fixed dependency maps.
- **Candidates and providers.**
  - `Types.Candidate` carries a repository index.
  - `ResolverCandidates.Candidate` carries a source-stamped version.
  - `Repositories` lists candidates newest first and merges a release's
    dependencies across repositories.
  - `Solver` maps pubgrub's errors, shapes its result, lists versions and
    converts dependencies.
  - `Providers` is the repository-backed provider.
  - `PkgDb` records the requested packages.

pubgrub's `Range` is modelled as a symbolic datatype `Ranges.Range` whose
meaning is `Ranges.Contains`, membership under a comparison function. Each
range constructor and operation is built the way pubgrub 0.2 builds it from
the version type's `lowest()` and `bump()`:

- `exact(v)` is the segment `[v, bump(v))`;
- `any()` is `[lowest, ...)`, and `strictly_lower_than(v)` is `[lowest, v)`;
- `negate` complements within `[lowest, ...)`, and `union` is computed
  through `negate`, so it also drops what lies below `lowest`.

`lowest` is 0.0.0 (with the candidate stamp for tagged versions), so the
pre-releases of 0.0.0 lie below it (`Semver.BelowZero`): no set built from
`any`, `complement` or `with_pre` holds them.

A tagged version is *well-tagged* (`Versions.WellTagged`) unless its source
reports id `u64::MAX` together with a non-zero discriminator. Stamps compare
in reverse, so only such a version ranks below the candidate bound
(`u64::MAX`, 0) of its own release; every other stamp compares against a
candidate bound by precedence alone. The meaning lemmas for tagged versions
are stated for well-tagged versions.

Components are unbounded naturals. Source stamps are `u64` values, because
`u64::MAX` matters. The `unreachable!()` arms of the conversions become the
precondition `Semver.WellFormed`:

- a patch needs a minor;
- a pre-release needs a patch;
- a wildcard carries no patch and no pre-release;
- the operator is a known one.

The resolver generation in `resolver.rs` turns the same cases into errors
instead.

The code is followed where the comments and the code disagree. For each such
place, the model keeps the code's behaviour as an "as written" member and
proves what goes wrong (see "## Findings"). A corrected member sits beside
it, with the intended property proved. The solver front end (`Solver`,
`Providers`) converts requirements as written, as `req.into()` does, and
states the corrected sets beside them.

## Model

| member | source | states |
|---|---|---|
| `Semver.CompareLaws` | mqpkg/src/resolver/candidates.rs:43-47 | Precedence comparison is Equal exactly on equal versions, and swapping its arguments reverses it. |
| `Semver.CompareTransitive` | mqpkg/src/resolver/candidates.rs:43-47 | Precedence comparison is transitive. |
| `Semver.CompareAtMostTransitive` | mqpkg/src/resolver/candidates.rs:43-47 | "At most" chains are transitive, and are strict when either step is strict. |
| `Semver.BumpPreIsSuccessor` | mqpkg/src/resolver/types/requirement.rs:72-75 | Appending `.0` to a pre-release gives its immediate successor: p < q exactly when p.0 <= q. |
| `Semver.BumpPreVersionIsSuccessor` | mqpkg/src/resolver/types/requirement.rs:72-75 | For a pre-release version v, v < w exactly when v with `.0` appended is <= w; so `>I.J.K-P` equals `>=I.J.K-(P.0)`. |
| `Semver.BelowZeroIsBelow` | mqpkg/src/resolver/candidates.rs:56-58 | A version ranks below 0.0.0 exactly when it is a pre-release of 0.0.0. |
| `Versions.Candidate` | mqpkg/src/resolver/types/version.rs:30-32 | `candidate(i,j,k)` is i.j.k with source id `u64::MAX`, discriminator 0, and display on. |
| `Versions.Text` | mqpkg/src/resolver/types/version.rs:58-66 | Display prints nothing exactly when display is suppressed, and the semantic version otherwise. |
| `Versions.Bump` | mqpkg/src/resolver/types/version.rs:105-112 | `bump` keeps major and minor, adds one to patch, drops the pre-release, keeps the source id and resets the discriminator to 0. |
| `Versions.Eq` | mqpkg/src/resolver/types/version.rs:68-74 | `eq` holds when the semantic version and both stamp numbers agree; the display flag plays no part. |
| `Versions.Cmp` | mqpkg/src/resolver/types/version.rs:76-86 | `cmp` is Equal exactly when `eq` holds, and follows precedence whenever the semantic versions differ. |
| `Versions.CmpLaws` | mqpkg/src/resolver/types/version.rs:68-86 | `cmp` is Equal exactly when `eq` holds. `eq` compares the semantic version and both stamps, ignoring the display flag. Swapping the arguments reverses `cmp`. |
| `Versions.CmpTransitive` | mqpkg/src/resolver/types/version.rs:76-86 | The order (precedence, then reversed source stamp) is transitive. |
| `Versions.SemverRoundTrip` | mqpkg/src/resolver/types/version.rs:115-130 | Converting a semantic version in and back gives it unchanged. The converted value equals `Version::new` of its triple exactly when it has no pre-release. |
| `Versions.CmpCandidateBound` | mqpkg/src/resolver/types/version.rs:76-86 | Against a candidate-stamped bound, a well-tagged version is below it exactly when its precedence is below. It is equal only when it is that very bound. |
| `Versions.LowestIsLowestFinal` | mqpkg/src/resolver/types/version.rs:101-104 | `lowest` is at or below every well-tagged final version. |
| `Versions.AtLeastLowest` | mqpkg/src/resolver/types/version.rs:100-103 | A well-tagged version is at or above `lowest` exactly when it is not a pre-release of 0.0.0. |
| `Versions.NextIsNext` | mqpkg/src/resolver/pubgrub.rs:43-67 | On the track of v, the segment `[v, Next(v))` holds exactly the versions equal to v: `Next` is the immediate successor a singleton needs. |
| `Versions.BumpIsGreater` | mqpkg/src/resolver/types/version.rs:105-112 | `bump` is strictly greater than the version it bumps. |
| `Ranges.Contains` | mqpkg/src/resolver/pubgrub.rs:83-109 | A range holds a version by its segments: `[lo, hi)` when lo <= x < hi, `[v, ...)` when x >= v, and complements and intersections by negation and conjunction. |
| `Ranges.NegateContains` | mqpkg/src/resolver/pubgrub.rs:69-74 | `negate` holds exactly the versions at or above `lowest` that the range does not hold. |
| `Ranges.UnionContains` | mqpkg/src/resolver/pubgrub.rs:155-160 | `union`, computed through `negate`, holds exactly the versions at or above `lowest` that either side holds. |
| `VersionSets.Contains` | mqpkg/src/resolver/pubgrub.rs:83-109 | `contains` looks a final version up in `range` and a pre-release in `pre`. |
| `VersionSets.Empty` | mqpkg/src/resolver/pubgrub.rs:36-41 | `empty()` contains no version, final or pre-release. |
| `VersionSets.SingletonAsWritten` | mqpkg/src/resolver/pubgrub.rs:43-67 | As written, `singleton(c)` is `exact(c)` on the track of c: it holds every version equal to c, and only versions on that track at or above c. |
| `VersionSets.SingletonAsWrittenHoldsOthers` | mqpkg/src/resolver/pubgrub.rs:43-67 | As written, `singleton(1.2.3@(5,7))` also holds 1.2.3 from source 0 and 1.2.4 from source 6. |
| `VersionSets.Singleton` | mqpkg/src/resolver/pubgrub.rs:43-67 | Corrected: `singleton(c)`, as the segment `[c, Next(c))` on the track of c, contains exactly the versions equal to c (same semantic version and stamps). |
| `VersionSets.Complement` | mqpkg/src/resolver/pubgrub.rs:69-74 | The complement contains a version exactly when it is at or above `lowest` and the set does not contain it. |
| `VersionSets.ComplementTagged` | mqpkg/src/resolver/pubgrub.rs:69-74 | For a well-tagged version: in the complement exactly when it is not a pre-release of 0.0.0 and not in the set. |
| `VersionSets.Intersect` | mqpkg/src/resolver/pubgrub.rs:76-81 | The intersection contains a version exactly when both sets do. |
| `VersionSets.Default` | mqpkg/src/resolver/pubgrub.rs:113-118 | `default()` contains no pre-release, and contains every well-tagged final version. |
| `VersionSets.Both` | mqpkg/src/resolver/pubgrub.rs:120-146 | A set with `pre == range` contains a version exactly when the range does, whatever the pre-release flag. |
| `VersionSets.ExactSet` | mqpkg/src/resolver/pubgrub.rs:120-125 | `exact(v)` contains exactly the x with v <= x < `bump(v)`: v itself, and nothing whose precedence passes that of `bump(v)`. |
| `VersionSets.ExactCandidateFinal` | mqpkg/src/resolver/types/requirement.rs:104-107 | `exact` of the candidate bound I.J.K, which `=I.J.K` builds, holds a well-tagged final version exactly when it is release I.J.K, from any source. |
| `VersionSets.ExactRejectsBelowBound` | mqpkg/src/resolver/types/requirement.rs:104-107 | A release stamped (`u64::MAX`, 5) is not well-tagged, and `=1.2.3` rejects 1.2.3 with that stamp. |
| `VersionSets.BetweenSet` | mqpkg/src/resolver/pubgrub.rs:127-132 | `between(l, r)` contains exactly the x with l <= x < r. |
| `VersionSets.HigherThanSet` | mqpkg/src/resolver/pubgrub.rs:134-139 | `higher_than(v)` contains exactly the x with x >= v. |
| `VersionSets.StrictlyLowerThanSet` | mqpkg/src/resolver/pubgrub.rs:141-146 | `strictly_lower_than(v)` contains exactly the x with `lowest` <= x < v. |
| `VersionSets.WithNormal` | mqpkg/src/resolver/pubgrub.rs:148-153 | `with_normal` intersects the final-version track and leaves `pre` unchanged. |
| `VersionSets.WithPre` | mqpkg/src/resolver/pubgrub.rs:155-160 | `with_pre` leaves `range` unchanged; its `pre` holds exactly what either `pre` holds at or above `lowest`. |
| `Candidates.CmpLaws` | mqpkg/src/resolver/candidates.rs:43-47 | Candidate order is the wrapped versions' precedence: Equal exactly on equal candidates, and reversed by swapping. |
| `Candidates.LowestIsLowestFinal` | mqpkg/src/resolver/candidates.rs:56-58 | `lowest` (0.0.0) is at or below every final candidate. |
| `Candidates.BumpIsNextFinal` | mqpkg/src/resolver/candidates.rs:60-66 | `bump` is strictly greater, and no final version lies strictly between a final candidate and its bump. |
| `Candidates.ConvertPrerelease` | mqpkg/src/resolver/candidates.rs:207-221 | `convert_prerelease`: nothing without a pre-release, else `[I.J.K-P, I.J.K)`; its meaning is `Candidates.ConvertPrereleaseMeaning`. |
| `Candidates.ConvertNormalAsWritten` | mqpkg/src/resolver/candidates.rs:223-432 | `convert_normal` as written, one interval per operator and precision; it differs from the corrected form only on `^0.J` (`Candidates.ConvertNormalAsWrittenElsewhere`). |
| `Candidates.ConvertNormal` | mqpkg/src/resolver/candidates.rs:223-432 | Corrected `convert_normal`, with `^0.J` as `[0.J.0, 0.(J+1).0)`; its meaning is `Candidates.ConvertNormalMeaning`. |
| `Candidates.ConvertExactMeaning` | mqpkg/src/resolver/candidates.rs:232-253 | For final versions, `=I.J.K`, `=I.J` and `=I` admit exactly what the operator means. |
| `Candidates.ConvertGreaterMeaning` | mqpkg/src/resolver/candidates.rs:254-287 | For final versions, `>` and `>=` at every precision admit exactly what the operator means; for example `>I.J.K` is `>=I.J.(K+1)`. |
| `Candidates.ConvertLessMeaning` | mqpkg/src/resolver/candidates.rs:288-325 | For final versions, `<` and `<=` at every precision admit exactly what the operator means; for example `<=I.J` is `<I.(J+1).0`. |
| `Candidates.ConvertTildeMeaning` | mqpkg/src/resolver/candidates.rs:326-348 | For final versions, `~` and the wildcards admit exactly `[I.J.K, I.(J+1).0)`, `[I.J.0, I.(J+1).0)` or `[I.0.0, (I+1).0.0)`. |
| `Candidates.ConvertCaretMeaning` | mqpkg/src/resolver/candidates.rs:349-415 | For final versions, the corrected `^` admits exactly what the operator means, at every precision. |
| `Candidates.ConvertNormalMeaning` | mqpkg/src/resolver/candidates.rs:223-432 | For every well-formed comparator and final version: in the corrected `convert_normal` range exactly when the comparator matches. |
| `Candidates.ConvertPrereleaseMeaning` | mqpkg/src/resolver/candidates.rs:207-221 | `convert_prerelease` is empty without a pre-release. Otherwise it admits exactly the versions in `[I.J.K-P, I.J.K)`. |
| `Candidates.ConvertNormalAsWrittenElsewhere` | mqpkg/src/resolver/candidates.rs:223-432 | The code as written and the corrected conversion agree on every comparator except `^0.J` (J > 0, no patch). |
| `Candidates.CaretZeroMinorAsWritten` | mqpkg/src/resolver/candidates.rs:393-400 | As written, `^0.2` admits 0.5.0, which neither `^0.2.0` nor the meaning of `^` admits. |
| `Candidates.AtLeastLowest` | mqpkg/src/resolver/candidates.rs:56-58 | A candidate is at or above `lowest` exactly when it is not a pre-release of 0.0.0. |
| `Candidates.EmptySet` | mqpkg/src/resolver/candidates.rs:127-132 | The empty `CandidateSet` contains nothing. |
| `Candidates.SingletonAsWritten` | mqpkg/src/resolver/candidates.rs:134-158 | As written, `singleton(v)` holds v and only candidates on its track at or above v; for a final v, exactly v. |
| `Candidates.SingletonAsWrittenPrerelease` | mqpkg/src/resolver/candidates.rs:134-158 | As written, `singleton(1.2.3-alpha)` also holds 1.2.3-beta and 1.2.4-alpha. |
| `Candidates.Singleton` | mqpkg/src/resolver/candidates.rs:134-158 | Corrected: `singleton(v)`, as `[v, Next(v))` on the track of v, contains exactly v. |
| `Candidates.Complement` | mqpkg/src/resolver/candidates.rs:160-165 | The complement holds a candidate exactly when it is not a pre-release of 0.0.0 and the set does not hold it. |
| `Candidates.Intersect` | mqpkg/src/resolver/candidates.rs:167-172 | The intersection is the conjunction of `contains`. |
| `Candidates.Req` | mqpkg/src/resolver/candidates.rs:82-121 | `req` keeps `pre` inside `range`. |
| `Candidates.NormalFold` | mqpkg/src/resolver/candidates.rs:109-112 | The loop's `range`, folded from `Range::full()` by intersection; its meaning is `Candidates.NormalFoldContains`. |
| `Candidates.PreFold` | mqpkg/src/resolver/candidates.rs:109-112 | The loop's `pre`, folded from `Range::none()` by union; its meaning is `Candidates.PreFoldContains`. |
| `Candidates.NormalFoldContains` | mqpkg/src/resolver/candidates.rs:109-112 | `range` holds exactly what every comparator's `convert_normal` holds, except pre-releases of 0.0.0, which `full()` starts above. |
| `Candidates.PreFoldContains` | mqpkg/src/resolver/candidates.rs:109-112 | The pre fold holds exactly what some comparator's `convert_prerelease` holds, except pre-releases of 0.0.0, which `union` drops. |
| `Candidates.ReqFinal` | mqpkg/src/resolver/candidates.rs:82-121 | A final version is in `req` exactly when every comparator matches it. |
| `Candidates.ReqPrerelease` | mqpkg/src/resolver/candidates.rs:82-121 | A pre-release is in `req` exactly when it is not a pre-release of 0.0.0, every comparator's range holds it, and some comparator names a pre-release of the same version at or below it. |
| `Candidates.ReqNoPrerelease` | mqpkg/src/resolver/candidates.rs:82-121 | A requirement without a pre-release comparator admits no pre-release. |
| `Candidates.ReqZeroPrerelease` | mqpkg/src/resolver/candidates.rs:82-121 | `>=0.0.0-alpha` names 0.0.0-alpha, yet `req` does not hold it: the full range starts at 0.0.0. |
| `Requirements.ConvertPrerelease` | mqpkg/src/resolver/types/requirement.rs:77-87 | `convert_prerelease` on tagged versions; its meaning is `Requirements.ConvertPrereleaseMeaning`. |
| `Requirements.ConvertNormalAsWritten` | mqpkg/src/resolver/types/requirement.rs:89-300 | `convert_normal` as written, with candidate-stamped bounds; `Requirements.ConvertIsTagged` ties it to the `candidates.rs` intervals. |
| `Requirements.ConvertNormal` | mqpkg/src/resolver/types/requirement.rs:89-300 | Corrected `convert_normal` (`^0.J` fixed); its meaning is `Requirements.ConvertNormalMeaning`. |
| `Requirements.TagLowestBump` | mqpkg/src/resolver/types/version.rs:100-112 | Stamping maps the untagged `lowest` and `bump` onto the tagged ones, so every stamped range is the untagged range with stamped bounds. |
| `Requirements.ConvertIsTagged` | mqpkg/src/resolver/types/requirement.rs:77-300 | Both conversions build, with candidate-stamped bounds, the same intervals as the `candidates.rs` generation. `convert_prerelease` is empty without a pre-release. |
| `Requirements.ConvertNormalIsBoth` | mqpkg/src/resolver/types/requirement.rs:89-300 | Every arm of `convert_normal` sets `pre == range`. |
| `Requirements.TaggedContains` | mqpkg/src/resolver/types/requirement.rs:89-300 | A well-tagged version is in a stamped range exactly when its semantic version is in the unstamped one. |
| `Requirements.ConvertNormalMeaning` | mqpkg/src/resolver/types/requirement.rs:89-300 | For well-tagged final versions, the corrected `convert_normal` admits exactly the matching versions; `=I.J.K` admits release I.J.K from every source. |
| `Requirements.ConvertPrereleaseMeaning` | mqpkg/src/resolver/types/requirement.rs:77-87 | `convert_prerelease` admits exactly `[I.J.K-P, I.J.K)`, and nothing without a pre-release. |
| `Requirements.BumpedPrereleaseBounds` | mqpkg/src/resolver/types/requirement.rs:120-192 | `>I.J.K-P` admits exactly the versions above I.J.K-P, and `<=I.J.K-P` exactly those at or below it. |
| `Requirements.FoldSteps` | mqpkg/src/resolver/types/requirement.rs:63-66 | The loop: from `default()`, each step applies `with_normal` and then `with_pre`; its meaning is `Requirements.FoldStepsRange` and `Requirements.FoldStepsPre`. |
| `Requirements.FoldStepsRange` | mqpkg/src/resolver/types/requirement.rs:63-66 | Folding from `default()` with `with_normal` holds a version exactly when it is at or above `lowest` and every step's range holds it. |
| `Requirements.FoldStepsPre` | mqpkg/src/resolver/types/requirement.rs:63-66 | Folding from `default()` with `with_pre` holds a pre-release exactly when it is at or above `lowest` and some step's pre-release track holds it. |
| `Requirements.FromRequirementAsWritten` | mqpkg/src/resolver/types/requirement.rs:34-69 | `From<&Requirement>` as written; its meaning is `Requirements.FromRequirementAsWrittenFinal` and `Requirements.FromRequirementAsWrittenPrerelease`. |
| `Requirements.FromRequirement` | mqpkg/src/resolver/semver.rs:325-329 | The corrected requirement set intersects the pre-release track with the range, as the comment there asks: `pre` stays inside `range`. |
| `Requirements.FoldRange` | mqpkg/src/resolver/types/requirement.rs:63-66 | The requirement's range holds exactly what every comparator's range holds at or above `lowest`. |
| `Requirements.FoldPre` | mqpkg/src/resolver/types/requirement.rs:63-66 | The folded pre-release track holds exactly what some comparator's pre-release interval holds at or above `lowest`. |
| `Requirements.FoldAsWrittenPre` | mqpkg/src/resolver/types/requirement.rs:63-66 | As written, the pre-release track is that union, clamped at `lowest`, and nothing more. |
| `Requirements.FromRequirementFinal` | mqpkg/src/resolver/types/requirement.rs:34-69 | A final version is in the corrected set exactly when it is at or above `lowest` and in every comparator's set. |
| `Requirements.FromRequirementFinalMeaning` | mqpkg/src/resolver/types/requirement.rs:34-69 | A well-tagged final version is in the corrected set exactly when every comparator matches it, `=I.J.K` included. |
| `Requirements.FromRequirementPrerelease` | mqpkg/src/resolver/types/requirement.rs:34-69 | With the intersection, a pre-release is in the set exactly when it is not a pre-release of 0.0.0, every comparator's range holds it, and some comparator names a pre-release of the same version at or below it. |
| `Requirements.FromRequirementAsWrittenFinal` | mqpkg/src/resolver/types/requirement.rs:34-69 | As written, a well-tagged final version is in the set exactly when every comparator's as-written range holds it. |
| `Requirements.FromRequirementAsWrittenPrerelease` | mqpkg/src/resolver/types/requirement.rs:63-68 | As written, a pre-release (not of 0.0.0) is in the set as soon as some comparator names a pre-release of the same version at or below it. The range is not consulted. |
| `Requirements.NoPrereleaseWithoutPrereleaseComparator` | mqpkg/src/resolver/types/requirement.rs:42-66 | A requirement with no pre-release comparator admits no pre-release, as written and corrected. |
| `Requirements.PrereleaseTrackAsWritten` | mqpkg/src/resolver/semver.rs:320-331 | As written, `<1.0.0-beta` admits 1.0.0-rc, although its own range excludes it. The corrected set does not admit it. |
| `Resolver.ConvertAsWritten` | mqpkg/src/resolver.rs:104-246 | `convert` as written: an interval per operator and precision, or an error; `Resolver.ConvertIsConvertNormal` and `Resolver.ConvertErrors` give its meaning. |
| `Resolver.Convert` | mqpkg/src/resolver.rs:209-216 | `convert` with the `^0.J` arm corrected; its meaning is `Resolver.ConvertMeaning`. |
| `Resolver.ConvertIsConvertNormal` | mqpkg/src/resolver.rs:104-246 | `convert` succeeds exactly on well-formed comparators (pre-release ignored). Its range, as written and corrected, is the `candidates.rs` generation's. |
| `Resolver.ConvertMeaning` | mqpkg/src/resolver.rs:104-246 | A successful corrected `convert` admits exactly the final versions the comparator matches. |
| `Resolver.ConvertErrors` | mqpkg/src/resolver.rs:104-246 | Each error has an exact condition. `UnknownOperator` is an unlisted operator. `InvalidWildcard` is a wildcard with minor and patch. `InvalidVersion` is a patch without a minor. |
| `Resolver.CaretZeroMinorAsWritten` | mqpkg/src/resolver.rs:209-224 | As written, `^0.2` admits 0.5.0; the corrected conversion and `^0.2.0` do not. |
| `Resolver.MergeInto` | mqpkg/src/resolver.rs:84-88 | The merged range is `new ∩ existing` when an entry exists, and `new` otherwise. |
| `Resolver.Merge` | mqpkg/src/resolver.rs:79-90 | `merge` stores the merged range under the package and leaves every other key unchanged. |
| `Resolver.MergeAll` | mqpkg/src/resolver.rs:57-71 | Merging a requirement's comparators leaves no entry only when there are none. Otherwise the entry is the intersection of all of them. |
| `Resolver.Constrained` | mqpkg/src/resolver.rs:54-75 | The dependency map has an entry for each required package that has a comparator. Each entry is the intersection of that package's comparators. |
| `Resolver.ConstrainedStep` | mqpkg/src/resolver.rs:56-72 | One pass of the outer loop adds exactly that package's merged entry. |
| `Resolver.MergeRequirement` | mqpkg/src/resolver.rs:57-71 | The inner loop's result is the merge of every comparator of one requirement. |
| `Resolver.GetDependencies` | mqpkg/src/resolver.rs:49-76 | `get_dependencies` as written builds the map `Constrained` describes. |
| `Resolver.DependenciesCorrected` | mqpkg/src/resolver.rs:49-76 | Corrected: every required package has an entry, which admits exactly what all its comparators admit, except pre-releases of 0.0.0. |
| `Resolver.StarDependencyDropped` | mqpkg/src/resolver.rs:56-72 | As written, a dependency on `*` (no comparators) gets no entry. The corrected map keeps it with every version allowed that is not a pre-release of 0.0.0. |
| `Types.Lower` | mqpkg/src/types.rs:60 | ASCII lower-casing keeps the length and maps each character on its own. |
| `Types.FirstNonAlnum` | mqpkg/src/types.rs:74 | Finds the first character that is not ASCII alphanumeric, or reports that there is none. |
| `Types.Parse` | mqpkg/src/types.rs:37-61 | Succeeds exactly on a name that starts with an ASCII letter and is all ASCII alphanumerics, giving it lower-cased. Errors: `TooShort` exactly for the empty name; `NoStartingAlpha` with the first character; `InvalidCharacter` with the first character that is not ASCII alphanumeric. |
| `Types.LowerKeepsValid` | mqpkg/src/types.rs:60 | Lower-casing keeps a name valid, leaves no upper-case letter, and is idempotent. |
| `Types.ParseIdempotent` | mqpkg/src/types.rs:37-61 | Parsing a parsed name again gives the same name. |
| `Types.SplitSpecifier` | mqpkg/src/types.rs:74-77 | The name part is all alphanumerics. The split is at the first other character; with none, the version text is `*`. |
| `Types.ParseSpecifier` | mqpkg/src/types.rs:73-83 | Succeeds exactly when both parts parse. A name error is passed on as `InvalidPackageName`. `NoPackageName` is never produced. |
| `Types.BareSpecifier` | mqpkg/src/types.rs:73-83 | A bare valid name gives that name lower-cased with the requirement `*`. |
| `Types.SpecifierNamePrefix` | mqpkg/src/types.rs:73-83 | A valid name followed by a non-alphanumeric character splits exactly there. |
| `Types.RootRanksLowest` | mqpkg/src/types.rs:169-176 | The root displays empty and ranks below every repository candidate that is not a pre-release of 0.0.0. |
| `Types.WithRepository` | mqpkg/src/types.rs:178-183 | `with_repository` changes only the repository field. |
| `Types.Text` | mqpkg/src/types.rs:186-199 | Display is empty exactly for the root, and the version otherwise. |
| `Types.Eq` | mqpkg/src/types.rs:143-157 | `eq` holds when the versions are equal and the repository indices agree, two absent indices counting as equal. |
| `Types.Cmp` | mqpkg/src/types.rs:201-214 | `cmp` is Equal exactly when `eq` holds, and follows precedence whenever the versions differ. |
| `Types.CmpLaws` | mqpkg/src/types.rs:143-214 | `cmp` is Equal exactly when `eq` holds (equal versions and repository indices, both absent counting as equal), and swapping reverses it. |
| `Types.CmpTransitive` | mqpkg/src/types.rs:201-214 | The candidate order is transitive. |
| `Types.EarlierRepositoryRanksGreater` | mqpkg/src/types.rs:204-205 | Of two candidates of one version, the one from the earlier repository ranks greater. |
| `Names.New` | mqpkg/src/resolver/types/name.rs:30-33 | `Name::new` makes a non-root name that converts back to the package name given. It panics on the root's name, which becomes a precondition. |
| `Names.Root` | mqpkg/src/resolver/types/name.rs:35-40 | `root()` is a root name and displays as the reserved name. |
| `Names.RoundTrip` | mqpkg/src/resolver/types/name.rs:53-63 | PackageName to Name and back is the identity. A made name never equals the root. Both constructors make valid names. |
| `Names.RootNameNeverParses` | mqpkg/src/resolver/types/name.rs:12 | "requested packages" fails to parse, with `InvalidCharacter(" ")`. |
| `Names.ParsedNameIsNotRoot` | mqpkg/src/resolver/types/name.rs:9-12 | No parsed package name is the reserved name, so `Name::new` accepts every parsed name. |
| `Dependencies.New` | mqpkg/src/resolver/types/dependencies.rs:29-38 | Every key becomes a non-root `Name` holding its requirement, and every entry comes from a key given. |
| `Dependencies.GetIsNew` | mqpkg/src/resolver/types/dependencies.rs:41-45 | `get` gives back one entry per key given to `new`, each holding that key's requirement. |
| `ResolverCandidates.Id` | mqpkg/src/resolver/pubgrub/candidate.rs:31-33 | The internal source's id is 0. |
| `ResolverCandidates.Discriminator` | mqpkg/src/resolver/pubgrub/candidate.rs:35-37 | The internal source's discriminator is its stored value. |
| `ResolverCandidates.New` | mqpkg/src/resolver/pubgrub/candidate.rs:48-61 | `new` stamps the version with the source's id and discriminator, and keeps the semantic version, source and dependencies. |
| `ResolverCandidates.CmpLaws` | mqpkg/src/resolver/pubgrub/candidate.rs:96-112 | Equality and order are the version's. Swapping reverses the order. Neither depends on the source or the dependencies. |
| `ResolverCandidates.LowerStampRanksGreater` | mqpkg/src/resolver/semver.rs:133-143 | Of two candidates of one version, the one whose source stamp is lower ranks greater. |
| `ResolverCandidates.RootIsLowest` | mqpkg/src/resolver/pubgrub/candidate.rs:63-75 | The root candidate is at or below every well-tagged final candidate. |
| `Solver.FromPubGrub` | mqpkg/src/resolver/mod.rs:31-51 | Each pubgrub error maps to its own variant, fields kept and names converted. The three provider errors map to `Impossible`. |
| `Solver.Resolve` | mqpkg/src/resolver/mod.rs:111-124 | Errors are mapped. Otherwise the result has one entry per non-root selection, keyed by its own package name, with that candidate's version and source. |
| `Solver.ResolveDropsRoot` | mqpkg/src/resolver/mod.rs:112-117 | The resolved packages never include the root's name, and each entry is filed under its own name. |
| `Solver.RootListingIsLowest` | mqpkg/src/resolver/mod.rs:150-155 | The root's listing is one candidate carrying the requested packages, at or below every well-tagged final version listed for another package. |
| `Solver.SetOf` | mqpkg/src/resolver/types/requirement.rs:34-69 | A well-formed requirement's version set is its `From<&Requirement>` conversion as written. |
| `Solver.ConvertedOf` | mqpkg/src/resolver/mod.rs:232-235 | After some iterations, the map holds exactly the visited dependencies, each converted. |
| `Solver.Converted` | mqpkg/src/resolver/mod.rs:232-237 | The constraints have the same keys as the dependencies, and each value is `req.into()` as written. |
| `Solver.ConvertedOfStep` | mqpkg/src/resolver/mod.rs:233-235 | One insertion adds exactly that dependency's converted set. |
| `Solver.ConvertAll` | mqpkg/src/resolver/mod.rs:232-235 | The insertion loop builds exactly the converted map. |
| `Solver.GetDependencies` | mqpkg/src/resolver/mod.rs:206-238 | `get_dependencies` is always Known, with the constraints `req.into()` gives. |
| `Solver.ConvertedMeaning` | mqpkg/src/resolver/mod.rs:232-237 | As written, a constraint admits a final version exactly when every comparator's as-written range does, and a pre-release (not of 0.0.0) exactly when some comparator names a pre-release of the same version at or below it. |
| `Solver.ConvertedLeaksPrerelease` | mqpkg/src/resolver/mod.rs:232-237 | For a dependency on `<1.0.0-beta`, the constraint `get_dependencies` reports holds 1.0.0-rc; the corrected one does not. |
| `Solver.SetOfCorrected` | mqpkg/src/resolver/types/requirement.rs:34-69 | Corrected: a well-formed requirement's set with the range intersected into the pre-release track. |
| `Solver.ConvertedCorrected` | mqpkg/src/resolver/mod.rs:232-237 | Corrected: the same keys, each value the corrected set. |
| `Solver.ConvertedCorrectedMeaning` | mqpkg/src/resolver/mod.rs:232-237 | Corrected: a constraint admits a version exactly when it is not a pre-release of 0.0.0, every comparator's range holds it, and, for a pre-release, some comparator names a pre-release of the same version at or below it. |
| `Providers.GetDependencies` | mqpkg/src/resolver/pubgrub/providers/repository.rs:98-132 | Unknown exactly when the candidate cannot tell its dependencies; otherwise Known with each requirement converted. |
| `Providers.KnownKeepsNames` | mqpkg/src/resolver/pubgrub/providers/repository.rs:125-129 | Known constraints have the same names as the candidate's dependencies, each with `req.into()` as written. |
| `Providers.VersionStr` | mqpkg/src/resolver/pubgrub/providers/repository.rs:135-141 | `version_str` is empty exactly when not displaying, and " (v)" otherwise. |
| `Repositories.Entry` | mqpkg/src/repository.rs:99 | The entry pushed for a release carries its version and its repository's position and configuration. |
| `Repositories.CollectRepository` | mqpkg/src/repository.rs:96-101 | The inner loop pushes one entry for each version the repository offers, keeps the earlier entries, and keeps all entries distinct. |
| `Repositories.Insert` | mqpkg/src/repository.rs:108 | One insertion step of the sort keeps the list strictly decreasing and adds exactly the new entry. |
| `Repositories.SortDescending` | mqpkg/src/repository.rs:108 | Sorting with the reversed order gives a strictly decreasing permutation. |
| `Repositories.Candidates` | mqpkg/src/repository.rs:89-110 | `candidates` lists exactly one entry for each (repository, version) offering the package, newest first. The list is empty when no repository has the package. |
| `Repositories.EarlierRepositoryFirst` | mqpkg/src/repository.rs:104-108 | Of two listed releases of one version, the one from the earlier repository comes first. |
| `Repositories.InsertAll` | mqpkg/src/repository.rs:122-124 | Inserting a release's requirements lays them over the map, replacing clashing keys. |
| `Repositories.Dependencies` | mqpkg/src/repository.rs:112-130 | `dependencies` lays the maps of all repositories that offer the release over each other, in repository order. |
| `Repositories.MergedKeys` | mqpkg/src/repository.rs:117-129 | A name is a dependency exactly when some repository offering the release declares it. |
| `Repositories.LastRepositoryWins` | mqpkg/src/repository.rs:119-124 | On a clash, the requirement kept is the one from the last offering repository that declares the name. |
| `Repositories.NothingOfferedNoDependencies` | mqpkg/src/repository.rs:117-129 | When no repository offers the release, there are no dependencies. |
| `PkgDb.PkgdbPath` | mqpkg/src/pkgdb.rs:90-92 | The pkgdb directory is `<root>/pkgdb`. |
| `PkgDb.StatePath` | mqpkg/src/pkgdb.rs:94-96 | The state file is `<root>/pkgdb/state.yml`. |
| `PkgDb.Request` | mqpkg/src/pkgdb.rs:53-59 | The request is filed under its name with that name and version, replacing any earlier one. Every other entry is unchanged. |
| `PkgDb.RequestKeepsKeysMatch` | mqpkg/src/pkgdb.rs:53-57 | Every stored request stays filed under its own name. |
| `PkgDb.RequestReplaces` | mqpkg/src/pkgdb.rs:53-59 | Requesting a name twice leaves one entry, the later request. |
| `PkgDb.Database.constructor` | mqpkg/src/pkgdb.rs:47-50 | A database holds its root and its loaded state. |
| `PkgDb.Database.Add` | mqpkg/src/pkgdb.rs:52-62 | `add` files the request in the state before saving, keeps every request filed under its own name, and returns the save's outcome. |
| `PkgDb.New` | mqpkg/src/pkgdb.rs:47-50 | `Database::new` fails exactly when loading the state fails. Otherwise it holds the loaded state. |

## Left out

- The pubgrub solving algorithm (`resolve`, `choose_package_with_fewest_versions`, derivation trees and their reporter) belongs to a foreign crate. `Solver.Resolve` takes pubgrub's outcome as a parameter. `choose_package_version` and `should_cancel` (a callback) are not modelled.
- Ranges.Contains: pubgrub keeps a range as a sorted list of segments and merges them in `intersection` and `negate`; the model keeps the range as a set expression over the same segments and takes those algorithms to compute the set operations. The version of the pubgrub crate is not pinned in the files modelled; the constructors follow pubgrub 0.2 (`any` is `higher_than(lowest)`, `exact(v)` is `[v, bump(v))`, `union` goes through `negate`).
- Parsing `semver::Version` and `VersionReq` from text, and the `Prerelease::new` validity check, belong to the foreign `semver` crate. Comparators and pre-release identifiers are input datatypes. `Types.ParseSpecifier` takes the requirement parser as a parameter.
- Build metadata is not modelled. In the `semver` crate, versions that differ only in build metadata are unequal and ordered by that metadata last, so `version.rs:77` would tell them apart; here such versions cannot be written.
- Candidates.Req, Candidates.ReqFinal, Candidates.ReqPrerelease, Candidates.NormalFold and Candidates.NormalFoldContains describe `req` with the corrected `convert_normal`; as written, `req` differs from them only on a `^0.J` comparator (`Candidates.ConvertNormalAsWrittenElsewhere`).
- Requirements.FromRequirement, Requirements.FromRequirementFinal, Requirements.FromRequirementFinalMeaning and Requirements.FromRequirementPrerelease describe the corrected loop (range intersected into `pre`, `^0.J` fixed); the code as written is `Requirements.FromRequirementAsWritten`, which `Solver` and `Providers` use.
- Resolver.GetDependencies: the `panic!` arms of `resolver.rs:60-68` become the precondition `AllRequirementsConvert`; the model does not say what happens when a comparator fails to convert.
- Solver.GetDependencies and Providers.GetDependencies: the `unreachable!()` arms reached through `req.into()` become the preconditions `WellFormedRequirements` and `WellFormedCandidate`; comparators the `semver` crate never builds are not modelled.
- Versions.CmpCandidateBound, Versions.LowestIsLowestFinal, Versions.AtLeastLowest, VersionSets.ComplementTagged, VersionSets.Default, VersionSets.ExactCandidateFinal, Requirements.TaggedContains, Requirements.ConvertNormalMeaning, Requirements.ConvertPrereleaseMeaning, Requirements.BumpedPrereleaseBounds, Requirements.FromRequirementFinalMeaning, Requirements.FromRequirementPrerelease, Requirements.FromRequirementAsWrittenFinal, Requirements.FromRequirementAsWrittenPrerelease, ResolverCandidates.RootIsLowest, Solver.RootListingIsLowest, Solver.ConvertedMeaning and Solver.ConvertedCorrectedMeaning hold only for well-tagged versions. The only source shown, `InternalSource`, reports id 0. A source reporting `u64::MAX` with a non-zero discriminator would rank below every candidate bound of its release, so `=I.J.K` and `>=I.J.K` would reject it (`VersionSets.ExactRejectsBelowBound`); what the other conversions do with such a version is not stated.
- `u64` overflow of `major+1`, `minor+1` and `patch+1` is not modelled: components are unbounded naturals.
- Repository fetching (`Repository::new` and `fetch`: HTTP, files, JSON), `Config` loading, `pkgdb` YAML reading and writing, directory creation and path joining errors are left out. `PkgDb.Database.Add` takes the outcome of saving as a parameter. `PkgDb.New` takes what reading the state file gave.
- The transaction locks, progress callbacks, logging (including every `trace!` call and `version_str`'s uses in them), the CLI entry points, `MQPkg::install` and `resolve`, and `operations.rs` are not part of this model.
- `Display` for requirements, names and version sets, and `humanized` errors, are left out. Only version and candidate display, which decides the root's empty display, is modelled.
- `repository.rs` calls a one-argument `Candidate::new(version)` and a one-argument `with_repository(repo)`. Neither matches `types.rs`, where `new` also takes the dependencies and `with_repository` also takes the index. `Repositories.Entry` uses the `types.rs` forms, with the release's dependencies and the repository's position.
- `repository.rs` sorts its vector in place. `Repositories.SortDescending` sorts a sequence value by insertion. Because all entries are distinct, any correct sort (stable or not) gives the same result, and the sortedness and permutation contracts are the same.
- Iteration order over hash maps is not modelled. The loops pick keys in any order, and their results do not depend on it.
- The `Dependencies` trait's `get` returns a plain map in `resolver/mod.rs` but an `Option` in `providers/repository.rs`. It is modelled as an optional map. `Solver.GetDependencies` requires the map to be present, as the internal provider assumes.
- The `semver.rs` generation of `Version`, `Candidate` and `StaticDependencies` matches the `types/version.rs`, `pubgrub/candidate.rs` and `types/dependencies.rs` generation. Each is modelled once (`Versions`, `ResolverCandidates`, `Dependencies`). `lib.rs`'s `PackageName` and `PackageSpecifier` parsing match `types.rs` and are modelled once in `Types`. `lib.rs`'s `Version::lowest` and `bump` are `Candidates.Lowest` and `Candidates.Bump`.
- Sources other than `InternalSource` are not shown. They are modelled by the two numbers they report.

## Findings

| source | as written | input that shows it | evidently intended | confidence | as-written member | corrected member |
|---|---|---|---|---|---|---|
| mqpkg/src/resolver/candidates.rs:393-400 | `^0.J` with J > 0 and no patch becomes `[0.J.0, 1.0.0)`. The same code is in requirement.rs:261-268, semver.rs:524-531 and resolver.rs:209-216. | `^0.2` against 0.5.0: admitted | `^0.J` is `^0.J.0`, as the comment on that arm says: `[0.J.0, 0.(J+1).0)` | not executed | `Candidates.CaretZeroMinorAsWritten` | `Candidates.ConvertCaretMeaning` |
| mqpkg/src/resolver/types/requirement.rs:63-68 | The pre-release track is the union of the comparators' pre-release intervals, not intersected with the range. The intersection is commented out at semver.rs:329 and present at candidates.rs:118. | `<1.0.0-beta` against 1.0.0-rc: admitted | a pre-release must also satisfy every comparator, as the comment before the loop says | not executed | `Requirements.PrereleaseTrackAsWritten` | `Requirements.FromRequirementPrerelease` |
| mqpkg/src/resolver.rs:56-72 | A dependency whose requirement has no comparators never reaches `merge`, so it gets no entry. | a dependency on `*` | the dependency is kept, with every version allowed | not executed | `Resolver.StarDependencyDropped` | `Resolver.DependenciesCorrected` |
| mqpkg/src/resolver/pubgrub.rs:43-67 | `singleton(c)` is `exact(c)` on the track of c, that is `[c, bump(c))`, although the comment expects `exact` to give c alone. | `singleton(1.2.3@(5,7))` holds 1.2.3@(0,0) and 1.2.4@(6,0) | the versions equal to c and nothing else | not executed | `VersionSets.SingletonAsWrittenHoldsOthers` | `VersionSets.Singleton` |
| mqpkg/src/resolver/candidates.rs:134-158 | A pre-release singleton is `[v, bump(v))` on the `pre` track, which holds later pre-releases of v and pre-releases of the next patch. | `singleton(1.2.3-alpha)` holds 1.2.3-beta and 1.2.4-alpha | exactly v | not executed | `Candidates.SingletonAsWrittenPrerelease` | `Candidates.Singleton` |
