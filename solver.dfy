/** The solver front end (mqpkg/src/resolver/mod.rs): the mapping of the
    pubgrub crate's errors, the shaping of its result into packages, and the
    dependency provider that lists versions and converts requirements. The
    solving algorithm itself is the pubgrub crate and is a parameter here. */
module Solver {
  import O = Orderings
  import opened Results
  import S = Semver
  import V = Versions
  import T = Types
  import N = Names
  import R = Requirements
  import VS = VersionSets
  import RC = ResolverCandidates

  /** pubgrub's derivation tree, kept only as the report it renders to. */
  datatype DerivationTree = DerivationTree(report: string)

  /** `PubGrubError<Name, VersionSet<Candidate>>`. */
  datatype PubGrubError =
    | NoSolution(tree: DerivationTree)
    | DependencyOnTheEmptySet(package: N.Name, version: RC.Candidate, dependent: N.Name)
    | SelfDependency(package: N.Name, version: RC.Candidate)
    | ErrorRetrievingDependencies(package: N.Name, version: RC.Candidate, source: string)
    | ErrorChoosingPackageVersion(message: string)
    | ErrorInShouldCancel(message: string)
    | Failure(message: string)

  /** `SolverError`. */
  datatype SolverError =
    | NoSolution(tree: DerivationTree)
    | DependencyOnTheEmptySet(package: T.PackageName, version: RC.Candidate, dependent: T.PackageName)
    | SelfDependency(package: T.PackageName, version: RC.Candidate)
    | Failure(message: string)
    | Impossible

  /** `SolverError::from_pubgrub`. */
  function FromPubGrub(e: PubGrubError): (r: SolverError)
    ensures r.NoSolution? <==> e.NoSolution?
    ensures r.Failure? <==> e.Failure?
    ensures r.DependencyOnTheEmptySet? <==> e.DependencyOnTheEmptySet?
    ensures r.SelfDependency? <==> e.SelfDependency?
    ensures r.Impossible? <==> e.ErrorRetrievingDependencies? || e.ErrorChoosingPackageVersion? || e.ErrorInShouldCancel?
    ensures e.NoSolution? ==> r.tree == e.tree
    ensures e.Failure? ==> r.message == e.message
    ensures e.DependencyOnTheEmptySet? ==>
              r.package == N.ToPackageName(e.package) && r.version == e.version && r.dependent == N.ToPackageName(e.dependent)
    ensures e.SelfDependency? ==> r.package == N.ToPackageName(e.package) && r.version == e.version
  {
    match e
    case NoSolution(dt) => SolverError.NoSolution(dt)
    case DependencyOnTheEmptySet(package, version, dependent) =>
      SolverError.DependencyOnTheEmptySet(N.ToPackageName(package), version, N.ToPackageName(dependent))
    case SelfDependency(package, version) => SolverError.SelfDependency(N.ToPackageName(package), version)
    case Failure(s) => SolverError.Failure(s)
    case ErrorRetrievingDependencies(_, _, _) => Impossible
    case ErrorChoosingPackageVersion(_) => Impossible
    case ErrorInShouldCancel(_) => Impossible
  }

  /** A resolved package: its name, the chosen version and where it comes
      from. */
  datatype Package = Package(name: T.PackageName, version: V.Version, source: RC.Source)

  /** The result shaping of `Solver::resolve`: the root is filtered out and
      each other selection becomes a package keyed by its own name. `outcome`
      is what pubgrub's `resolve` returned. */
  function Resolve(outcome: Result<map<N.Name, RC.Candidate>, PubGrubError>): (r: Result<map<T.PackageName, Package>, SolverError>)
    requires outcome.Ok? ==> forall n :: n in outcome.value ==> N.Valid(n)
    ensures outcome.Err? <==> r.Err?
    ensures outcome.Err? ==> r.error == FromPubGrub(outcome.error)
    ensures outcome.Ok? ==> r.value.Keys == set n | n in outcome.value && !N.IsRoot(n) :: N.ToPackageName(n)
    ensures outcome.Ok? ==> forall n :: n in outcome.value && !N.IsRoot(n) ==>
              r.value[N.ToPackageName(n)] == Package(N.ToPackageName(n), outcome.value[n].version, outcome.value[n].source)
  {
    match outcome
    case Err(e) => Err(FromPubGrub(e))
    case Ok(selected) =>
      Ok(map n | n in selected && !N.IsRoot(n) :: N.ToPackageName(n) := Package(N.ToPackageName(n), selected[n].version, selected[n].source))
  }

  /** The root's name never reaches the resolved packages. */
  lemma ResolveDropsRoot(outcome: Result<map<N.Name, RC.Candidate>, PubGrubError>)
    requires outcome.Ok? && forall n :: n in outcome.value ==> N.Valid(n)
    ensures T.PackageName(N.ROOT_NAME) !in Resolve(outcome).value
    ensures forall p :: p in Resolve(outcome).value ==> Resolve(outcome).value[p].name == p
  {
  }

  // ---- the dependency provider ---------------------------------------------

  /** `InternalSolver`: the repository's listing of candidates per package
      and the requested packages. */
  datatype InternalSolver = InternalSolver(candidates: N.Name -> seq<RC.Candidate>, requested: map<N.Name, R.Requirement>)

  /** `list_versions`: the root candidate alone for the root, the
      repository's candidates otherwise. */
  function ListVersions(s: InternalSolver, package: N.Name): (r: seq<RC.Candidate>)
    ensures N.IsRoot(package) ==> r == [RC.Root(s.requested)]
    ensures !N.IsRoot(package) ==> r == s.candidates(package)
  {
    if N.IsRoot(package) then [RC.Root(s.requested)] else s.candidates(package)
  }

  /** The root's listing is one candidate, carrying the requested packages,
      that ranks at or below every final version listed for any other
      package. */
  lemma RootListingIsLowest(s: InternalSolver, root: N.Name, package: N.Name, c: RC.Candidate)
    requires N.IsRoot(root) && !N.IsRoot(package) && c in ListVersions(s, package)
    requires V.WellTagged(c.version) && !V.IsPrerelease(c.version)
    ensures |ListVersions(s, root)| == 1 && ListVersions(s, root)[0].dependencies == Some(s.requested)
    ensures RC.Cmp(ListVersions(s, root)[0], c) != O.Greater
  {
    RC.RootIsLowest(s.requested, c);
  }

  /** pubgrub's `Dependencies`. */
  datatype PDependencies = Unknown | Known(constraints: map<N.Name, VS.VersionSet>)

  /** Every requirement's comparators are ones the `semver` crate builds. */
  predicate WellFormedRequirements(deps: map<N.Name, R.Requirement>) {
    forall n :: n in deps ==> S.WellFormedReq(deps[n].req.comparators)
  }

  /** `req.into()`: the version set a requirement converts to, through the
      loop as written. The `semver` crate only builds well-formed
      comparators (the converters panic on any other); the empty set for any
      other requirement is never reached under `WellFormedRequirements`. */
  function SetOf(r: R.Requirement): (s: VS.VersionSet)
    ensures S.WellFormedReq(r.req.comparators) ==> s == R.FromRequirementAsWritten(r.req.comparators)
  {
    if S.WellFormedReq(r.req.comparators) then R.FromRequirementAsWritten(r.req.comparators) else VS.Empty()
  }

  /** The requirements of the names in `done`, each converted by `convert`. */
  function ConvertedOf(deps: map<N.Name, R.Requirement>, done: set<N.Name>, convert: R.Requirement -> VS.VersionSet): (r: map<N.Name, VS.VersionSet>)
    ensures r.Keys == deps.Keys * done
    ensures forall n :: n in r ==> r[n] == convert(deps[n])
  {
    map n | n in deps && n in done :: convert(deps[n])
  }

  lemma ConvertedOfStep(deps: map<N.Name, R.Requirement>, done: set<N.Name>, dep: N.Name, convert: R.Requirement -> VS.VersionSet)
    requires dep in deps
    ensures ConvertedOf(deps, done + {dep}, convert) == ConvertedOf(deps, done, convert)[dep := convert(deps[dep])]
  {
    var a, b := ConvertedOf(deps, done + {dep}, convert), ConvertedOf(deps, done, convert)[dep := convert(deps[dep])];
    assert a.Keys == b.Keys;
    assert forall n :: n in a ==> a[n] == b[n];
  }

  /** Each requirement converted to its version set as written, under the
      same name. */
  function Converted(deps: map<N.Name, R.Requirement>): (r: map<N.Name, VS.VersionSet>)
    requires WellFormedRequirements(deps)
    ensures r.Keys == deps.Keys
    ensures forall n :: n in r ==> r[n] == R.FromRequirementAsWritten(deps[n].req.comparators)
  {
    var r := ConvertedOf(deps, deps.Keys, SetOf);
    assert forall n :: n in r ==> r[n] == SetOf(deps[n]);
    r
  }

  /** The version set a requirement converts to with the corrected loop. */
  function SetOfCorrected(r: R.Requirement): (s: VS.VersionSet)
    ensures S.WellFormedReq(r.req.comparators) ==> s == R.FromRequirement(r.req.comparators)
  {
    if S.WellFormedReq(r.req.comparators) then R.FromRequirement(r.req.comparators) else VS.Empty()
  }

  /** Each requirement converted with the corrected loop, under the same
      name: what `get_dependencies` would report with the corrected
      conversion. */
  function ConvertedCorrected(deps: map<N.Name, R.Requirement>): (r: map<N.Name, VS.VersionSet>)
    requires WellFormedRequirements(deps)
    ensures r.Keys == deps.Keys
    ensures forall n :: n in r ==> r[n] == R.FromRequirement(deps[n].req.comparators)
  {
    var r := ConvertedOf(deps, deps.Keys, SetOfCorrected);
    assert forall n :: n in r ==> r[n] == SetOfCorrected(deps[n]);
    r
  }

  /** The loop of `get_dependencies`: inserts each dependency with its
      requirement converted by `convert` (`Into<VersionSet>`). */
  method ConvertAll(deps: map<N.Name, R.Requirement>, convert: R.Requirement -> VS.VersionSet) returns (result: map<N.Name, VS.VersionSet>)
    ensures result == ConvertedOf(deps, deps.Keys, convert)
  {
    result := map[];
    var remaining := deps.Keys;
    while remaining != {}
      invariant remaining <= deps.Keys
      invariant result == ConvertedOf(deps, deps.Keys - remaining, convert)
      decreases |remaining|
    {
      var dep :| dep in remaining;
      ghost var done := deps.Keys - remaining;
      result := result[dep := convert(deps[dep])];
      ConvertedOfStep(deps, done, dep, convert);
      remaining := remaining - {dep};
      assert deps.Keys - remaining == done + {dep};
    }
  }

  /** `InternalSolver::get_dependencies`: always Known, each requirement
      converted as written. The candidate's dependencies must be present:
      the source unwraps them. */
  method GetDependencies(candidate: RC.Candidate) returns (r: PDependencies)
    requires candidate.dependencies.Some? && WellFormedRequirements(candidate.dependencies.value)
    ensures r == Known(Converted(candidate.dependencies.value))
  {
    var result := ConvertAll(candidate.dependencies.value, SetOf);
    r := Known(result);
  }

  /** As the solver receives it, a dependency's set holds a well-tagged final
      version exactly when each comparator's set does, and a pre-release as
      soon as one comparator names a pre-release of the same version at or
      below it, whatever the other comparators say. */
  lemma ConvertedMeaning(deps: map<N.Name, R.Requirement>, n: N.Name, v: V.Version)
    requires WellFormedRequirements(deps) && n in deps && V.WellTagged(v)
    ensures var cs := deps[n].req.comparators;
            VS.Contains(Converted(deps)[n], v) <==>
              if V.IsPrerelease(v) then !S.BelowZero(v.semver) && exists i :: 0 <= i < |cs| && S.PreAdmits(cs[i], v.semver)
              else forall i :: 0 <= i < |cs| ==> VS.Contains(R.ConvertNormalAsWritten(cs[i]), v)
  {
    var cs := deps[n].req.comparators;
    if V.IsPrerelease(v) {
      R.FromRequirementAsWrittenPrerelease(cs, v);
    } else {
      R.FromRequirementAsWrittenFinal(cs, v);
    }
  }

  /** A dependency `<1.0.0-beta` reaches the solver holding 1.0.0-rc; the
      corrected set does not hold it. */
  lemma ConvertedLeaksPrerelease(n: N.Name)
    ensures var c := S.Comparator(S.Less, 1, Some(0), Some(0), [S.AlphaNumeric("beta")]);
            var deps := map[n := R.Requirement(S.VersionReq([c]))];
            var v := V.Version(S.Version(1, 0, 0, [S.AlphaNumeric("rc")]), 0, 0, false);
            && WellFormedRequirements(deps)
            && VS.Contains(Converted(deps)[n], v)
            && !VS.Contains(ConvertedCorrected(deps)[n], v)
  {
    R.PrereleaseTrackAsWritten();
  }

  /** With the corrected conversion, a dependency's set holds a final
      version exactly when each of its comparators does, and a pre-release
      only when, in addition, some comparator names a pre-release of the
      same version at or below it. */
  lemma ConvertedCorrectedMeaning(deps: map<N.Name, R.Requirement>, n: N.Name, v: V.Version)
    requires WellFormedRequirements(deps) && n in deps && V.WellTagged(v)
    ensures var cs := deps[n].req.comparators;
            VS.Contains(ConvertedCorrected(deps)[n], v) <==>
              && !S.BelowZero(v.semver)
              && (forall i :: 0 <= i < |cs| ==> VS.Contains(R.ConvertNormal(cs[i]), v))
              && (V.IsPrerelease(v) ==> exists i :: 0 <= i < |cs| && S.PreAdmits(cs[i], v.semver))
  {
    var cs := deps[n].req.comparators;
    V.AtLeastLowest(v);
    if V.IsPrerelease(v) {
      R.FromRequirementPrerelease(cs, v);
    } else {
      R.FromRequirementFinal(cs, v);
    }
  }
}
