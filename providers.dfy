/** The repository-backed dependency provider
    (mqpkg/src/resolver/pubgrub/providers/repository.rs). It holds the same
    state as the solver's internal provider and lists versions the same way
    (`Solver.ListVersions`); it differs in asking the candidate for
    dependencies that may be unknown. */
module Providers {
  import opened Results
  import N = Names
  import R = Requirements
  import RC = ResolverCandidates
  import Sv = Solver

  /** Every requirement a candidate carries, when it carries any, is made of
      comparators the `semver` crate builds. */
  predicate WellFormedCandidate(c: RC.Candidate) {
    c.dependencies.Some? ==> Sv.WellFormedRequirements(c.dependencies.value)
  }

  /** `RepositoryProvider::get_dependencies`: `Unknown` when the candidate
      cannot tell its dependencies, otherwise `Known` with each requirement
      converted under its own name. */
  method GetDependencies(candidate: RC.Candidate) returns (r: Sv.PDependencies)
    requires WellFormedCandidate(candidate)
    ensures candidate.dependencies.None? <==> r.Unknown?
    ensures candidate.dependencies.Some? ==> r == Sv.Known(Sv.Converted(candidate.dependencies.value))
  {
    match candidate.dependencies {
      case None =>
        r := Sv.Unknown;
      case Some(deps) =>
        var result := Sv.ConvertAll(deps, Sv.SetOf);
        r := Sv.Known(result);
    }
  }

  /** Known dependencies name exactly the candidate's dependencies, and each
      set is that requirement's, converted as written. */
  lemma KnownKeepsNames(candidate: RC.Candidate, n: N.Name)
    requires WellFormedCandidate(candidate) && candidate.dependencies.Some?
    ensures var k := Sv.Converted(candidate.dependencies.value);
            (n in k <==> n in candidate.dependencies.value)
            && (n in k ==> k[n] == R.FromRequirementAsWritten(candidate.dependencies.value[n].req.comparators))
  {
  }

  /** `version_str`: the text in parentheses after a space when it is to be
      shown, nothing otherwise. */
  function VersionStr(text: string, shouldDisplay: bool): (r: string)
    ensures !shouldDisplay <==> r == ""
    ensures shouldDisplay ==> |r| == |text| + 3 && r[..2] == " (" && r[2..|r| - 1] == text && r[|r| - 1] == ')'
  {
    if shouldDisplay then " (" + text + ")" else ""
  }
}
