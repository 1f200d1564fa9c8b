/** The first resolver generation (mqpkg/src/resolver.rs): comparators become
    pubgrub ranges over plain semantic versions, with errors for comparators
    the conversion cannot express, and a package's dependencies are merged
    into one range per dependency. */
module Resolver {
  import O = Orderings
  import opened Results
  import S = Semver
  import opened Ranges
  import C = Candidates
  import T = Types

  datatype ComparatorError = InvalidVersion | UnknownOperator | InvalidWildcard

  type Constraints = map<T.PackageName, Range<C.Candidate>>

  /** `Version::new(i, j, k)`. */
  function V3(major: nat, minor: nat, patch: nat): C.Candidate {
    C.FromParts(major, minor, patch)
  }

  /** `convert` as written. The pre-release of the comparator is not read. */
  function ConvertAsWritten(c: S.Comparator): Result<Range<C.Candidate>, ComparatorError> {
    var i := c.major;
    match c.op
    case Exact =>
      (match (c.minor, c.patch)
       case (Some(j), Some(k)) => Ok(Exact(V3(i, j, k), C.Bump))
       case (Some(j), None) => Ok(Between(V3(i, j, 0), V3(i, j + 1, 0)))
       case (None, None) => Ok(Between(V3(i, 0, 0), V3(i + 1, 0, 0)))
       case _ => Err(InvalidVersion))
    case Greater =>
      (match (c.minor, c.patch)
       case (Some(j), Some(k)) => Ok(HigherThan(V3(i, j, k + 1)))
       case (Some(j), None) => Ok(HigherThan(V3(i, j + 1, 0)))
       case (None, None) => Ok(HigherThan(V3(i + 1, 0, 0)))
       case _ => Err(InvalidVersion))
    case GreaterEq =>
      (match (c.minor, c.patch)
       case (Some(j), Some(k)) => Ok(HigherThan(V3(i, j, k)))
       case (Some(j), None) => Ok(HigherThan(V3(i, j, 0)))
       case (None, None) => Ok(HigherThan(V3(i, 0, 0)))
       case _ => Err(InvalidVersion))
    case Less =>
      (match (c.minor, c.patch)
       case (Some(j), Some(k)) => Ok(StrictlyLowerThan(C.Lowest(), V3(i, j, k)))
       case (Some(j), None) => Ok(StrictlyLowerThan(C.Lowest(), V3(i, j, 0)))
       case (None, None) => Ok(StrictlyLowerThan(C.Lowest(), V3(i, 0, 0)))
       case _ => Err(InvalidVersion))
    case LessEq =>
      (match (c.minor, c.patch)
       case (Some(j), Some(k)) => Ok(StrictlyLowerThan(C.Lowest(), V3(i, j, k + 1)))
       case (Some(j), None) => Ok(StrictlyLowerThan(C.Lowest(), V3(i, j + 1, 0)))
       case (None, None) => Ok(StrictlyLowerThan(C.Lowest(), V3(i + 1, 0, 0)))
       case _ => Err(InvalidVersion))
    case Tilde =>
      (match (c.minor, c.patch)
       case (Some(j), Some(k)) => Ok(Between(V3(i, j, k), V3(i, j + 1, 0)))
       case (Some(j), None) => Ok(Between(V3(i, j, 0), V3(i, j + 1, 0)))
       case (None, None) => Ok(Between(V3(i, 0, 0), V3(i + 1, 0, 0)))
       case _ => Err(InvalidVersion))
    case Caret =>
      (match (c.minor, c.patch)
       case (Some(j), Some(k)) =>
         if i > 0 then Ok(Between(V3(i, j, k), V3(i + 1, 0, 0)))
         else if j > 0 then Ok(Between(V3(0, j, k), V3(0, j + 1, 0)))
         else Ok(Exact(V3(0, 0, k), C.Bump))
       case (Some(j), None) =>
         if i > 0 || j > 0 then Ok(Between(V3(i, j, 0), V3(i + 1, 0, 0)))
         else Ok(Between(V3(i, j, 0), V3(i, j + 1, 0)))
       case (None, None) => Ok(Between(V3(i, 0, 0), V3(i + 1, 0, 0)))
       case _ => Err(InvalidVersion))
    case Wildcard =>
      (match (c.minor, c.patch)
       case (Some(_), Some(_)) => Err(InvalidWildcard)
       case (Some(j), None) => Ok(Between(V3(i, j, 0), V3(i, j + 1, 0)))
       case (None, None) => Ok(Between(V3(i, 0, 0), V3(i + 1, 0, 0)))
       case _ => Err(InvalidVersion))
    case Unlisted => Err(UnknownOperator)
  }

  /** `convert` with `^0.J` read as `^0.J.0`, i.e. `[0.J.0, 0.(J+1).0)`. */
  function Convert(c: S.Comparator): Result<Range<C.Candidate>, ComparatorError> {
    if C.IsCaretZeroMinor(c) then Ok(Between(V3(0, c.minor.value, 0), V3(0, c.minor.value + 1, 0)))
    else ConvertAsWritten(c)
  }

  /** The comparator with its pre-release dropped, which is what `convert`
      reads. */
  function Release(c: S.Comparator): S.Comparator {
    c.(pre := [])
  }

  /** `convert` succeeds exactly on the comparators the other generations
      accept, read without their pre-release, and then agrees with them. */
  lemma ConvertIsConvertNormal(c: S.Comparator)
    ensures Convert(c).Ok? <==> S.WellFormed(Release(c))
    ensures ConvertAsWritten(c).Ok? <==> S.WellFormed(Release(c))
    ensures Convert(c).Ok? ==> Convert(c).value == C.ConvertNormal(Release(c))
    ensures ConvertAsWritten(c).Ok? ==> ConvertAsWritten(c).value == C.ConvertNormalAsWritten(Release(c))
  {
  }

  /** A final version is in the range of a comparator exactly when the
      comparator, read without its pre-release, describes it. */
  lemma ConvertMeaning(c: S.Comparator, v: S.Version)
    requires Convert(c).Ok? && !S.IsPrerelease(v)
    ensures Contains(Convert(c).value, C.Candidate(v), C.Cmp) <==> S.MatchesFinal(Release(c), v)
  {
    ConvertIsConvertNormal(c);
    C.ConvertNormalMeaning(Release(c), v);
  }

  /** The three errors: an unknown operator, a wildcard with a patch, and a
      patch without a minor under any other operator. */
  lemma ConvertErrors(c: S.Comparator)
    ensures Convert(c) == Err(UnknownOperator) <==> c.op == S.Unlisted
    ensures Convert(c) == Err(InvalidWildcard) <==> c.op == S.Wildcard && c.minor.Some? && c.patch.Some?
    ensures Convert(c) == Err(InvalidVersion) <==> c.op != S.Unlisted && c.minor.None? && c.patch.Some?
  {
  }

  /** As written, `^0.2` admits 0.5.0; read as `^0.2.0` it does not. */
  lemma CaretZeroMinorAsWritten()
    ensures var c := S.Comparator(S.Caret, 0, Some(2), None, []);
            var v := C.FromParts(0, 5, 0);
            && Contains(ConvertAsWritten(c).value, v, C.Cmp)
            && !Contains(Convert(c).value, v, C.Cmp)
            && !Contains(Convert(S.Comparator(S.Caret, 0, Some(2), Some(0), [])).value, v, C.Cmp)
  {
  }

  // ---- merge and get_dependencies -----------------------------------------

  /** The range `merge` stores for `incoming` over an entry that may be absent. */
  function MergeInto(existing: Option<Range<C.Candidate>>, incoming: Range<C.Candidate>): (r: Range<C.Candidate>)
    ensures forall x :: Contains(r, x, C.Cmp) <==> Contains(incoming, x, C.Cmp) && (existing.Some? ==> Contains(existing.value, x, C.Cmp))
  {
    match existing
    case Some(other) => Intersection(incoming, other)
    case None => incoming
  }

  function Lookup(deps: Constraints, package: T.PackageName): Option<Range<C.Candidate>> {
    if package in deps then Some(deps[package]) else None
  }

  /** `merge`: the package's entry becomes `incoming`, intersected with the entry
      already there; every other entry is kept. */
  function Merge(deps: Constraints, package: T.PackageName, incoming: Range<C.Candidate>): (r: Constraints)
    ensures r.Keys == deps.Keys + {package}
    ensures forall x :: Contains(r[package], x, C.Cmp) <==> Contains(incoming, x, C.Cmp) && (package in deps ==> Contains(deps[package], x, C.Cmp))
    ensures forall p :: p in deps && p != package ==> r[p] == deps[p]
  {
    deps[package := MergeInto(Lookup(deps, package), incoming)]
  }

  /** Every comparator of `cs` converts. */
  predicate AllConvert(cs: seq<S.Comparator>, convert: S.Comparator -> Result<Range<C.Candidate>, ComparatorError>) {
    forall i :: 0 <= i < |cs| ==> convert(cs[i]).Ok?
  }

  /** The entry for one dependency after merging each of its comparators in
      turn into `start`. */
  function MergeAll(cs: seq<S.Comparator>, convert: S.Comparator -> Result<Range<C.Candidate>, ComparatorError>,
                    start: Option<Range<C.Candidate>>): (r: Option<Range<C.Candidate>>)
    requires AllConvert(cs, convert)
    ensures r.None? <==> |cs| == 0 && start.None?
    ensures r.Some? ==> forall x :: Contains(r.value, x, C.Cmp) <==>
                                    && (start.Some? ==> Contains(start.value, x, C.Cmp))
                                    && (forall i :: 0 <= i < |cs| ==> Contains(convert(cs[i]).value, x, C.Cmp))
  {
    if |cs| == 0 then start
    else
      var init := cs[..|cs| - 1];
      assert forall i :: 0 <= i < |init| ==> init[i] == cs[i];
      Some(MergeInto(MergeAll(init, convert, start), convert(cs[|cs| - 1]).value))
  }

  /** Every comparator of every requirement converts. */
  predicate AllRequirementsConvert(reqs: map<T.PackageName, S.VersionReq>, convert: S.Comparator -> Result<Range<C.Candidate>, ComparatorError>) {
    forall p :: p in reqs ==> AllConvert(reqs[p].comparators, convert)
  }

  /** The constraints for the packages in `done`: one range per requirement,
      for those whose merge produced an entry. */
  function Constrained(reqs: map<T.PackageName, S.VersionReq>, done: set<T.PackageName>,
                  convert: S.Comparator -> Result<Range<C.Candidate>, ComparatorError>,
                  start: Option<Range<C.Candidate>>): (r: Constraints)
    requires AllRequirementsConvert(reqs, convert)
    ensures forall p :: p in r <==> p in done && p in reqs && (|reqs[p].comparators| > 0 || start.Some?)
    ensures forall p, x :: p in r ==>
              (Contains(r[p], x, C.Cmp) <==>
                && (start.Some? ==> Contains(start.value, x, C.Cmp))
                && forall i :: 0 <= i < |reqs[p].comparators| ==> Contains(convert(reqs[p].comparators[i]).value, x, C.Cmp))
  {
    map p | p in done && p in reqs && MergeAll(reqs[p].comparators, convert, start).Some? :: MergeAll(reqs[p].comparators, convert, start).value
  }

  /** Adding one package to `done` adds its entry, if its merge made one. */
  lemma ConstrainedStep(reqs: map<T.PackageName, S.VersionReq>, done: set<T.PackageName>, dep: T.PackageName,
                        convert: S.Comparator -> Result<Range<C.Candidate>, ComparatorError>,
                        start: Option<Range<C.Candidate>>)
    requires AllRequirementsConvert(reqs, convert)
    requires dep in reqs && dep !in done
    ensures var m := MergeAll(reqs[dep].comparators, convert, start);
            Constrained(reqs, done + {dep}, convert, start) ==
              if m.Some? then Constrained(reqs, done, convert, start)[dep := m.value] else Constrained(reqs, done, convert, start)
  {
  }

  /** The inner loop of `get_dependencies`: merges each comparator of one
      requirement into the package's entry. */
  method MergeRequirement(deps: Constraints, dep: T.PackageName, cs: seq<S.Comparator>) returns (merged: Constraints)
    requires dep !in deps && AllConvert(cs, ConvertAsWritten)
    ensures merged == if |cs| == 0 then deps else deps[dep := MergeAll(cs, ConvertAsWritten, None).value]
  {
    merged := deps;
    var i := 0;
    while i < |cs|
      invariant 0 <= i <= |cs|
      invariant merged == if i == 0 then deps else deps[dep := MergeAll(cs[..i], ConvertAsWritten, None).value]
    {
      assert cs[..i + 1][..i] == cs[..i];
      var incoming := ConvertAsWritten(cs[i]).value;
      merged := Merge(merged, dep, incoming);
      i := i + 1;
    }
    assert cs[..|cs|] == cs;
  }

  /** `Solver::get_dependencies`, with the repository's requirement map for
      the package passed in. Every comparator must convert: the source panics
      otherwise. */
  method GetDependencies(reqs: map<T.PackageName, S.VersionReq>) returns (deps: Constraints)
    requires AllRequirementsConvert(reqs, ConvertAsWritten)
    ensures deps == Constrained(reqs, reqs.Keys, ConvertAsWritten, None)
  {
    deps := map[];
    var remaining := reqs.Keys;
    while remaining != {}
      invariant remaining <= reqs.Keys
      invariant deps == Constrained(reqs, reqs.Keys - remaining, ConvertAsWritten, None)
      decreases |remaining|
    {
      var dep :| dep in remaining;
      ghost var done := reqs.Keys - remaining;
      deps := MergeRequirement(deps, dep, reqs[dep].comparators);
      ConstrainedStep(reqs, done, dep, ConvertAsWritten, None);
      remaining := remaining - {dep};
      assert reqs.Keys - remaining == done + {dep};
    }
  }

  /** The dependencies with a requirement of `*` kept as the full range
      (`Range::any()`), and with the corrected conversion. */
  function DependenciesCorrected(reqs: map<T.PackageName, S.VersionReq>): (r: Constraints)
    requires AllRequirementsConvert(reqs, Convert)
    ensures r.Keys == reqs.Keys
    ensures forall p, x :: p in r ==>
              (Contains(r[p], x, C.Cmp) <==>
                 && !S.BelowZero(x.version)
                 && forall i :: 0 <= i < |reqs[p].comparators| ==> Contains(Convert(reqs[p].comparators[i]).value, x, C.Cmp))
  {
    var r := Constrained(reqs, reqs.Keys, Convert, Some(Any(C.Lowest())));
    forall x: C.Candidate ensures Contains(Any(C.Lowest()), x, C.Cmp) <==> !S.BelowZero(x.version) {
      C.AtLeastLowest(x);
    }
    r
  }

  /** As written, a requirement with no comparators — `*` — leaves no entry,
      so the dependency is dropped; the corrected map keeps it with every
      version at or above 0.0.0 allowed. */
  lemma StarDependencyDropped(p: T.PackageName, x: C.Candidate)
    ensures var reqs := map[p := S.VersionReq([])];
            && Constrained(reqs, reqs.Keys, ConvertAsWritten, None) == map[]
            && p in DependenciesCorrected(reqs)
            && (Contains(DependenciesCorrected(reqs)[p], x, C.Cmp) <==> !S.BelowZero(x.version))
  {
    var reqs := map[p := S.VersionReq([])];
    var r := Constrained(reqs, reqs.Keys, ConvertAsWritten, None);
    assert r.Keys == {};
  }
}
