/** Requirements as version sets over stamped versions
    (mqpkg/src/resolver/types/requirement.rs; mqpkg/src/resolver/semver.rs
    holds a character-for-character copy of the conversion functions). The
    bounds are built with `Version::candidate`, so the case analysis is the
    one of mqpkg/src/resolver/candidates.rs with every bound stamped
    (`u64::MAX`, 0); the fold into a set differs. */
module Requirements {
  import O = Orderings
  import opened Results
  import S = Semver
  import R = Ranges
  import V = Versions
  import opened VersionSets
  import C = Candidates

  /** `Requirement`: the crate's `VersionReq`, wrapped. */
  datatype Requirement = Requirement(req: S.VersionReq)

  /** `Version::candidate(i, j, k)`. */
  function Bound(major: nat, minor: nat, patch: nat): V.Version {
    V.Candidate(major, minor, patch)
  }

  /** `Version::candidate(i, j, k).pre(p)`. */
  function BoundPre(major: nat, minor: nat, patch: nat, pre: seq<S.Identifier>): V.Version {
    V.Pre(V.Candidate(major, minor, patch), pre)
  }

  /** `convert_prerelease`: the empty set without a pre-release, otherwise
      `[I.J.K-P, I.J.K)` on both tracks. */
  function ConvertPrerelease(c: S.Comparator): VersionSet
    requires S.WellFormed(c)
  {
    if c.pre == [] then Empty()
    else BetweenSet(BoundPre(c.major, c.minor.value, c.patch.value, c.pre), Bound(c.major, c.minor.value, c.patch.value))
  }

  /** `convert_normal` exactly as written, arm by arm. */
  function ConvertNormalAsWritten(c: S.Comparator): VersionSet
    requires S.WellFormed(c)
  {
    var i := c.major;
    match c.op
    case Exact =>
      if c.minor.None? then BetweenSet(Bound(i, 0, 0), Bound(i + 1, 0, 0))
      else if c.patch.None? then BetweenSet(Bound(i, c.minor.value, 0), Bound(i, c.minor.value + 1, 0))
      else if c.pre != [] then
        BetweenSet(BoundPre(i, c.minor.value, c.patch.value, c.pre), Bound(i, c.minor.value, c.patch.value))
      else ExactSet(Bound(i, c.minor.value, c.patch.value))
    case Greater =>
      if c.minor.None? then HigherThanSet(Bound(i + 1, 0, 0))
      else if c.patch.None? then HigherThanSet(Bound(i, c.minor.value + 1, 0))
      else if c.pre != [] then HigherThanSet(BoundPre(i, c.minor.value, c.patch.value, S.BumpPre(c.pre)))
      else HigherThanSet(Bound(i, c.minor.value, c.patch.value + 1))
    case GreaterEq =>
      if c.minor.None? then HigherThanSet(Bound(i, 0, 0))
      else if c.patch.None? then HigherThanSet(Bound(i, c.minor.value, 0))
      else if c.pre != [] then HigherThanSet(BoundPre(i, c.minor.value, c.patch.value, c.pre))
      else HigherThanSet(Bound(i, c.minor.value, c.patch.value))
    case Less =>
      if c.minor.None? then StrictlyLowerThanSet(Bound(i, 0, 0))
      else if c.patch.None? then StrictlyLowerThanSet(Bound(i, c.minor.value, 0))
      else if c.pre != [] then StrictlyLowerThanSet(BoundPre(i, c.minor.value, c.patch.value, c.pre))
      else StrictlyLowerThanSet(Bound(i, c.minor.value, c.patch.value))
    case LessEq =>
      if c.minor.None? then StrictlyLowerThanSet(Bound(i + 1, 0, 0))
      else if c.patch.None? then StrictlyLowerThanSet(Bound(i, c.minor.value + 1, 0))
      else if c.pre != [] then StrictlyLowerThanSet(BoundPre(i, c.minor.value, c.patch.value, S.BumpPre(c.pre)))
      else StrictlyLowerThanSet(Bound(i, c.minor.value, c.patch.value + 1))
    case Tilde =>
      if c.minor.None? then BetweenSet(Bound(i, 0, 0), Bound(i + 1, 0, 0))
      else if c.patch.None? then BetweenSet(Bound(i, c.minor.value, 0), Bound(i, c.minor.value + 1, 0))
      else if c.pre != [] then
        BetweenSet(BoundPre(i, c.minor.value, c.patch.value, c.pre), Bound(i, c.minor.value + 1, 0))
      else BetweenSet(Bound(i, c.minor.value, c.patch.value), Bound(i, c.minor.value + 1, 0))
    case Caret =>
      if c.minor.None? then BetweenSet(Bound(i, 0, 0), Bound(i + 1, 0, 0))
      else
        var j := c.minor.value;
        if c.patch.None? then
          if i > 0 || j > 0 then BetweenSet(Bound(i, j, 0), Bound(i + 1, 0, 0))
          else BetweenSet(Bound(i, j, 0), Bound(i, j + 1, 0))
        else
          var k := c.patch.value;
          if c.pre != [] then
            if i > 0 then BetweenSet(BoundPre(i, j, k, c.pre), Bound(i + 1, 0, 0))
            else if j > 0 then BetweenSet(BoundPre(0, j, k, c.pre), Bound(0, j + 1, 0))
            else BetweenSet(BoundPre(i, j, k, c.pre), Bound(i, j, k))
          else
            if i > 0 then BetweenSet(Bound(i, j, k), Bound(i + 1, 0, 0))
            else if j > 0 then BetweenSet(Bound(0, j, k), Bound(0, j + 1, 0))
            else ExactSet(Bound(0, 0, k))
    case Wildcard =>
      if c.minor.None? then BetweenSet(Bound(i, 0, 0), Bound(i + 1, 0, 0))
      else BetweenSet(Bound(i, c.minor.value, 0), Bound(i, c.minor.value + 1, 0))
  }

  /** `convert_normal` with `^0.J` read as `^0.J.0`, i.e. `[0.J.0, 0.(J+1).0)`. */
  function ConvertNormal(c: S.Comparator): VersionSet
    requires S.WellFormed(c)
  {
    if C.IsCaretZeroMinor(c) then BetweenSet(Bound(0, c.minor.value, 0), Bound(0, c.minor.value + 1, 0))
    else ConvertNormalAsWritten(c)
  }

  // ---- Relation to the unstamped generation --------------------------------

  /** Stamps a candidates.rs bound as `Version::candidate` does. */
  function Tag(c: C.Candidate): V.Version {
    V.Version(c.version, V.U64_MAX, 0, false)
  }

  /** Stamping commutes with `lowest()` and `bump()`. */
  lemma TagLowestBump(c: C.Candidate)
    ensures Tag(C.Lowest()) == V.Lowest()
    ensures Tag(C.Bump(c)) == V.Bump(Tag(c))
  {
  }

  /** The stamped conversions are the unstamped ones with every bound stamped. */
  lemma ConvertIsTagged(c: S.Comparator)
    requires S.WellFormed(c)
    ensures ConvertNormalAsWritten(c) == Both(R.Map(C.ConvertNormalAsWritten(c), Tag))
    ensures ConvertNormal(c) == Both(R.Map(C.ConvertNormal(c), Tag))
    ensures ConvertPrerelease(c) == (if c.pre == [] then Empty() else Both(R.Map(C.ConvertPrerelease(c), Tag)))
  {
  }

  /** Every normal conversion sets both tracks to the same range. */
  lemma ConvertNormalIsBoth(c: S.Comparator)
    requires S.WellFormed(c)
    ensures ConvertNormal(c).pre == ConvertNormal(c).range
    ensures ConvertNormalAsWritten(c).pre == ConvertNormalAsWritten(c).range
  {
    ConvertIsTagged(c);
  }

  /** For a well-tagged version, membership in a stamped range is
      membership of its semantic version in the unstamped range. */
  lemma TaggedContains(r: R.Range<C.Candidate>, v: V.Version)
    requires V.WellTagged(v)
    ensures InRange(R.Map(r, Tag), v) <==> R.Contains(r, C.Candidate(v.semver), C.Cmp)
  {
    forall b: C.Candidate
      ensures (V.Cmp(v, Tag(b)) == O.Less) == (C.Cmp(C.Candidate(v.semver), b) == O.Less)
    {
      V.CmpCandidateBound(v, b.version);
    }
    R.MapContains(r, Tag, C.Candidate(v.semver), C.Cmp, v, V.Cmp);
  }

  // ---- Meaning of the conversion ----------------------------------------

  /** A well-tagged final version is in a comparator's set exactly when the
      operator describes it, whatever source it comes from: `=I.J.K` holds
      every source's I.J.K. */
  lemma ConvertNormalMeaning(c: S.Comparator, v: V.Version)
    requires S.WellFormed(c) && V.WellTagged(v) && !V.IsPrerelease(v)
    ensures Contains(ConvertNormal(c), v) <==> S.MatchesFinal(c, v.semver)
  {
    ConvertIsTagged(c);
    TaggedContains(C.ConvertNormal(c), v);
    C.ConvertNormalMeaning(c, v.semver);
  }

  /** A well-tagged version is in `convert_prerelease`'s set exactly when it
      is a pre-release of the named `I.J.K` at or above `P`. */
  lemma ConvertPrereleaseMeaning(c: S.Comparator, v: V.Version)
    requires S.WellFormed(c) && V.WellTagged(v)
    ensures Contains(ConvertPrerelease(c), v) <==> S.PreAdmits(c, v.semver)
  {
    ConvertIsTagged(c);
    if c.pre != [] {
      TaggedContains(C.ConvertPrerelease(c), v);
      C.ConvertPrereleaseMeaning(c, v.semver);
    }
  }

  /** `>I.J.K-P` becomes `>=I.J.K-P.0`, and `<=I.J.K-P` becomes `<I.J.K-P.0`:
      the bumped bound is the successor of `I.J.K-P`, so the sets are those of
      `>` and `<=` by precedence (the latter above `lowest()`). */
  lemma BumpedPrereleaseBounds(c: S.Comparator, v: V.Version)
    requires S.WellFormed(c) && c.pre != [] && V.WellTagged(v)
    requires c.op == S.Greater || c.op == S.LessEq
    ensures c.op == S.Greater ==> (Contains(ConvertNormal(c), v) <==> S.Compare(v.semver, S.Named(c)) == O.Greater)
    ensures c.op == S.LessEq ==> (Contains(ConvertNormal(c), v) <==> !S.BelowZero(v.semver) && S.Compare(v.semver, S.Named(c)) != O.Greater)
  {
    V.AtLeastLowest(v);
    var bumped := S.Named(c).(pre := S.BumpPre(c.pre));
    V.CmpCandidateBound(v, bumped);
    S.BumpPreVersionIsSuccessor(S.Named(c), v.semver);
    S.CompareLaws(v.semver, S.Named(c));
    S.CompareLaws(v.semver, bumped);
  }

  // ---- From<&Requirement> for VersionSet ---------------------------------

  /** One turn of the loop: `with_normal(normal)` then `with_pre(pre)`. */
  function Step(s: VersionSet, normal: VersionSet, pre: VersionSet): VersionSet {
    WithPre(WithNormal(s, normal), pre)
  }

  /** The loop from `default()` over each comparator's pair of sets. */
  function FoldSteps(steps: seq<(VersionSet, VersionSet)>): VersionSet {
    if |steps| == 0 then Default()
    else Step(FoldSteps(steps[..|steps| - 1]), steps[|steps| - 1].0, steps[|steps| - 1].1)
  }

  /** The range track of the loop is `any()` intersected with the normal
      sets. */
  lemma {:induction false} FoldStepsRange(steps: seq<(VersionSet, VersionSet)>, v: V.Version)
    ensures InRange(FoldSteps(steps).range, v) <==>
              V.Cmp(v, Lowest()) != O.Less && forall i :: 0 <= i < |steps| ==> InRange(steps[i].0.range, v)
  {
    if |steps| > 0 {
      var init := steps[..|steps| - 1];
      FoldStepsRange(init, v);
      assert forall i :: 0 <= i < |init| ==> init[i] == steps[i];
    }
  }

  /** The pre-release track of the loop is the union of the pre-release
      sets, above `lowest()`. */
  lemma {:induction false} FoldStepsPre(steps: seq<(VersionSet, VersionSet)>, v: V.Version)
    ensures InRange(FoldSteps(steps).pre, v) <==>
              V.Cmp(v, Lowest()) != O.Less && exists i :: 0 <= i < |steps| && InRange(steps[i].1.pre, v)
  {
    if |steps| > 0 {
      var init := steps[..|steps| - 1];
      FoldStepsPre(init, v);
      assert forall i :: 0 <= i < |init| ==> init[i] == steps[i];
    }
  }

  /** Each comparator's pair of sets, converted as written. */
  function StepsAsWritten(cs: seq<S.Comparator>): (steps: seq<(VersionSet, VersionSet)>)
    requires S.WellFormedReq(cs)
    ensures |steps| == |cs|
    // exposes the elements to the fold lemmas, which cannot see into the comprehension
    ensures forall i :: 0 <= i < |cs| ==> steps[i] == (ConvertNormalAsWritten(cs[i]), ConvertPrerelease(cs[i]))
  {
    seq(|cs|, i requires 0 <= i < |cs| && S.WellFormed(cs[i]) => (ConvertNormalAsWritten(cs[i]), ConvertPrerelease(cs[i])))
  }

  /** Each comparator's pair of sets, with the corrected normal conversion. */
  function Steps(cs: seq<S.Comparator>): (steps: seq<(VersionSet, VersionSet)>)
    requires S.WellFormedReq(cs)
    ensures |steps| == |cs|
    // exposes the elements to the fold lemmas, which cannot see into the comprehension
    ensures forall i :: 0 <= i < |cs| ==> steps[i] == (ConvertNormal(cs[i]), ConvertPrerelease(cs[i]))
  {
    seq(|cs|, i requires 0 <= i < |cs| && S.WellFormed(cs[i]) => (ConvertNormal(cs[i]), ConvertPrerelease(cs[i])))
  }

  /** The loop as written: from `default()`, `with_normal(convert_normal)` then
      `with_pre(convert_prerelease)` for each comparator, and no final
      intersection (it is commented out in semver.rs). */
  function FromRequirementAsWritten(cs: seq<S.Comparator>): VersionSet
    requires S.WellFormedReq(cs)
  {
    FoldSteps(StepsAsWritten(cs))
  }

  /** The set of a requirement, with `pre = range ∩ pre` applied after the
      loop as candidates.rs does, so that a pre-release must also satisfy
      every comparator. */
  function FromRequirement(cs: seq<S.Comparator>): (s: VersionSet)
    requires S.WellFormedReq(cs)
    ensures forall v :: InRange(s.pre, v) ==> InRange(s.range, v)
  {
    var f := FoldSteps(Steps(cs));
    VersionSet(f.range, R.Intersection(f.range, f.pre))
  }

  lemma FoldRange(cs: seq<S.Comparator>, v: V.Version)
    requires S.WellFormedReq(cs)
    ensures InRange(FromRequirement(cs).range, v) <==>
              V.Cmp(v, Lowest()) != O.Less && forall i :: 0 <= i < |cs| ==> InRange(ConvertNormal(cs[i]).range, v)
  {
    FoldStepsRange(Steps(cs), v);
  }

  lemma FoldPre(cs: seq<S.Comparator>, v: V.Version)
    requires S.WellFormedReq(cs)
    ensures InRange(FoldSteps(Steps(cs)).pre, v) <==>
              V.Cmp(v, Lowest()) != O.Less && exists i :: 0 <= i < |cs| && InRange(ConvertPrerelease(cs[i]).pre, v)
  {
    FoldStepsPre(Steps(cs), v);
  }

  lemma FoldAsWrittenPre(cs: seq<S.Comparator>, v: V.Version)
    requires S.WellFormedReq(cs)
    ensures InRange(FromRequirementAsWritten(cs).pre, v) <==>
              V.Cmp(v, Lowest()) != O.Less && exists i :: 0 <= i < |cs| && InRange(ConvertPrerelease(cs[i]).pre, v)
  {
    FoldStepsPre(StepsAsWritten(cs), v);
  }

  /** A final version is in a requirement's set exactly when it is at or
      above `lowest()` and in every comparator's set. */
  lemma FromRequirementFinal(cs: seq<S.Comparator>, v: V.Version)
    requires S.WellFormedReq(cs) && !V.IsPrerelease(v)
    ensures Contains(FromRequirement(cs), v) <==>
              V.Cmp(v, Lowest()) != O.Less && forall i :: 0 <= i < |cs| ==> Contains(ConvertNormal(cs[i]), v)
  {
    FoldRange(cs, v);
  }

  /** A well-tagged final version is in the set exactly when every
      comparator's operator describes it. */
  lemma FromRequirementFinalMeaning(cs: seq<S.Comparator>, v: V.Version)
    requires S.WellFormedReq(cs) && !V.IsPrerelease(v) && V.WellTagged(v)
    ensures Contains(FromRequirement(cs), v) <==> forall i :: 0 <= i < |cs| ==> S.MatchesFinal(cs[i], v.semver)
  {
    FromRequirementFinal(cs, v);
    V.AtLeastLowest(v);
    forall i | 0 <= i < |cs|
      ensures Contains(ConvertNormal(cs[i]), v) == S.MatchesFinal(cs[i], v.semver)
    {
      ConvertNormalMeaning(cs[i], v);
    }
  }

  /** A well-tagged pre-release is in a requirement's set exactly when it is
      not a pre-release of 0.0.0, is in every comparator's set, and some
      comparator names a pre-release of the same `I.J.K` at or below it. */
  lemma FromRequirementPrerelease(cs: seq<S.Comparator>, v: V.Version)
    requires S.WellFormedReq(cs) && V.IsPrerelease(v) && V.WellTagged(v)
    ensures Contains(FromRequirement(cs), v) <==>
              && !S.BelowZero(v.semver)
              && (forall i :: 0 <= i < |cs| ==> Contains(ConvertNormal(cs[i]), v))
              && (exists i :: 0 <= i < |cs| && S.PreAdmits(cs[i], v.semver))
  {
    var f := FoldSteps(Steps(cs));
    assert Contains(FromRequirement(cs), v) <==> InRange(f.range, v) && InRange(f.pre, v);
    FoldRange(cs, v);
    FoldPre(cs, v);
    V.AtLeastLowest(v);
    forall i | 0 <= i < |cs|
      ensures Contains(ConvertNormal(cs[i]), v) == InRange(ConvertNormal(cs[i]).range, v)
      ensures InRange(ConvertPrerelease(cs[i]).pre, v) == S.PreAdmits(cs[i], v.semver)
    {
      ConvertNormalIsBoth(cs[i]);
      ConvertPrereleaseMeaning(cs[i], v);
    }
  }

  /** As written, a well-tagged final version is in the set exactly when it
      is in every comparator's set. */
  lemma FromRequirementAsWrittenFinal(cs: seq<S.Comparator>, v: V.Version)
    requires S.WellFormedReq(cs) && !V.IsPrerelease(v) && V.WellTagged(v)
    ensures Contains(FromRequirementAsWritten(cs), v) <==> forall i :: 0 <= i < |cs| ==> Contains(ConvertNormalAsWritten(cs[i]), v)
  {
    FoldStepsRange(StepsAsWritten(cs), v);
    V.AtLeastLowest(v);
  }

  /** As written, a pre-release needs only to be named by some comparator
      (and not be a pre-release of 0.0.0); the other comparators are not
      consulted. */
  lemma FromRequirementAsWrittenPrerelease(cs: seq<S.Comparator>, v: V.Version)
    requires S.WellFormedReq(cs) && V.IsPrerelease(v) && V.WellTagged(v)
    ensures Contains(FromRequirementAsWritten(cs), v) <==>
              !S.BelowZero(v.semver) && exists i :: 0 <= i < |cs| && S.PreAdmits(cs[i], v.semver)
  {
    FoldAsWrittenPre(cs, v);
    V.AtLeastLowest(v);
    forall i | 0 <= i < |cs|
      ensures InRange(ConvertPrerelease(cs[i]).pre, v) == S.PreAdmits(cs[i], v.semver)
    {
      ConvertPrereleaseMeaning(cs[i], v);
    }
  }

  /** A requirement none of whose comparators names a pre-release holds no
      pre-release, both as written and corrected. */
  lemma NoPrereleaseWithoutPrereleaseComparator(cs: seq<S.Comparator>, v: V.Version)
    requires S.WellFormedReq(cs) && V.IsPrerelease(v)
    requires forall i :: 0 <= i < |cs| ==> cs[i].pre == []
    ensures !Contains(FromRequirementAsWritten(cs), v)
    ensures !Contains(FromRequirement(cs), v)
  {
    FoldPre(cs, v);
    FoldAsWrittenPre(cs, v);
  }

  /** As written, `<1.0.0-beta` admits 1.0.0-rc, which lies above its bound;
      with the intersection the set excludes it. */
  lemma PrereleaseTrackAsWritten()
    ensures var c := S.Comparator(S.Less, 1, Some(0), Some(0), [S.AlphaNumeric("beta")]);
            var v := V.Version(S.Version(1, 0, 0, [S.AlphaNumeric("rc")]), 0, 0, false);
            && Contains(FromRequirementAsWritten([c]), v)
            && !Contains(ConvertNormalAsWritten(c), v)
            && !Contains(FromRequirement([c]), v)
  {
    var c := S.Comparator(S.Less, 1, Some(0), Some(0), [S.AlphaNumeric("beta")]);
    var v := V.Version(S.Version(1, 0, 0, [S.AlphaNumeric("rc")]), 0, 0, false);
    assert [c][..0] == [];
    assert O.CompareString("rc", "beta") == O.Greater;
  }
}
