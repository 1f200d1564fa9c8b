/** The resolver's first pubgrub adapter (mqpkg/src/resolver/candidates.rs):
    a `Candidate` is a bare semantic version, a `CandidateSet` keeps one
    range for final versions and one for pre-releases, and a requirement is
    folded into such a set comparator by comparator. */
module Candidates {
  import O = Orderings
  import opened Results
  import S = Semver
  import opened Ranges

  /** A candidate wraps a `semver::Version` and is ordered by its precedence. */
  datatype Candidate = Candidate(version: S.Version)

  function FromParts(major: nat, minor: nat, patch: nat): Candidate {
    Candidate(S.Version(major, minor, patch, []))
  }

  function FromPartsPre(major: nat, minor: nat, patch: nat, pre: seq<S.Identifier>): Candidate {
    Candidate(S.Version(major, minor, patch, pre))
  }

  predicate IsPrerelease(c: Candidate) {
    S.IsPrerelease(c.version)
  }

  /** `Ord for Candidate`: the precedence of the wrapped versions. */
  function Cmp(a: Candidate, b: Candidate): O.Ordering {
    S.Compare(a.version, b.version)
  }

  /** `PVersion::lowest`: 0.0.0. */
  function Lowest(): Candidate {
    FromParts(0, 0, 0)
  }

  /** `PVersion::bump`: the next patch release, pre-release dropped. */
  function Bump(c: Candidate): Candidate {
    FromParts(c.version.major, c.version.minor, c.version.patch + 1)
  }

  /** Candidate order is a total order whose Equal is equality. */
  lemma CmpLaws(a: Candidate, b: Candidate)
    ensures Cmp(a, b) == O.Equal <==> a == b
    ensures Cmp(b, a) == Cmp(a, b).Reverse()
  {
    S.CompareLaws(a.version, b.version);
  }

  /** 0.0.0 is at or below every final version. */
  lemma LowestIsLowestFinal(c: Candidate)
    requires !IsPrerelease(c)
    ensures Cmp(Lowest(), c) != O.Greater
  {
  }

  /** `bump` moves strictly up, to the next final version: no final version
      lies strictly between a final candidate and its bump. */
  lemma BumpIsNextFinal(c: Candidate, d: Candidate)
    ensures Cmp(c, Bump(c)) == O.Less
    ensures !IsPrerelease(c) && !IsPrerelease(d) && Cmp(c, d) == O.Less ==> Cmp(Bump(c), d) != O.Greater
  {
  }

  // ---- Comparator conversion ---------------------------------------------

  /** `convert_prerelease`: nothing for a comparator without a pre-release,
      and `[I.J.K-P, I.J.K)` for one that names `I.J.K-P`. */
  function ConvertPrerelease(c: S.Comparator): Range<Candidate>
    requires S.WellFormed(c)
  {
    if c.pre == [] then Empty
    else
      var j, k := c.minor.value, c.patch.value;
      Between(FromPartsPre(c.major, j, k, c.pre), FromParts(c.major, j, k))
  }

  /** `convert_normal` exactly as written in candidates.rs, arm by arm. */
  function ConvertNormalAsWritten(c: S.Comparator): Range<Candidate>
    requires S.WellFormed(c)
  {
    var i := c.major;
    match c.op
    case Exact =>
      if c.minor.None? then Between(FromParts(i, 0, 0), FromParts(i + 1, 0, 0))
      else if c.patch.None? then Between(FromParts(i, c.minor.value, 0), FromParts(i, c.minor.value + 1, 0))
      else if c.pre != [] then
        Between(FromPartsPre(i, c.minor.value, c.patch.value, c.pre), FromParts(i, c.minor.value, c.patch.value))
      else Exact(FromParts(i, c.minor.value, c.patch.value), Bump)
    case Greater =>
      if c.minor.None? then HigherThan(FromParts(i + 1, 0, 0))
      else if c.patch.None? then HigherThan(FromParts(i, c.minor.value + 1, 0))
      else if c.pre != [] then HigherThan(FromPartsPre(i, c.minor.value, c.patch.value, S.BumpPre(c.pre)))
      else HigherThan(FromParts(i, c.minor.value, c.patch.value + 1))
    case GreaterEq =>
      if c.minor.None? then HigherThan(FromParts(i, 0, 0))
      else if c.patch.None? then HigherThan(FromParts(i, c.minor.value, 0))
      else if c.pre != [] then HigherThan(FromPartsPre(i, c.minor.value, c.patch.value, c.pre))
      else HigherThan(FromParts(i, c.minor.value, c.patch.value))
    case Less =>
      if c.minor.None? then StrictlyLowerThan(Lowest(), FromParts(i, 0, 0))
      else if c.patch.None? then StrictlyLowerThan(Lowest(), FromParts(i, c.minor.value, 0))
      else if c.pre != [] then StrictlyLowerThan(Lowest(), FromPartsPre(i, c.minor.value, c.patch.value, c.pre))
      else StrictlyLowerThan(Lowest(), FromParts(i, c.minor.value, c.patch.value))
    case LessEq =>
      if c.minor.None? then StrictlyLowerThan(Lowest(), FromParts(i + 1, 0, 0))
      else if c.patch.None? then StrictlyLowerThan(Lowest(), FromParts(i, c.minor.value + 1, 0))
      else if c.pre != [] then StrictlyLowerThan(Lowest(), FromPartsPre(i, c.minor.value, c.patch.value, S.BumpPre(c.pre)))
      else StrictlyLowerThan(Lowest(), FromParts(i, c.minor.value, c.patch.value + 1))
    case Tilde =>
      if c.minor.None? then Between(FromParts(i, 0, 0), FromParts(i + 1, 0, 0))
      else if c.patch.None? then Between(FromParts(i, c.minor.value, 0), FromParts(i, c.minor.value + 1, 0))
      else if c.pre != [] then
        Between(FromPartsPre(i, c.minor.value, c.patch.value, c.pre), FromParts(i, c.minor.value + 1, 0))
      else Between(FromParts(i, c.minor.value, c.patch.value), FromParts(i, c.minor.value + 1, 0))
    case Caret =>
      if c.minor.None? then Between(FromParts(i, 0, 0), FromParts(i + 1, 0, 0))
      else
        var j := c.minor.value;
        if c.patch.None? then
          if i > 0 || j > 0 then Between(FromParts(i, j, 0), FromParts(i + 1, 0, 0))
          else Between(FromParts(i, j, 0), FromParts(i, j + 1, 0))
        else
          var k := c.patch.value;
          if c.pre != [] then
            if i > 0 then Between(FromPartsPre(i, j, k, c.pre), FromParts(i + 1, 0, 0))
            else if j > 0 then Between(FromPartsPre(0, j, k, c.pre), FromParts(0, j + 1, 0))
            else Between(FromPartsPre(i, j, k, c.pre), FromParts(i, j, k))
          else
            if i > 0 then Between(FromParts(i, j, k), FromParts(i + 1, 0, 0))
            else if j > 0 then Between(FromParts(0, j, k), FromParts(0, j + 1, 0))
            else Exact(FromParts(0, 0, k), Bump)
    case Wildcard =>
      if c.minor.None? then Between(FromParts(i, 0, 0), FromParts(i + 1, 0, 0))
      else Between(FromParts(i, c.minor.value, 0), FromParts(i, c.minor.value + 1, 0))
  }

  /** `^0.J` with J > 0 and no patch: the arm that the as-written code sends
      to `[0.J.0, 1.0.0)` although its own comment says `^I.J.0`. */
  predicate IsCaretZeroMinor(c: S.Comparator) {
    c.op == S.Caret && c.major == 0 && c.minor.Some? && c.minor.value > 0 && c.patch.None?
  }

  /** `convert_normal` with `^0.J` read as `^0.J.0`, i.e. `[0.J.0, 0.(J+1).0)`. */
  function ConvertNormal(c: S.Comparator): Range<Candidate>
    requires S.WellFormed(c)
  {
    if IsCaretZeroMinor(c) then Between(FromParts(0, c.minor.value, 0), FromParts(0, c.minor.value + 1, 0))
    else ConvertNormalAsWritten(c)
  }

  // ---- Meaning of the conversion on final versions ------------------------

  lemma ConvertExactMeaning(c: S.Comparator, v: S.Version)
    requires S.WellFormed(c) && c.op == S.Exact && !S.IsPrerelease(v)
    ensures Contains(ConvertNormal(c), Candidate(v), Cmp) <==> S.MatchesFinal(c, v)
  {
  }

  lemma ConvertGreaterMeaning(c: S.Comparator, v: S.Version)
    requires S.WellFormed(c) && (c.op == S.Greater || c.op == S.GreaterEq) && !S.IsPrerelease(v)
    ensures Contains(ConvertNormal(c), Candidate(v), Cmp) <==> S.MatchesFinal(c, v)
  {
  }

  lemma ConvertLessMeaning(c: S.Comparator, v: S.Version)
    requires S.WellFormed(c) && (c.op == S.Less || c.op == S.LessEq) && !S.IsPrerelease(v)
    ensures Contains(ConvertNormal(c), Candidate(v), Cmp) <==> S.MatchesFinal(c, v)
  {
  }

  lemma ConvertTildeMeaning(c: S.Comparator, v: S.Version)
    requires S.WellFormed(c) && (c.op == S.Tilde || c.op == S.Wildcard) && !S.IsPrerelease(v)
    ensures Contains(ConvertNormal(c), Candidate(v), Cmp) <==> S.MatchesFinal(c, v)
  {
  }

  lemma ConvertCaretMeaning(c: S.Comparator, v: S.Version)
    requires S.WellFormed(c) && c.op == S.Caret && !S.IsPrerelease(v)
    ensures Contains(ConvertNormal(c), Candidate(v), Cmp) <==> S.MatchesFinal(c, v)
  {
  }

  /** For a final version, the range `convert_normal` builds holds exactly
      the versions the comparator's operator describes. */
  lemma ConvertNormalMeaning(c: S.Comparator, v: S.Version)
    requires S.WellFormed(c) && !S.IsPrerelease(v)
    ensures Contains(ConvertNormal(c), Candidate(v), Cmp) <==> S.MatchesFinal(c, v)
  {
    match c.op
    case Exact => ConvertExactMeaning(c, v);
    case Greater => ConvertGreaterMeaning(c, v);
    case GreaterEq => ConvertGreaterMeaning(c, v);
    case Less => ConvertLessMeaning(c, v);
    case LessEq => ConvertLessMeaning(c, v);
    case Tilde => ConvertTildeMeaning(c, v);
    case Wildcard => ConvertTildeMeaning(c, v);
    case Caret => ConvertCaretMeaning(c, v);
  }

  /** `convert_prerelease` admits exactly the pre-releases of the named
      `I.J.K` from `P` upwards, and never a final version. */
  lemma ConvertPrereleaseMeaning(c: S.Comparator, v: S.Version)
    requires S.WellFormed(c)
    ensures Contains(ConvertPrerelease(c), Candidate(v), Cmp) <==> S.PreAdmits(c, v)
  {
  }

  /** The as-written conversion differs from the corrected one only on `^0.J`. */
  lemma ConvertNormalAsWrittenElsewhere(c: S.Comparator)
    requires S.WellFormed(c) && !IsCaretZeroMinor(c)
    ensures ConvertNormalAsWritten(c) == ConvertNormal(c)
  {
  }

  /** As written, `^0.2` admits 0.5.0, which `^0.2.0` (and the operator's
      meaning) excludes. */
  lemma CaretZeroMinorAsWritten()
    ensures var c := S.Comparator(S.Caret, 0, Some(2), None, []);
            var v := S.Version(0, 5, 0, []);
            && Contains(ConvertNormalAsWritten(c), Candidate(v), Cmp)
            && !S.MatchesFinal(c, v)
            && !Contains(ConvertNormalAsWritten(c.(patch := Some(0))), Candidate(v), Cmp)
  {
  }

  // ---- CandidateSet ------------------------------------------------------

  /** `range` decides final versions, `pre` decides pre-releases. */
  datatype CandidateSet = CandidateSet(range: Range<Candidate>, pre: Range<Candidate>)

  /** `VersionSet::contains`: the track is chosen by the pre-release flag. */
  predicate SetContains(s: CandidateSet, c: Candidate) {
    if !IsPrerelease(c) then Contains(s.range, c, Cmp) else Contains(s.pre, c, Cmp)
  }

  /** The candidates that `negate` and `union` keep: all but the pre-releases
      of 0.0.0, which rank below `lowest()`. */
  lemma AtLeastLowest(c: Candidate)
    ensures Cmp(c, Lowest()) != O.Less <==> !S.BelowZero(c.version)
  {
    S.BelowZeroIsBelow(c.version);
  }

  function EmptySet(): (s: CandidateSet)
    ensures forall c :: !SetContains(s, c)
  {
    CandidateSet(Empty, Empty)
  }

  /** `singleton` as written: `exact(c)` on the track of `c`. For a final
      candidate that is `c` alone; for a pre-release it is every pre-release
      from `c` up to the next patch release. */
  function SingletonAsWritten(c: Candidate): (s: CandidateSet)
    ensures SetContains(s, c)
    ensures forall d :: SetContains(s, d) ==> IsPrerelease(d) == IsPrerelease(c) && Cmp(d, c) != O.Less
    ensures !IsPrerelease(c) ==> forall d :: SetContains(s, d) <==> d == c
  {
    var s := if !IsPrerelease(c) then CandidateSet(Exact(c, Bump), Empty) else CandidateSet(Empty, Exact(c, Bump));
    CmpLaws(c, c);
    BumpIsNextFinal(c, c);
    forall d | !IsPrerelease(c) ensures SetContains(s, d) <==> d == c {
      CmpLaws(d, c);
      CmpLaws(d, Bump(c));
      BumpIsNextFinal(c, d);
    }
    s
  }

  /** As written, `singleton(1.2.3-alpha)` also holds 1.2.3-beta and
      1.2.4-alpha. */
  lemma SingletonAsWrittenPrerelease()
    ensures var c := FromPartsPre(1, 2, 3, [S.AlphaNumeric("alpha")]);
            && SetContains(SingletonAsWritten(c), FromPartsPre(1, 2, 3, [S.AlphaNumeric("beta")]))
            && SetContains(SingletonAsWritten(c), FromPartsPre(1, 2, 4, [S.AlphaNumeric("alpha")]))
  {
    assert O.CompareString("beta", "alpha") == O.Greater;
  }

  /** The upper bound that makes `[c, Next(c))` hold `c` alone on its track:
      the next patch release for a final candidate, `I.J.K-P.0` for a
      pre-release `I.J.K-P`. */
  function Next(c: Candidate): Candidate {
    if IsPrerelease(c) then Candidate(c.version.(pre := S.BumpPre(c.version.pre))) else Bump(c)
  }

  /** `singleton` as the comment above it intends: exactly `c`. */
  function Singleton(c: Candidate): (s: CandidateSet)
    ensures forall d :: SetContains(s, d) <==> d == c
  {
    var s := if !IsPrerelease(c) then CandidateSet(Between(c, Next(c)), Empty) else CandidateSet(Empty, Between(c, Next(c)));
    forall d ensures SetContains(s, d) <==> d == c {
      CmpLaws(d, c);
      CmpLaws(d, Next(c));
      if IsPrerelease(c) {
        S.BumpPreVersionIsSuccessor(c.version, d.version);
      } else {
        BumpIsNextFinal(c, d);
      }
    }
    s
  }

  /** `complement`: both tracks negated, so the result holds what `s` does
      not, except the pre-releases of 0.0.0. */
  function Complement(s: CandidateSet): (r: CandidateSet)
    ensures forall c :: SetContains(r, c) <==> !S.BelowZero(c.version) && !SetContains(s, c)
  {
    var r := CandidateSet(Negate(Lowest(), s.range), Negate(Lowest(), s.pre));
    forall c ensures SetContains(r, c) <==> !S.BelowZero(c.version) && !SetContains(s, c) {
      AtLeastLowest(c);
      NegateContains(Lowest(), s.range, c, Cmp);
      NegateContains(Lowest(), s.pre, c, Cmp);
    }
    r
  }

  function Intersect(s: CandidateSet, t: CandidateSet): (r: CandidateSet)
    ensures forall c :: SetContains(r, c) <==> SetContains(s, c) && SetContains(t, c)
  {
    CandidateSet(Intersection(s.range, t.range), Intersection(s.pre, t.pre))
  }

  // ---- CandidateSet::req --------------------------------------------------

  /** The loop's `range`: `full` intersected with each comparator in turn. */
  function NormalFold(cs: seq<S.Comparator>): Range<Candidate>
    requires S.WellFormedReq(cs)
  {
    if |cs| == 0 then Any(Lowest()) else Intersection(NormalFold(cs[..|cs| - 1]), ConvertNormal(cs[|cs| - 1]))
  }

  /** The loop's `pre`: `none` united with each comparator's pre-release range. */
  function PreFold(cs: seq<S.Comparator>): Range<Candidate>
    requires S.WellFormedReq(cs)
  {
    if |cs| == 0 then Empty else Union(Lowest(), PreFold(cs[..|cs| - 1]), ConvertPrerelease(cs[|cs| - 1]))
  }

  /** `CandidateSet::req`: the fold, then `pre = range ∩ pre`. */
  function Req(cs: seq<S.Comparator>): (s: CandidateSet)
    requires S.WellFormedReq(cs)
    ensures forall c :: Contains(s.pre, c, Cmp) ==> Contains(s.range, c, Cmp)
  {
    var range := NormalFold(cs);
    CandidateSet(range, Intersection(range, PreFold(cs)))
  }

  lemma {:induction false} NormalFoldContains(cs: seq<S.Comparator>, x: Candidate)
    requires S.WellFormedReq(cs)
    ensures Contains(NormalFold(cs), x, Cmp) <==>
              !S.BelowZero(x.version) && forall i :: 0 <= i < |cs| ==> Contains(ConvertNormal(cs[i]), x, Cmp)
  {
    if |cs| > 0 {
      var init := cs[..|cs| - 1];
      assert Contains(NormalFold(cs), x, Cmp) <==> Contains(NormalFold(init), x, Cmp) && Contains(ConvertNormal(cs[|cs| - 1]), x, Cmp);
      NormalFoldContains(init, x);
      assert forall i :: 0 <= i < |init| ==> init[i] == cs[i];
    } else {
      AtLeastLowest(x);
    }
  }

  lemma {:induction false} PreFoldContains(cs: seq<S.Comparator>, x: Candidate)
    requires S.WellFormedReq(cs)
    ensures Contains(PreFold(cs), x, Cmp) <==>
              !S.BelowZero(x.version) && exists i :: 0 <= i < |cs| && Contains(ConvertPrerelease(cs[i]), x, Cmp)
  {
    if |cs| > 0 {
      var init := cs[..|cs| - 1];
      UnionContains(Lowest(), PreFold(init), ConvertPrerelease(cs[|cs| - 1]), x, Cmp);
      AtLeastLowest(x);
      PreFoldContains(init, x);
      assert forall i :: 0 <= i < |init| ==> init[i] == cs[i];
    }
  }

  /** A final version is in the requirement's set exactly when every
      comparator describes it. */
  lemma ReqFinal(cs: seq<S.Comparator>, v: S.Version)
    requires S.WellFormedReq(cs) && !S.IsPrerelease(v)
    ensures SetContains(Req(cs), Candidate(v)) <==> forall i :: 0 <= i < |cs| ==> S.MatchesFinal(cs[i], v)
  {
    NormalFoldContains(cs, Candidate(v));
    forall i | 0 <= i < |cs| {
      ConvertNormalMeaning(cs[i], v);
    }
  }

  /** A pre-release is in the requirement's set exactly when it is not a
      pre-release of 0.0.0, lies in every comparator's range, and some
      comparator names a pre-release of the same `I.J.K` at or below it. */
  lemma ReqPrerelease(cs: seq<S.Comparator>, v: S.Version)
    requires S.WellFormedReq(cs) && S.IsPrerelease(v)
    ensures SetContains(Req(cs), Candidate(v)) <==>
              && !S.BelowZero(v)
              && (forall i :: 0 <= i < |cs| ==> Contains(ConvertNormal(cs[i]), Candidate(v), Cmp))
              && (exists i :: 0 <= i < |cs| && S.PreAdmits(cs[i], v))
  {
    var x := Candidate(v);
    assert SetContains(Req(cs), x) <==> Contains(NormalFold(cs), x, Cmp) && Contains(PreFold(cs), x, Cmp);
    NormalFoldContains(cs, x);
    PreFoldContains(cs, x);
    forall i | 0 <= i < |cs|
      ensures Contains(ConvertPrerelease(cs[i]), x, Cmp) <==> S.PreAdmits(cs[i], v)
    {
      ConvertPrereleaseMeaning(cs[i], v);
    }
  }

  /** A requirement none of whose comparators names a pre-release admits no
      pre-release. */
  lemma ReqNoPrerelease(cs: seq<S.Comparator>, v: S.Version)
    requires S.WellFormedReq(cs) && S.IsPrerelease(v)
    requires forall i :: 0 <= i < |cs| ==> cs[i].pre == []
    ensures !SetContains(Req(cs), Candidate(v))
  {
    ReqPrerelease(cs, v);
  }

  /** `>=0.0.0-alpha` admits no pre-release of 0.0.0, not even the one it
      names: `union` drops what lies below `lowest()`. */
  lemma ReqZeroPrerelease()
    ensures var c := S.Comparator(S.GreaterEq, 0, Some(0), Some(0), [S.AlphaNumeric("alpha")]);
            var v := S.Version(0, 0, 0, [S.AlphaNumeric("alpha")]);
            && S.PreAdmits(c, v)
            && !SetContains(Req([c]), Candidate(v))
  {
    var c := S.Comparator(S.GreaterEq, 0, Some(0), Some(0), [S.AlphaNumeric("alpha")]);
    var v := S.Version(0, 0, 0, [S.AlphaNumeric("alpha")]);
    ReqPrerelease([c], v);
  }
}
