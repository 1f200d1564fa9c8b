/** The two-track version set of mqpkg/src/resolver/pubgrub.rs: `range`
    decides final versions, `pre` decides pre-releases, and both are pubgrub
    ranges over the resolver's stamped versions. A candidate is looked up by
    its version alone (`c.version()`), so sets are stated over versions. */
module VersionSets {
  import O = Orderings
  import opened Ranges
  import S = Semver
  import V = Versions

  datatype VersionSet = VersionSet(range: Range<V.Version>, pre: Range<V.Version>)

  predicate InRange(r: Range<V.Version>, v: V.Version) {
    Ranges.Contains(r, v, V.Cmp)
  }

  /** `contains`: `range` for a final version, `pre` for a pre-release. */
  predicate Contains(s: VersionSet, v: V.Version) {
    if !V.IsPrerelease(v) then InRange(s.range, v) else InRange(s.pre, v)
  }

  /** The stamped version `lowest()` and `bump()`, and the two range
      operations that depend on them. */
  function Lowest(): V.Version {
    V.Lowest()
  }

  function Empty(): (s: VersionSet)
    ensures forall v :: !Contains(s, v)
  {
    VersionSet(Ranges.Empty, Ranges.Empty)
  }

  /** `singleton(c)` as written: `exact(c)` on the track of `c`. It holds
      `c` and only versions at or above it on that track, but also every
      lower stamp of the same version and the higher stamps of the next
      patch release (see `SingletonAsWrittenHoldsOthers`). */
  function SingletonAsWritten(c: V.Version): (s: VersionSet)
    ensures forall v :: V.Eq(v, c) ==> Contains(s, v)
    ensures forall v :: Contains(s, v) ==> V.IsPrerelease(v) == V.IsPrerelease(c) && V.Cmp(v, c) != O.Less
  {
    var x := Exact(c, V.Bump);
    V.CmpLaws(c, c);
    V.BumpIsGreater(c);
    if !V.IsPrerelease(c) then VersionSet(x, Ranges.Empty) else VersionSet(Ranges.Empty, x)
  }

  /** As written, `singleton(1.2.3@(5, 7))` also holds 1.2.3 from source 0
      and 1.2.4 from source 6. */
  lemma SingletonAsWrittenHoldsOthers()
    ensures var c := V.Version(S.Version(1, 2, 3, []), 5, 7, false);
            && Contains(SingletonAsWritten(c), V.Version(S.Version(1, 2, 3, []), 0, 0, false))
            && Contains(SingletonAsWritten(c), V.Version(S.Version(1, 2, 4, []), 6, 0, false))
  {
  }

  /** `singleton(c)` as the comment above it intends: the versions equal to
      `c`, as the segment `[c, Next(c))` on the track of `c`. */
  function Singleton(c: V.Version): (s: VersionSet)
    ensures forall v :: Contains(s, v) <==> V.Eq(v, c)
  {
    var s := if !V.IsPrerelease(c) then VersionSet(Between(c, V.Next(c)), Ranges.Empty) else VersionSet(Ranges.Empty, Between(c, V.Next(c)));
    forall v ensures Contains(s, v) <==> V.Eq(v, c) {
      if V.IsPrerelease(v) == V.IsPrerelease(c) {
        V.NextIsNext(c, v);
      }
    }
    s
  }

  /** `complement`: both tracks negated, so the result holds what `s` does
      not, except what ranks below `lowest()`. */
  function Complement(s: VersionSet): (r: VersionSet)
    ensures forall v :: Contains(r, v) <==> V.Cmp(v, Lowest()) != O.Less && !Contains(s, v)
  {
    var r := VersionSet(Negate(Lowest(), s.range), Negate(Lowest(), s.pre));
    forall v ensures Contains(r, v) <==> V.Cmp(v, Lowest()) != O.Less && !Contains(s, v) {
      NegateContains(Lowest(), s.range, v, V.Cmp);
      NegateContains(Lowest(), s.pre, v, V.Cmp);
    }
    r
  }

  /** A well-tagged version is in the complement exactly when it is not in
      the set and is not a pre-release of 0.0.0. */
  lemma ComplementTagged(s: VersionSet, v: V.Version)
    requires V.WellTagged(v)
    ensures Contains(Complement(s), v) <==> !S.BelowZero(v.semver) && !Contains(s, v)
  {
    V.AtLeastLowest(v);
  }

  function Intersect(s: VersionSet, t: VersionSet): (r: VersionSet)
    ensures forall v :: Contains(r, v) <==> Contains(s, v) && Contains(t, v)
  {
    VersionSet(Intersection(s.range, t.range), Intersection(s.pre, t.pre))
  }

  /** `default()`: `any()` for final versions and nothing for pre-releases;
      for well-tagged versions, exactly the final ones. */
  function Default(): (s: VersionSet)
    ensures forall v :: Contains(s, v) ==> !V.IsPrerelease(v)
    ensures forall v :: V.WellTagged(v) ==> (Contains(s, v) <==> !V.IsPrerelease(v))
  {
    var s := VersionSet(Any(Lowest()), Ranges.Empty);
    forall v | V.WellTagged(v) && !V.IsPrerelease(v) ensures Contains(s, v) {
      V.AtLeastLowest(v);
    }
    s
  }

  /** Both tracks set to the same range: membership is plain range
      membership, whatever the pre-release flag. */
  function Both(r: Range<V.Version>): (s: VersionSet)
    ensures forall v :: Contains(s, v) <==> InRange(r, v)
  {
    VersionSet(r, r)
  }

  /** `exact(v)` on both tracks: `[v, v.bump())`, which holds `v` and
      nothing below it. */
  function ExactSet(v: V.Version): (s: VersionSet)
    ensures Contains(s, v)
    ensures forall x :: Contains(s, x) <==> V.Cmp(x, v) != O.Less && V.Cmp(x, V.Bump(v)) == O.Less
    ensures forall x :: Contains(s, x) ==> S.Compare(x.semver, V.Bump(v).semver) != O.Greater
  {
    V.CmpLaws(v, v);
    V.BumpIsGreater(v);
    var s := Both(Exact(v, V.Bump));
    forall x | Contains(s, x) ensures S.Compare(x.semver, V.Bump(v).semver) != O.Greater {
      S.CompareLaws(x.semver, V.Bump(v).semver);
    }
    s
  }

  /** `exact` of a candidate bound, as `=I.J.K` builds it: a well-tagged
      final version is in it exactly when it is release I.J.K, whatever
      source it comes from. */
  lemma ExactCandidateFinal(i: nat, j: nat, k: nat, x: V.Version)
    requires V.WellTagged(x) && !V.IsPrerelease(x)
    ensures Contains(ExactSet(V.Candidate(i, j, k)), x) <==> x.semver == S.Version(i, j, k, [])
  {
    V.CmpCandidateBound(x, S.Version(i, j, k, []));
    V.CmpCandidateBound(x, S.Version(i, j, k + 1, []));
  }

  /** The one stamp `ExactCandidateFinal` sets aside: a release reported
      with source id `u64::MAX` and a non-zero discriminator ranks below the
      candidate bound of its own version, so `=1.2.3` rejects it. */
  lemma ExactRejectsBelowBound()
    ensures var x := V.Version(S.Version(1, 2, 3, []), V.U64_MAX, 5, false);
            && !V.WellTagged(x)
            && !Contains(ExactSet(V.Candidate(1, 2, 3)), x)
  {
    var x := V.Version(S.Version(1, 2, 3, []), V.U64_MAX, 5, false);
    S.CompareLaws(x.semver, V.Candidate(1, 2, 3).semver);
  }

  function BetweenSet(lo: V.Version, hi: V.Version): (s: VersionSet)
    ensures forall x :: Contains(s, x) <==> V.Cmp(x, lo) != O.Less && V.Cmp(x, hi) == O.Less
  {
    Both(Between(lo, hi))
  }

  function HigherThanSet(v: V.Version): (s: VersionSet)
    ensures forall x :: Contains(s, x) <==> V.Cmp(x, v) != O.Less
  {
    Both(HigherThan(v))
  }

  /** `strictly_lower_than(v)` on both tracks: `[lowest, v)`. */
  function StrictlyLowerThanSet(v: V.Version): (s: VersionSet)
    ensures forall x :: Contains(s, x) <==> V.Cmp(x, Lowest()) != O.Less && V.Cmp(x, v) == O.Less
  {
    Both(StrictlyLowerThan(Lowest(), v))
  }

  /** `with_normal`: intersects `range` only; `pre` is kept. */
  function WithNormal(s: VersionSet, other: VersionSet): (r: VersionSet)
    ensures r.pre == s.pre
    ensures forall v :: InRange(r.range, v) <==> InRange(s.range, v) && InRange(other.range, v)
  {
    VersionSet(Intersection(s.range, other.range), s.pre)
  }

  /** `with_pre`: unites into `pre` only, through `union`, so what ranks
      below `lowest()` is dropped; `range` is kept. */
  function WithPre(s: VersionSet, other: VersionSet): (r: VersionSet)
    ensures r.range == s.range
    ensures forall v :: InRange(r.pre, v) <==> V.Cmp(v, Lowest()) != O.Less && (InRange(s.pre, v) || InRange(other.pre, v))
  {
    var r := VersionSet(s.range, Union(Lowest(), s.pre, other.pre));
    forall v ensures InRange(r.pre, v) <==> V.Cmp(v, Lowest()) != O.Less && (InRange(s.pre, v) || InRange(other.pre, v)) {
      UnionContains(Lowest(), s.pre, other.pre, v, V.Cmp);
    }
    r
  }
}
