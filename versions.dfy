/** The resolver's version type (mqpkg/src/resolver/types/version.rs, and the
    same record without the display flag in mqpkg/src/resolver/semver.rs):
    a semantic version stamped with the id and discriminator of the source it
    came from. On equal precedence the stamp decides, in reverse, so that the
    bounds built by `candidate(i, j, k)` (stamp `u64::MAX`, 0) sit below every
    real source's copy of the same version. */
module Versions {
  import O = Orderings
  import S = Semver

  newtype u64 = x: int | 0 <= x < 0x1_0000_0000_0000_0000

  const U64_MAX: u64 := 0xFFFF_FFFF_FFFF_FFFF

  datatype Version = Version(semver: S.Version, sourceId: u64, sourceDiscriminator: u64, suppressDisplay: bool)

  /** `Version::new`: i.j.k, stamp (0, 0), displayed. */
  function New(major: nat, minor: nat, patch: nat): Version {
    Version(S.Version(major, minor, patch, []), 0, 0, false)
  }

  /** `Version::candidate`: i.j.k stamped with `u64::MAX` and discriminator 0. */
  function Candidate(major: nat, minor: nat, patch: nat): (r: Version)
    ensures r.semver == S.Version(major, minor, patch, [])
    ensures r.sourceId == U64_MAX && r.sourceDiscriminator == 0 && !r.suppressDisplay
  {
    WithSourceId(New(major, minor, patch), U64_MAX)
  }

  /** `pre`: replaces the pre-release, keeping everything else. */
  function Pre(v: Version, pre: seq<S.Identifier>): Version {
    v.(semver := v.semver.(pre := pre))
  }

  function WithSourceId(v: Version, id: u64): Version {
    v.(sourceId := id)
  }

  function WithSourceDiscriminator(v: Version, d: u64): Version {
    v.(sourceDiscriminator := d)
  }

  function SuppressDisplay(v: Version): Version {
    v.(suppressDisplay := true)
  }

  /** `Display`: the semantic version, or nothing when display is suppressed. */
  function Text(v: Version): (r: string)
    ensures v.suppressDisplay <==> r == ""
    ensures !v.suppressDisplay ==> r == S.Text(v.semver)
  {
    if v.suppressDisplay then "" else S.Text(v.semver)
  }

  /** `PartialEq`: the same semantic version and the same stamp; the display
      flag plays no part. */
  predicate Eq(a: Version, b: Version) {
    (a.semver, a.sourceId, a.sourceDiscriminator) == (b.semver, b.sourceId, b.sourceDiscriminator)
  }

  /** Lexicographic order on the (source id, discriminator) stamp. */
  function CompareStamp(a: Version, b: Version): O.Ordering {
    O.CompareInt(a.sourceId as int, b.sourceId as int).Then(O.CompareInt(a.sourceDiscriminator as int, b.sourceDiscriminator as int))
  }

  /** `Ord`: precedence first; on a tie, the stamp order reversed. It is
      Equal exactly when `eq` holds. */
  function Cmp(a: Version, b: Version): (r: O.Ordering)
    ensures r == O.Equal <==> Eq(a, b)
    ensures S.Compare(a.semver, b.semver) != O.Equal ==> r == S.Compare(a.semver, b.semver)
  {
    S.CompareLaws(a.semver, b.semver);
    match S.Compare(a.semver, b.semver)
    case Equal => CompareStamp(a, b).Reverse()
    case Greater => O.Greater
    case Less => O.Less
  }

  predicate IsPrerelease(v: Version) {
    S.IsPrerelease(v.semver)
  }

  /** `PubGrubVersion::lowest`: `candidate(0, 0, 0)`. */
  function Lowest(): Version {
    Candidate(0, 0, 0)
  }

  /** `PubGrubVersion::bump`: the next patch release, stamped with the same
      source id and discriminator 0, displayed. */
  function Bump(v: Version): (r: Version)
    ensures r.semver == S.Version(v.semver.major, v.semver.minor, v.semver.patch + 1, [])
    ensures r.sourceId == v.sourceId && r.sourceDiscriminator == 0 && !r.suppressDisplay
  {
    WithSourceId(New(v.semver.major, v.semver.minor, v.semver.patch + 1), v.sourceId)
  }

  /** `From<&semver::Version>`: stamp (0, 0), displayed. */
  function FromSemver(sv: S.Version): Version {
    Version(sv, 0, 0, false)
  }

  /** `From<&Version> for semver::Version`. */
  function ToSemver(v: Version): S.Version {
    v.semver
  }

  // ---- Laws ------------------------------------------------------------

  /** The order agrees with equality, and swapping the arguments reverses it. */
  lemma CmpLaws(a: Version, b: Version)
    ensures Cmp(a, b) == O.Equal <==> Eq(a, b)
    ensures Cmp(b, a) == Cmp(a, b).Reverse()
  {
    S.CompareLaws(a.semver, b.semver);
  }

  lemma CmpTransitive(a: Version, b: Version, c: Version)
    requires Cmp(a, b) == O.Less && Cmp(b, c) == O.Less
    ensures Cmp(a, c) == O.Less
  {
    S.CompareLaws(a.semver, b.semver);
    S.CompareLaws(b.semver, c.semver);
    S.CompareLaws(a.semver, c.semver);
    var ab, bc := S.Compare(a.semver, b.semver), S.Compare(b.semver, c.semver);
    if ab == O.Less && bc == O.Less {
      S.CompareTransitive(a.semver, b.semver, c.semver);
    }
  }

  /** Converting a semantic version in and back out gives it back, and the
      way in stamps (0, 0). */
  lemma SemverRoundTrip(sv: S.Version)
    ensures ToSemver(FromSemver(sv)) == sv
    ensures Eq(FromSemver(sv), New(sv.major, sv.minor, sv.patch)) <==> sv.pre == []
  {
  }

  /** Every stamp but one: `u64::MAX` with a non-zero discriminator is the
      only stamp that ranks below the candidate bound of the same version. */
  predicate WellTagged(v: Version) {
    v.sourceId < U64_MAX || v.sourceDiscriminator == 0
  }

  /** Against a candidate bound, a well-tagged version compares by precedence
      alone, except that it is never below its own version's bound. */
  lemma CmpCandidateBound(v: Version, b: S.Version)
    requires WellTagged(v)
    ensures var bound := Version(b, U64_MAX, 0, false);
            && (Cmp(v, bound) == O.Less <==> S.Compare(v.semver, b) == O.Less)
            && (Cmp(v, bound) == O.Equal <==> v.semver == b && v.sourceId == U64_MAX && v.sourceDiscriminator == 0)
  {
    S.CompareLaws(v.semver, b);
  }

  /** `lowest` is at or below every well-tagged final version. */
  lemma LowestIsLowestFinal(v: Version)
    requires WellTagged(v) && !IsPrerelease(v)
    ensures Cmp(Lowest(), v) != O.Greater
  {
    CmpCandidateBound(v, S.Version(0, 0, 0, []));
    CmpLaws(v, Lowest());
  }

  /** The versions that `negate` and `union` keep: for a well-tagged
      version, all but the pre-releases of 0.0.0. */
  lemma AtLeastLowest(v: Version)
    requires WellTagged(v)
    ensures Cmp(v, Lowest()) != O.Less <==> !S.BelowZero(v.semver)
  {
    CmpCandidateBound(v, S.Version(0, 0, 0, []));
    S.BelowZeroIsBelow(v.semver);
  }

  /** The least version above `v` on its own track (final or pre-release):
      the same semantic version with the next stamp down, or, from stamp
      (0, 0), the next release with the highest stamp — `I.J.(K+1)` after a
      final `I.J.K`, `I.J.K-P.0` after a pre-release `I.J.K-P`. */
  function Next(v: Version): Version {
    if v.sourceDiscriminator > 0 then v.(sourceDiscriminator := v.sourceDiscriminator - 1)
    else if v.sourceId > 0 then v.(sourceId := v.sourceId - 1, sourceDiscriminator := U64_MAX)
    else if IsPrerelease(v) then Version(v.semver.(pre := S.BumpPre(v.semver.pre)), U64_MAX, U64_MAX, false)
    else Version(S.Version(v.semver.major, v.semver.minor, v.semver.patch + 1, []), U64_MAX, U64_MAX, false)
  }

  /** `[v, Next(v))` holds, on the track of `v`, the versions equal to `v`
      and nothing else. */
  lemma NextIsNext(v: Version, w: Version)
    requires IsPrerelease(w) == IsPrerelease(v)
    ensures Cmp(w, v) != O.Less && Cmp(w, Next(v)) == O.Less <==> Eq(w, v)
  {
    S.CompareLaws(w.semver, v.semver);
    S.CompareLaws(w.semver, Next(v).semver);
    if v.sourceDiscriminator == 0 && v.sourceId == 0 {
      if IsPrerelease(v) {
        S.BumpPreVersionIsSuccessor(v.semver, w.semver);
        S.CompareLaws(Next(v).semver, w.semver);
      }
    }
  }

  /** `bump` moves strictly up, whatever the stamp. */
  lemma BumpIsGreater(v: Version)
    ensures Cmp(v, Bump(v)) == O.Less
  {
  }
}
