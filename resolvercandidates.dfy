/** The candidates the pubgrub solver picks among
    (mqpkg/src/resolver/pubgrub/candidate.rs; mqpkg/src/resolver/semver.rs
    holds the same record): a version stamped by its source, the source, and
    the dependencies. Equality and order are the version's. */
module ResolverCandidates {
  import O = Orderings
  import opened Results
  import S = Semver
  import V = Versions
  import N = Names
  import R = Requirements

  /** A source of candidates. The internal source reports id 0 and its value
      as discriminator; other sources are described by the two numbers they
      report. */
  datatype Source = InternalSource(value: V.u64) | ExternalSource(sourceId: V.u64, discriminator: V.u64)

  /** `Source::id`. */
  function Id(s: Source): (r: V.u64)
    ensures s.InternalSource? ==> r == 0
  {
    match s
    case InternalSource(_) => 0
    case ExternalSource(id, _) => id
  }

  /** `Source::discriminator`. */
  function Discriminator(s: Source): (r: V.u64)
    ensures s.InternalSource? ==> r == s.value
  {
    match s
    case InternalSource(v) => v
    case ExternalSource(_, d) => d
  }

  /** The dependencies are `None` when the source cannot tell them. */
  datatype Candidate = Candidate(version: V.Version, source: Source, dependencies: Option<map<N.Name, R.Requirement>>)

  /** `Candidate::new`: the version is stamped with the source's id and
      discriminator. */
  function New(version: V.Version, source: Source, deps: Option<map<N.Name, R.Requirement>>): (c: Candidate)
    ensures c.version.semver == version.semver && c.version.suppressDisplay == version.suppressDisplay
    ensures c.version.sourceId == Id(source) && c.version.sourceDiscriminator == Discriminator(source)
    ensures c.source == source && c.dependencies == deps
  {
    Candidate(V.WithSourceDiscriminator(V.WithSourceId(version, Id(source)), Discriminator(source)), source, deps)
  }

  /** `Candidate::root`: the bound 0.0.0 from the internal source 0, with the
      requested packages as dependencies. */
  function Root(requested: map<N.Name, R.Requirement>): (c: Candidate)
    ensures c.version == V.Candidate(0, 0, 0) && c.source == InternalSource(0)
    ensures c.dependencies == Some(requested)
  {
    Candidate(V.Candidate(0, 0, 0), InternalSource(0), Some(requested))
  }

  /** `PartialEq`: the versions are equal. */
  predicate Eq(a: Candidate, b: Candidate) {
    V.Eq(a.version, b.version)
  }

  /** `Ord`: the versions' order. */
  function Cmp(a: Candidate, b: Candidate): O.Ordering {
    V.Cmp(a.version, b.version)
  }

  /** Equality and order agree, swapping reverses the order, and neither
      depends on anything but the version. */
  lemma CmpLaws(a: Candidate, b: Candidate, s: Source, d: Option<map<N.Name, R.Requirement>>)
    ensures Cmp(a, b) == O.Equal <==> Eq(a, b)
    ensures Cmp(b, a) == Cmp(a, b).Reverse()
    ensures Cmp(a.(source := s, dependencies := d), b) == Cmp(a, b)
  {
    V.CmpLaws(a.version, b.version);
  }

  /** Two candidates of one semantic version: the one whose source has the
      lower id, or the same id and a lower discriminator, ranks greater. */
  lemma LowerStampRanksGreater(version: V.Version, s: Source, t: Source)
    requires Id(s) < Id(t) || (Id(s) == Id(t) && Discriminator(s) < Discriminator(t))
    ensures Cmp(New(version, s, None), New(version, t, None)) == O.Greater
  {
    S.CompareLaws(version.semver, version.semver);
  }

  /** The root candidate's version is the lowest bound, and no candidate of a
      final version from a real source ranks below it. */
  lemma RootIsLowest(requested: map<N.Name, R.Requirement>, c: Candidate)
    requires V.WellTagged(c.version) && !V.IsPrerelease(c.version)
    ensures Cmp(Root(requested), c) != O.Greater
  {
    V.LowestIsLowestFinal(c.version);
  }
}
