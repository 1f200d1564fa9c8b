/** The data the `semver` crate hands to mqpkg: versions, pre-release
    identifiers, comparators and requirements, with precedence as in sections
    9 and 11 of Semantic Versioning 2.0.0. Parsing text into these values
    belongs to the crate and is not modelled; build metadata is left out. */
module Semver {
  import O = Orderings
  import opened Results

  /** One dot-separated pre-release identifier (section 9). */
  datatype Identifier = Numeric(n: nat) | AlphaNumeric(s: string)

  /** A version `major.minor.patch[-pre]`; `pre == []` is a final release. */
  datatype Version = Version(major: nat, minor: nat, patch: nat, pre: seq<Identifier>)

  predicate IsPrerelease(v: Version) {
    |v.pre| > 0
  }

  /** Section 11.4.1-11.4.3: numeric identifiers compare numerically,
      alphanumeric ones lexically, and numeric ranks below alphanumeric. */
  function CompareIdentifier(a: Identifier, b: Identifier): O.Ordering {
    match (a, b)
    case (Numeric(x), Numeric(y)) => O.CompareInt(x, y)
    case (Numeric(_), AlphaNumeric(_)) => O.Less
    case (AlphaNumeric(_), Numeric(_)) => O.Greater
    case (AlphaNumeric(s), AlphaNumeric(t)) => O.CompareString(s, t)
  }

  /** Section 11.4.4: identifiers compared left to right; when one list is a
      prefix of the other, the shorter one ranks lower. */
  function CompareIdentifiers(p: seq<Identifier>, q: seq<Identifier>): O.Ordering {
    if |p| == 0 then (if |q| == 0 then O.Equal else O.Less)
    else if |q| == 0 then O.Greater
    else CompareIdentifier(p[0], q[0]).Then(CompareIdentifiers(p[1..], q[1..]))
  }

  /** Section 11.3: a version without a pre-release ranks above one with. */
  function ComparePrerelease(p: seq<Identifier>, q: seq<Identifier>): O.Ordering {
    if |p| == 0 && |q| == 0 then O.Equal
    else if |p| == 0 then O.Greater
    else if |q| == 0 then O.Less
    else CompareIdentifiers(p, q)
  }

  /** Section 11.2: major, minor and patch numerically, then the pre-release. */
  function Compare(a: Version, b: Version): O.Ordering {
    O.CompareInt(a.major, b.major)
      .Then(O.CompareInt(a.minor, b.minor))
      .Then(O.CompareInt(a.patch, b.patch))
      .Then(ComparePrerelease(a.pre, b.pre))
  }

  lemma CompareIdentifierLaws(a: Identifier, b: Identifier)
    ensures CompareIdentifier(a, b) == O.Equal <==> a == b
    ensures CompareIdentifier(b, a) == CompareIdentifier(a, b).Reverse()
  {
    if a.AlphaNumeric? && b.AlphaNumeric? {
      O.CompareStringEqual(a.s, b.s);
      O.CompareStringReverse(a.s, b.s);
    }
  }

  lemma CompareIdentifierTransitive(a: Identifier, b: Identifier, c: Identifier)
    requires CompareIdentifier(a, b) == O.Less && CompareIdentifier(b, c) == O.Less
    ensures CompareIdentifier(a, c) == O.Less
  {
    if a.AlphaNumeric? && b.AlphaNumeric? && c.AlphaNumeric? {
      O.CompareStringTransitive(a.s, b.s, c.s);
    }
  }

  lemma {:induction false} CompareIdentifiersLaws(p: seq<Identifier>, q: seq<Identifier>)
    ensures CompareIdentifiers(p, q) == O.Equal <==> p == q
    ensures CompareIdentifiers(q, p) == CompareIdentifiers(p, q).Reverse()
  {
    if |p| > 0 && |q| > 0 {
      CompareIdentifierLaws(p[0], q[0]);
      CompareIdentifiersLaws(p[1..], q[1..]);
      assert p == [p[0]] + p[1..] && q == [q[0]] + q[1..];
    }
  }

  lemma {:induction false} CompareIdentifiersTransitive(p: seq<Identifier>, q: seq<Identifier>, r: seq<Identifier>)
    requires CompareIdentifiers(p, q) == O.Less && CompareIdentifiers(q, r) == O.Less
    ensures CompareIdentifiers(p, r) == O.Less
  {
    if |p| > 0 && |q| > 0 && |r| > 0 {
      CompareIdentifierLaws(p[0], q[0]);
      CompareIdentifierLaws(q[0], r[0]);
      var pq, qr := CompareIdentifier(p[0], q[0]), CompareIdentifier(q[0], r[0]);
      if pq == O.Equal && qr == O.Equal {
        CompareIdentifiersTransitive(p[1..], q[1..], r[1..]);
      } else if pq == O.Less && qr == O.Less {
        CompareIdentifierTransitive(p[0], q[0], r[0]);
      }
    }
  }

  lemma ComparePrereleaseLaws(p: seq<Identifier>, q: seq<Identifier>)
    ensures ComparePrerelease(p, q) == O.Equal <==> p == q
    ensures ComparePrerelease(q, p) == ComparePrerelease(p, q).Reverse()
  {
    CompareIdentifiersLaws(p, q);
  }

  lemma ComparePrereleaseTransitive(p: seq<Identifier>, q: seq<Identifier>, r: seq<Identifier>)
    requires ComparePrerelease(p, q) == O.Less && ComparePrerelease(q, r) == O.Less
    ensures ComparePrerelease(p, r) == O.Less
  {
    if |p| > 0 && |q| > 0 && |r| > 0 {
      CompareIdentifiersTransitive(p, q, r);
    }
  }

  /** Precedence is a total order: Equal exactly on equal versions, and
      swapping the arguments reverses the answer. */
  lemma CompareLaws(a: Version, b: Version)
    ensures Compare(a, b) == O.Equal <==> a == b
    ensures Compare(b, a) == Compare(a, b).Reverse()
  {
    ComparePrereleaseLaws(a.pre, b.pre);
  }

  lemma CompareTransitive(a: Version, b: Version, c: Version)
    requires Compare(a, b) == O.Less && Compare(b, c) == O.Less
    ensures Compare(a, c) == O.Less
  {
    if (a.major, a.minor, a.patch) == (b.major, b.minor, b.patch) == (c.major, c.minor, c.patch) {
      ComparePrereleaseTransitive(a.pre, b.pre, c.pre);
    }
  }

  /** Transitivity of "not greater", derived from the two laws above. */
  lemma CompareAtMostTransitive(a: Version, b: Version, c: Version)
    requires Compare(a, b) != O.Greater && Compare(b, c) != O.Greater
    ensures Compare(a, c) != O.Greater
    ensures Compare(a, b) == O.Less || Compare(b, c) == O.Less ==> Compare(a, c) == O.Less
  {
    CompareLaws(a, b);
    CompareLaws(b, c);
    CompareLaws(a, c);
    if Compare(a, b) == O.Less && Compare(b, c) == O.Less {
      CompareTransitive(a, b, c);
    }
  }

  /** The pre-releases of 0.0.0: the only versions that rank below 0.0.0. */
  predicate BelowZero(v: Version) {
    v.major == 0 && v.minor == 0 && v.patch == 0 && IsPrerelease(v)
  }

  lemma BelowZeroIsBelow(v: Version)
    ensures Compare(v, Version(0, 0, 0, [])) == O.Less <==> BelowZero(v)
  {
  }

  /** `bump_pre`: appends the identifier `0` to a pre-release (`P` becomes `P.0`). */
  function BumpPre(p: seq<Identifier>): seq<Identifier> {
    p + [Numeric(0)]
  }

  /** `P.0` is the immediate successor of `P`: no identifier list lies
      strictly between them. */
  lemma {:induction false} BumpPreIsSuccessor(p: seq<Identifier>, q: seq<Identifier>)
    ensures CompareIdentifiers(p, q) == O.Less <==> CompareIdentifiers(BumpPre(p), q) != O.Greater
  {
    if |p| == 0 {
      if |q| > 0 && q[0] == Numeric(0) {
        assert CompareIdentifiers(BumpPre(p), q) == CompareIdentifiers([], q[1..]);
      }
    } else if |q| > 0 {
      assert BumpPre(p)[0] == p[0] && BumpPre(p)[1..] == BumpPre(p[1..]);
      BumpPreIsSuccessor(p[1..], q[1..]);
    }
  }

  /** At the level of versions: for every `w`, `v < w` exactly when
      `v.P.0 <= w`, which is what turns `>I.J.K-P` into `>=I.J.K-P.0`. */
  lemma BumpPreVersionIsSuccessor(v: Version, w: Version)
    requires IsPrerelease(v)
    ensures Compare(v, w) == O.Less <==> Compare(v.(pre := BumpPre(v.pre)), w) != O.Greater
  {
    BumpPreIsSuccessor(v.pre, w.pre);
  }

  /** The comparator operators; `Unlisted` stands for any operator outside
      the eight below (the crate's `Op` is declared non-exhaustive). */
  datatype Op = Exact | Greater | GreaterEq | Less | LessEq | Tilde | Caret | Wildcard | Unlisted

  /** One comparator of a requirement, with a possibly partial version. */
  datatype Comparator = Comparator(op: Op, major: nat, minor: Option<nat>, patch: Option<nat>, pre: seq<Identifier>)

  /** A requirement is the conjunction of its comparators; `*` has none. */
  datatype VersionReq = VersionReq(comparators: seq<Comparator>)

  /** What the crate's parser guarantees of a comparator, and what the
      converters' `unreachable!()` arms rely on: a patch only after a minor,
      a pre-release only after a patch, a wildcard with neither a patch nor a
      pre-release, and one of the eight listed operators. */
  predicate WellFormed(c: Comparator) {
    && (c.patch.Some? ==> c.minor.Some?)
    && (c.pre != [] ==> c.patch.Some?)
    && (c.op == Wildcard ==> c.patch.None? && c.pre == [])
    && c.op != Unlisted
  }

  /** Every comparator of the requirement is well formed. */
  predicate WellFormedReq(cs: seq<Comparator>) {
    forall i :: 0 <= i < |cs| ==> WellFormed(cs[i])
  }

  /** The full version a comparator names, when it names all three parts. */
  function Named(c: Comparator): Version
    requires c.minor.Some? && c.patch.Some?
  {
    Version(c.major, c.minor.value, c.patch.value, c.pre)
  }

  /** The components the comparator mentions all equal the version's. */
  predicate TripleMatches(c: Comparator, v: Version) {
    && v.major == c.major
    && (c.minor.Some? ==> v.minor == c.minor.value)
    && (c.patch.Some? ==> v.patch == c.patch.value)
  }

  /** The version is above every version matching the mentioned components. */
  predicate TripleAbove(c: Comparator, v: Version) {
    || v.major > c.major
    || (v.major == c.major && c.minor.Some? &&
         (v.minor > c.minor.value || (v.minor == c.minor.value && c.patch.Some? && v.patch > c.patch.value)))
  }

  /** The version is below every version matching the mentioned components. */
  predicate TripleBelow(c: Comparator, v: Version) {
    || v.major < c.major
    || (v.major == c.major && c.minor.Some? &&
         (v.minor < c.minor.value || (v.minor == c.minor.value && c.patch.Some? && v.patch < c.patch.value)))
  }

  /** The intended meaning of a comparator for a FINAL version, component by
      component, as the operators are documented: `=` exact (or a range over
      the missing parts), `>`/`>=`/`<`/`<=` by precedence, `~` fixes the minor
      version, `^` allows changes right of the first non-zero component, and
      `I.J.*` is `=I.J`. A final version never equals a pre-release, is above
      `I.J.K-P`, and `^0.0.K-P` admits only pre-releases of 0.0.K. */
  predicate MatchesFinal(c: Comparator, v: Version)
    requires !IsPrerelease(v)
  {
    match c.op
    case Exact => TripleMatches(c, v) && c.pre == []
    case Wildcard => TripleMatches(c, v)
    case Greater => TripleAbove(c, v) || (TripleMatches(c, v) && c.patch.Some? && c.pre != [])
    case GreaterEq => TripleAbove(c, v) || TripleMatches(c, v)
    case Less => TripleBelow(c, v)
    case LessEq => TripleBelow(c, v) || (TripleMatches(c, v) && c.pre == [])
    case Tilde =>
      && v.major == c.major
      && (c.minor.Some? ==> v.minor == c.minor.value)
      && (c.patch.Some? ==> v.patch >= c.patch.value)
    case Caret =>
      && v.major == c.major
      && (c.minor.Some? ==>
            var j := c.minor.value;
            if c.patch.None? then (if c.major > 0 then v.minor >= j else v.minor == j)
            else if c.major > 0 then v.minor > j || (v.minor == j && v.patch >= c.patch.value)
            else if j > 0 then v.minor == j && v.patch >= c.patch.value
            else v.minor == j && v.patch == c.patch.value && c.pre == [])
    case Unlisted => false
  }

  /** A comparator that names a pre-release `I.J.K-P` admits the
      pre-releases of I.J.K from P upwards, and no other pre-release. */
  predicate PreAdmits(c: Comparator, v: Version) {
    && c.pre != [] && IsPrerelease(v)
    && c.minor.Some? && c.patch.Some?
    && (v.major, v.minor, v.patch) == (c.major, c.minor.value, c.patch.value)
    && ComparePrerelease(v.pre, c.pre) != O.Less
  }

  // ---- Text ------------------------------------------------------------

  function DigitText(d: nat): char
    requires d < 10
  {
    "0123456789"[d]
  }

  /** Decimal text of a natural. */
  function NatText(n: nat): (r: string)
    ensures |r| > 0
  {
    if n < 10 then [DigitText(n)] else NatText(n / 10) + [DigitText(n % 10)]
  }

  function IdentifierText(i: Identifier): string {
    match i
    case Numeric(n) => NatText(n)
    case AlphaNumeric(s) => s
  }

  function PrereleaseText(p: seq<Identifier>): string {
    if |p| == 0 then ""
    else if |p| == 1 then IdentifierText(p[0])
    else IdentifierText(p[0]) + "." + PrereleaseText(p[1..])
  }

  /** `Display for semver::Version`: `I.J.K` or `I.J.K-P`. */
  function Text(v: Version): (r: string)
    ensures |r| >= 5
  {
    NatText(v.major) + "." + NatText(v.minor) + "." + NatText(v.patch)
      + (if v.pre == [] then "" else "-" + PrereleaseText(v.pre))
  }
}
