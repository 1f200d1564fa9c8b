/** pubgrub's `Range<V>`, read as the set of versions it describes. The
    crate keeps a range as an ordered list of segments `[lo, hi)` and
    `[lo, ...)`; here a range is a set expression over such segments, and
    `Contains` gives its meaning under the order `cmp` of the version type.
    The crate's constructors and operations are the functions below them,
    each written as the crate computes it from the version type's `lowest()`
    and `bump()`: nothing the crate builds reaches below `lowest()` except a
    segment whose own bounds lie there. */
module Ranges {
  import O = Orderings

  datatype Range<V> =
    | Empty                              // Range::none()
    | Between(lo: V, hi: V)              // one segment [lo, hi)
    | HigherThan(v: V)                   // one segment [v, ...)
    | Outside(r: Range<V>)               // every version not in r
    | Intersection(a: Range<V>, b: Range<V>)

  /** `Range::contains`. */
  predicate Contains<V>(r: Range<V>, x: V, cmp: (V, V) -> O.Ordering) {
    match r
    case Empty => false
    case Between(lo, hi) => cmp(x, lo) != O.Less && cmp(x, hi) == O.Less
    case HigherThan(v) => cmp(x, v) != O.Less
    case Outside(r) => !Contains(r, x, cmp)
    case Intersection(a, b) => Contains(a, x, cmp) && Contains(b, x, cmp)
  }

  /** `Range::any()` (and `full()`): `higher_than(V::lowest())`. */
  function Any<V>(lowest: V): Range<V> {
    HigherThan(lowest)
  }

  /** `Range::exact(v)`: the segment `[v, v.bump())`. */
  function Exact<V>(v: V, bump: V -> V): Range<V> {
    Between(v, bump(v))
  }

  /** `Range::strictly_lower_than(v)`: the segment `[lowest, v)`. */
  function StrictlyLowerThan<V>(lowest: V, v: V): Range<V> {
    Between(lowest, v)
  }

  /** `negate`: the segments between those of `r`, starting from `lowest`. */
  function Negate<V>(lowest: V, r: Range<V>): Range<V> {
    Intersection(Any(lowest), Outside(r))
  }

  /** `union`: `self.negate().intersection(&other.negate()).negate()`. */
  function Union<V>(lowest: V, a: Range<V>, b: Range<V>): Range<V> {
    Negate(lowest, Intersection(Negate(lowest, a), Negate(lowest, b)))
  }

  /** `negate` is the complement within the versions at or above `lowest`. */
  lemma NegateContains<V>(lowest: V, r: Range<V>, x: V, cmp: (V, V) -> O.Ordering)
    ensures Contains(Negate(lowest, r), x, cmp) <==> cmp(x, lowest) != O.Less && !Contains(r, x, cmp)
  {
  }

  /** `union`, computed through `negate`, keeps only what lies at or above
      `lowest` of either side. */
  lemma UnionContains<V>(lowest: V, a: Range<V>, b: Range<V>, x: V, cmp: (V, V) -> O.Ordering)
    ensures Contains(Union(lowest, a, b), x, cmp) <==> cmp(x, lowest) != O.Less && (Contains(a, x, cmp) || Contains(b, x, cmp))
  {
    NegateContains(lowest, a, x, cmp);
    NegateContains(lowest, b, x, cmp);
    NegateContains(lowest, Intersection(Negate(lowest, a), Negate(lowest, b)), x, cmp);
  }

  /** Rewrites every bound with `f`, keeping the shape of the range. */
  function Map<V, W>(r: Range<V>, f: V -> W): (m: Range<W>)
    ensures r.Empty? <==> m.Empty?
  {
    match r
    case Empty => Empty
    case Between(lo, hi) => Between(f(lo), f(hi))
    case HigherThan(v) => HigherThan(f(v))
    case Outside(r) => Outside(Map(r, f))
    case Intersection(a, b) => Intersection(Map(a, f), Map(b, f))
  }

  /** Membership is preserved by a bound rewrite `f` when, for the element
      `y` and its image `x`, comparing against any bound answers Less before
      the rewrite exactly when it does after. */
  lemma {:induction false} MapContains<V, W>(r: Range<V>, f: V -> W, y: V, cmpV: (V, V) -> O.Ordering,
                                             x: W, cmpW: (W, W) -> O.Ordering)
    requires forall b: V :: (cmpW(x, f(b)) == O.Less) == (cmpV(y, b) == O.Less)
    ensures Contains(Map(r, f), x, cmpW) == Contains(r, y, cmpV)
  {
    match r
    case Outside(s) => MapContains(s, f, y, cmpV, x, cmpW);
    case Intersection(a, b) =>
      MapContains(a, f, y, cmpV, x, cmpW);
      MapContains(b, f, y, cmpV, x, cmpW);
    case _ =>
  }
}
