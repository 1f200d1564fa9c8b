/** Rust's `std::cmp::Ordering`, and the comparisons of integers and strings
    that the version types in this model are built from. */
module Orderings {

  datatype Ordering = Less | Equal | Greater {

    /** `Ordering::reverse`: swaps Less and Greater. */
    function Reverse(): (r: Ordering)
      ensures r == Less <==> this == Greater
      ensures r == Equal <==> this == Equal
      ensures r == Greater <==> this == Less
    {
      match this
      case Less => Greater
      case Equal => Equal
      case Greater => Less
    }

    /** `Ordering::then`: the first comparison unless it is Equal. */
    function Then(next: Ordering): Ordering {
      if this == Equal then next else this
    }
  }

  /** The total order on integers (Rust's `u64::cmp` and `isize::cmp`). */
  function CompareInt(a: int, b: int): (r: Ordering)
    ensures r == Less <==> a < b
    ensures r == Equal <==> a == b
    ensures r == Greater <==> a > b
  {
    if a < b then Less else if a == b then Equal else Greater
  }

  /** Lexicographic order on strings by code point, the order Rust's `str::cmp`
      gives for ASCII text. */
  function CompareString(s: string, t: string): Ordering
  {
    if |s| == 0 then (if |t| == 0 then Equal else Less)
    else if |t| == 0 then Greater
    else if s[0] < t[0] then Less
    else if s[0] > t[0] then Greater
    else CompareString(s[1..], t[1..])
  }

  lemma {:induction false} CompareStringEqual(s: string, t: string)
    ensures CompareString(s, t) == Equal <==> s == t
  {
    if |s| > 0 && |t| > 0 && s[0] == t[0] {
      CompareStringEqual(s[1..], t[1..]);
      assert s == [s[0]] + s[1..] && t == [t[0]] + t[1..];
    }
  }

  lemma {:induction false} CompareStringReverse(s: string, t: string)
    ensures CompareString(t, s) == CompareString(s, t).Reverse()
  {
    if |s| > 0 && |t| > 0 && s[0] == t[0] {
      CompareStringReverse(s[1..], t[1..]);
    }
  }

  lemma {:induction false} CompareStringTransitive(s: string, t: string, u: string)
    requires CompareString(s, t) == Less && CompareString(t, u) == Less
    ensures CompareString(s, u) == Less
  {
    if |s| > 0 && |t| > 0 && |u| > 0 && s[0] == t[0] && t[0] == u[0] {
      CompareStringTransitive(s[1..], t[1..], u[1..]);
    }
  }
}
