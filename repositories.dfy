/** The fetched repository data (mqpkg/src/repository.rs): the releases each
    configured repository offers, listed as candidates newest first, and the
    dependencies of one release merged across repositories. Fetching itself
    (HTTP, files, JSON) is not part of this model: the data is given. */
module Repositories {
  import O = Orderings
  import opened Results
  import S = Semver
  import T = Types

  /** `Release`: the dependencies a release declares (its URLs and digests
      are not used here). */
  datatype Release = Release(dependencies: map<T.PackageName, S.VersionReq>)

  /** `RepoData`: the releases of each package, by version. */
  datatype RepoData = RepoData(packages: map<T.PackageName, map<S.Version, Release>>)

  /** `Repository`: the data of each configured repository, in the order the
      repositories were configured. */
  datatype Repository = Repository(data: seq<(T.RepoConfig, RepoData)>)

  /** Repository `i` offers `package` at `version`. */
  predicate Offers(repo: Repository, package: T.PackageName, i: int, version: S.Version) {
    && 0 <= i < |repo.data|
    && package in repo.data[i].1.packages
    && version in repo.data[i].1.packages[package]
  }

  function ReleaseOf(repo: Repository, package: T.PackageName, i: int, version: S.Version): Release
    requires Offers(repo, package, i, version)
  {
    repo.data[i].1.packages[package][version]
  }

  /** The candidate listed for that release: the version with its
      dependencies, tagged with the repository's position and
      configuration. */
  function Entry(repo: Repository, package: T.PackageName, i: int, version: S.Version): (c: T.Candidate)
    requires Offers(repo, package, i, version)
    ensures c.version == version && c.repository == Some((i, repo.data[i].0)) && !c.isRoot
  {
    T.WithRepository(T.New(version, ReleaseOf(repo, package, i, version).dependencies), i, repo.data[i].0)
  }

  /** `c` is the entry of a release some repository offers. */
  predicate IsEntry(repo: Repository, package: T.PackageName, c: T.Candidate) {
    && c.repository.Some?
    && Offers(repo, package, c.repository.value.0, c.version)
    && c == Entry(repo, package, c.repository.value.0, c.version)
  }

  /** Strictly decreasing under the candidate order: newest first, and no
      two entries equal. */
  predicate Descending(s: seq<T.Candidate>) {
    forall a, b :: 0 <= a < b < |s| ==> T.Cmp(s[a], s[b]) == O.Greater
  }

  /** No two entries are equal. */
  predicate Distinct(s: seq<T.Candidate>) {
    forall a, b :: 0 <= a < b < |s| ==> !T.Eq(s[a], s[b])
  }

  lemma GreaterTransitive(a: T.Candidate, b: T.Candidate, c: T.Candidate)
    requires T.Cmp(a, b) == O.Greater && T.Cmp(b, c) == O.Greater
    ensures T.Cmp(a, c) == O.Greater
  {
    T.CmpLaws(a, b);
    T.CmpLaws(b, c);
    T.CmpLaws(a, c);
    T.CmpTransitive(c, b, a);
  }

  // ---- candidates ------------------------------------------------------------

  /** The inner loop of `candidates`: pushes the entry of each version
      repository `i` offers. */
  method CollectRepository(repo: Repository, package: T.PackageName, i: int, cs: seq<T.Candidate>) returns (out: seq<T.Candidate>)
    requires 0 <= i < |repo.data| && package in repo.data[i].1.packages
    requires forall k :: 0 <= k < |cs| ==> IsEntry(repo, package, cs[k]) && cs[k].repository.value.0 < i
    requires Distinct(cs)
    ensures forall k :: 0 <= k < |out| ==> IsEntry(repo, package, out[k]) && out[k].repository.value.0 <= i
    ensures forall c :: c in cs ==> c in out
    ensures forall v :: Offers(repo, package, i, v) ==> Entry(repo, package, i, v) in out
    ensures Distinct(out)
  {
    var versions := repo.data[i].1.packages[package];
    var remaining := versions.Keys;
    out := cs;
    while remaining != {}
      invariant remaining <= versions.Keys
      invariant forall k :: 0 <= k < |out| ==> IsEntry(repo, package, out[k]) && out[k].repository.value.0 <= i
      invariant forall k :: 0 <= k < |out| && out[k].repository.value.0 == i ==> out[k].version !in remaining
      invariant forall c :: c in cs ==> c in out
      invariant forall v :: v in versions && v !in remaining ==> Entry(repo, package, i, v) in out
      invariant Distinct(out)
      decreases |remaining|
    {
      var v :| v in remaining;
      var c := Entry(repo, package, i, v);
      out := out + [c];
      remaining := remaining - {v};
    }
  }

  /** Inserts `x` before the first entry it ranks above. */
  method Insert(s: seq<T.Candidate>, x: T.Candidate) returns (r: seq<T.Candidate>)
    requires Descending(s)
    requires forall k :: 0 <= k < |s| ==> !T.Eq(s[k], x)
    ensures multiset(r) == multiset(s) + multiset{x}
    ensures Descending(r)
  {
    var k := 0;
    while k < |s| && T.Cmp(s[k], x) == O.Greater
      invariant 0 <= k <= |s|
      invariant forall j :: 0 <= j < k ==> T.Cmp(s[j], x) == O.Greater
    {
      k := k + 1;
    }
    if k < |s| {
      T.CmpLaws(s[k], x);
    }
    r := s[..k] + [x] + s[k..];
    InsertMultiset(s, k, x);
    InsertDescending(s, k, x);
  }

  lemma InsertMultiset(s: seq<T.Candidate>, k: int, x: T.Candidate)
    requires 0 <= k <= |s|
    ensures multiset(s[..k] + [x] + s[k..]) == multiset(s) + multiset{x}
  {
    assert s == s[..k] + s[k..];
  }

  lemma InsertDescending(s: seq<T.Candidate>, k: int, x: T.Candidate)
    requires Descending(s) && 0 <= k <= |s|
    requires forall j :: 0 <= j < k ==> T.Cmp(s[j], x) == O.Greater
    requires k < |s| ==> T.Cmp(s[k], x) == O.Less
    ensures Descending(s[..k] + [x] + s[k..])
  {
    var r := s[..k] + [x] + s[k..];
    forall j | k <= j < |s|
      ensures T.Cmp(x, s[j]) == O.Greater
    {
      T.CmpLaws(s[k], x);
      if j > k {
        GreaterTransitive(x, s[k], s[j]);
      }
    }
    forall a, b | 0 <= a < b < |r|
      ensures T.Cmp(r[a], r[b]) == O.Greater
    {
      if b < k {
        assert r[a] == s[a] && r[b] == s[b];
      } else if b == k {
        assert r[a] == s[a] && r[b] == x;
      } else if a == k {
        assert r[b] == s[b - 1];
      } else if a < k {
        assert r[a] == s[a] && r[b] == s[b - 1];
      } else {
        assert r[a] == s[a - 1] && r[b] == s[b - 1];
      }
    }
  }

  /** `sort_by(|l, r| l.cmp(r).reverse())`: the entries in decreasing
      order. */
  method SortDescending(s: seq<T.Candidate>) returns (r: seq<T.Candidate>)
    requires Distinct(s)
    ensures multiset(r) == multiset(s)
    ensures Descending(r)
  {
    r := [];
    var k := 0;
    while k < |s|
      invariant 0 <= k <= |s|
      invariant multiset(r) == multiset(s[..k])
      invariant Descending(r)
    {
      forall j | 0 <= j < |r|
        ensures !T.Eq(r[j], s[k])
      {
        assert r[j] in multiset(s[..k]);
        var a :| 0 <= a < k && s[a] == r[j];
      }
      r := Insert(r, s[k]);
      assert s[..k + 1] == s[..k] + [s[k]];
      k := k + 1;
    }
    assert s[..k] == s;
  }

  /** `Repository::candidates`: one entry for every version of `package`
      that some repository offers, newest first; none when no repository has
      the package. */
  method Candidates(repo: Repository, package: T.PackageName) returns (cs: seq<T.Candidate>)
    ensures forall c :: c in cs <==> IsEntry(repo, package, c)
    ensures Descending(cs)
    ensures (forall i :: 0 <= i < |repo.data| ==> package !in repo.data[i].1.packages) ==> cs == []
  {
    var collected: seq<T.Candidate> := [];
    var i := 0;
    while i < |repo.data|
      invariant 0 <= i <= |repo.data|
      invariant forall k :: 0 <= k < |collected| ==> IsEntry(repo, package, collected[k]) && collected[k].repository.value.0 < i
      invariant forall j, v :: 0 <= j < i && Offers(repo, package, j, v) ==> Entry(repo, package, j, v) in collected
      invariant Distinct(collected)
    {
      if package in repo.data[i].1.packages {
        collected := CollectRepository(repo, package, i, collected);
      }
      i := i + 1;
    }
    cs := SortDescending(collected);
    forall c | IsEntry(repo, package, c)
      ensures c in cs
    {
      assert c in collected;
      assert c in multiset(collected);
    }
    forall c | c in cs
      ensures IsEntry(repo, package, c)
    {
      assert c in multiset(collected);
    }
  }

  /** Two listed releases of one version: the one from the earlier
      repository comes first. */
  lemma EarlierRepositoryFirst(cs: seq<T.Candidate>, a: int, b: int)
    requires Descending(cs) && 0 <= a < |cs| && 0 <= b < |cs|
    requires cs[a].version == cs[b].version
    requires cs[a].repository.Some? && cs[b].repository.Some?
    requires cs[a].repository.value.0 < cs[b].repository.value.0
    ensures a < b
  {
    if b < a {
      S.CompareLaws(cs[a].version, cs[b].version);
    }
  }

  // ---- dependencies ----------------------------------------------------------

  /** The dependencies of `package` at `version` after the first `n`
      repositories: each offering repository's map is laid over the earlier
      ones, so a later repository's requirement replaces an earlier one. */
  function Merged(repo: Repository, package: T.PackageName, version: S.Version, n: nat): map<T.PackageName, S.VersionReq>
    requires n <= |repo.data|
  {
    if n == 0 then map[]
    else if Offers(repo, package, n - 1, version) then
      Merged(repo, package, version, n - 1) + ReleaseOf(repo, package, n - 1, version).dependencies
    else Merged(repo, package, version, n - 1)
  }

  /** The innermost loop of `dependencies`: inserts each requirement of one
      release. */
  method InsertAll(deps: map<T.PackageName, S.VersionReq>, release: map<T.PackageName, S.VersionReq>) returns (out: map<T.PackageName, S.VersionReq>)
    ensures out == deps + release
  {
    out := deps;
    var remaining := release.Keys;
    while remaining != {}
      invariant remaining <= release.Keys
      invariant out.Keys == deps.Keys + (release.Keys - remaining)
      invariant forall k :: k in out ==> out[k] == if k in release && k !in remaining then release[k] else deps[k]
      decreases |remaining|
    {
      var k :| k in remaining;
      out := out[k := release[k]];
      remaining := remaining - {k};
    }
  }

  /** `Repository::dependencies`. */
  method Dependencies(repo: Repository, package: T.PackageName, version: S.Version) returns (deps: map<T.PackageName, S.VersionReq>)
    ensures deps == Merged(repo, package, version, |repo.data|)
  {
    deps := map[];
    var i := 0;
    while i < |repo.data|
      invariant 0 <= i <= |repo.data|
      invariant deps == Merged(repo, package, version, i)
    {
      var packages: map<T.PackageName, map<S.Version, Release>> := repo.data[i].1.packages;
      if package in packages {
        if version in packages[package] {
          var release: Release := packages[package][version];
          deps := InsertAll(deps, release.dependencies);
        }
      }
      i := i + 1;
    }
  }

  /** A name is a dependency exactly when some offering repository among the
      first `n` declares it. */
  lemma {:induction false} MergedKeys(repo: Repository, package: T.PackageName, version: S.Version, n: nat, k: T.PackageName)
    requires n <= |repo.data|
    ensures k in Merged(repo, package, version, n) <==>
              exists j :: 0 <= j < n && Offers(repo, package, j, version) && k in ReleaseOf(repo, package, j, version).dependencies
  {
    if n > 0 {
      MergedKeys(repo, package, version, n - 1, k);
    }
  }

  /** The requirement kept for a name is the one of the last offering
      repository that declares it. */
  lemma {:induction false} LastRepositoryWins(repo: Repository, package: T.PackageName, version: S.Version, n: nat, j: int, k: T.PackageName)
    requires n <= |repo.data| && 0 <= j < n
    requires Offers(repo, package, j, version) && k in ReleaseOf(repo, package, j, version).dependencies
    requires forall l :: j < l < n && Offers(repo, package, l, version) ==> k !in ReleaseOf(repo, package, l, version).dependencies
    ensures k in Merged(repo, package, version, n)
    ensures Merged(repo, package, version, n)[k] == ReleaseOf(repo, package, j, version).dependencies[k]
  {
    if j < n - 1 {
      LastRepositoryWins(repo, package, version, n - 1, j, k);
    }
  }

  /** Nothing is offered, nothing is merged. */
  lemma {:induction false} NothingOfferedNoDependencies(repo: Repository, package: T.PackageName, version: S.Version, n: nat)
    requires n <= |repo.data|
    requires forall j :: 0 <= j < n ==> !Offers(repo, package, j, version)
    ensures Merged(repo, package, version, n) == map[]
  {
    if n > 0 {
      NothingOfferedNoDependencies(repo, package, version, n - 1);
    }
  }
}
