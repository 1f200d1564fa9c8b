/** A candidate's dependencies held as a fixed map
    (mqpkg/src/resolver/types/dependencies.rs). */
module Dependencies {
  import S = Semver
  import T = Types
  import N = Names
  import R = Requirements

  datatype StaticDependencies = StaticDependencies(dependencies: map<N.Name, R.Requirement>)

  /** No key is the root's name, so every key converts without a panic. */
  predicate Convertible(m: map<T.PackageName, S.VersionReq>) {
    forall p :: p in m ==> p.value != N.ROOT_NAME
  }

  /** `StaticDependencies::new`: each key becomes a `Name` and each
      requirement a `Requirement`. */
  function New(m: map<T.PackageName, S.VersionReq>): (d: StaticDependencies)
    requires Convertible(m)
    ensures forall p :: p in m ==> N.New(p) in d.dependencies && d.dependencies[N.New(p)] == R.Requirement(m[p])
    ensures forall n :: n in d.dependencies ==> !N.IsRoot(n) && N.ToPackageName(n) in m
  {
    StaticDependencies(map p | p in m :: N.New(p) := R.Requirement(m[p]))
  }

  /** `Dependencies::get`: the map itself. */
  function Get(d: StaticDependencies): map<N.Name, R.Requirement> {
    d.dependencies
  }

  /** The map `get` returns has one entry per key given to `new`, holding that
      key's requirement; converting the keys back gives the keys given. */
  lemma GetIsNew(m: map<T.PackageName, S.VersionReq>)
    requires Convertible(m)
    ensures (set n | n in Get(New(m)) :: N.ToPackageName(n)) == m.Keys
    ensures forall n :: n in Get(New(m)) ==> Get(New(m))[n] == R.Requirement(m[N.ToPackageName(n)])
  {
    var d := Get(New(m));
    forall p | p in m
      ensures p in (set n | n in d :: N.ToPackageName(n))
    {
      assert N.New(p) in d;
    }
  }
}
