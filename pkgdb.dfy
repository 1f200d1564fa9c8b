/** The package database (mqpkg/src/pkgdb.rs): the packages the user asked
    for, kept in `<root>/pkgdb/state.yml`. The file system and YAML are not
    part of this model: what reading the state file gave, and whether saving
    it succeeded, are parameters. */
module PkgDb {
  import opened Results
  import S = Semver
  import T = Types

  const PKGDB_DIR: string := "pkgdb"
  const STATE_FILE: string := "state.yml"

  /** `DBError`, each variant carrying the text of its cause. */
  datatype DBError = PathUnavailable(cause: string) | InvalidState(cause: string)

  /** `PackageRequest`. */
  datatype PackageRequest = PackageRequest(name: T.PackageName, version: S.VersionReq)

  /** `State`: the requests by package name. */
  datatype State = State(requested: map<T.PackageName, PackageRequest>)

  /** Every stored request is filed under its own name. */
  predicate KeysMatch(s: State) {
    forall p :: p in s.requested ==> s.requested[p].name == p
  }

  /** `pkgdb_path`, with a path as its list of components. */
  function PkgdbPath(root: seq<string>): (r: seq<string>)
    ensures |r| == |root| + 1 && r[..|root|] == root && r[|root|] == PKGDB_DIR
  {
    root + [PKGDB_DIR]
  }

  /** `state_path`: `<root>/pkgdb/state.yml`. */
  function StatePath(root: seq<string>): (r: seq<string>)
    ensures |r| == |root| + 2 && r[..|root|] == root
    ensures r[|root|] == PKGDB_DIR && r[|root| + 1] == STATE_FILE
  {
    PkgdbPath(root) + [STATE_FILE]
  }

  /** What looking at the state file gave: the path could not be checked,
      there is no file, or the file was read and decoded (or failed to
      decode). */
  datatype StateFile = Unreadable(cause: string) | Missing | Found(decoded: Result<State, DBError>)

  /** `load_state`: a missing file is the empty state. */
  function LoadState(file: StateFile): (r: Result<State, DBError>)
    ensures file.Missing? ==> r == Ok(State(map[]))
    ensures file.Unreadable? ==> r == Err(PathUnavailable(file.cause))
    ensures file.Found? ==> r == file.decoded
  {
    match file
    case Unreadable(cause) => Err(PathUnavailable(cause))
    case Missing => Ok(State(map[]))
    case Found(decoded) => decoded
  }

  /** The state after a request for `spec`: the request is filed under its
      name, replacing any earlier one. */
  function Request(s: State, spec: T.PackageSpecifier): (r: State)
    ensures spec.name in r.requested && r.requested[spec.name] == PackageRequest(spec.name, spec.version)
    ensures r.requested.Keys == s.requested.Keys + {spec.name}
    ensures forall p :: p in s.requested && p != spec.name ==> r.requested[p] == s.requested[p]
  {
    State(s.requested[spec.name := PackageRequest(spec.name, spec.version)])
  }

  /** Requests keep every request under its own name. */
  lemma RequestKeepsKeysMatch(s: State, spec: T.PackageSpecifier)
    requires KeysMatch(s)
    ensures KeysMatch(Request(s, spec))
  {
  }

  /** Asking twice for the same package leaves one request, the later
      one. */
  lemma RequestReplaces(s: State, a: T.PackageSpecifier, b: T.PackageSpecifier)
    requires a.name == b.name
    ensures Request(Request(s, a), b) == Request(s, b)
  {
    assert Request(Request(s, a), b).requested == Request(s, b).requested;
  }

  /** `Database`: the root of the installation and the loaded state. */
  class Database {
    var fs: seq<string>
    var state: State

    constructor (fs: seq<string>, state: State)
      ensures this.fs == fs && this.state == state
    {
      this.fs := fs;
      this.state := state;
    }

    /** `Database::add`: files the request, then saves the state; `saved`
        is the outcome of saving. The request stays in memory even when
        saving fails. */
    method Add(spec: T.PackageSpecifier, saved: Result<(), DBError>) returns (r: Result<(), DBError>)
      modifies this
      ensures state == Request(old(state), spec)
      ensures KeysMatch(old(state)) ==> KeysMatch(state)
      ensures fs == old(fs)
      ensures r == saved
    {
      state := State(state.requested[spec.name := PackageRequest(spec.name, spec.version)]);
      if KeysMatch(old(state)) {
        RequestKeepsKeysMatch(old(state), spec);
      }
      r := saved;
    }
  }

  /** `Database::new`: the loaded state, or the error loading it gave. */
  method New(fs: seq<string>, file: StateFile) returns (r: Result<Database, DBError>)
    ensures LoadState(file).Err? <==> r.Err?
    ensures r.Err? ==> r.error == LoadState(file).error
    ensures r.Ok? ==> fresh(r.value) && r.value.fs == fs && r.value.state == LoadState(file).value
  {
    var loaded := LoadState(file);
    match loaded {
      case Err(e) =>
        r := Err(e);
      case Ok(state) =>
        var db := new Database(fs, state);
        r := Ok(db);
    }
  }
}
