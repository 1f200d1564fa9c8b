/** The resolver's package names (mqpkg/src/resolver/types/name.rs): a
    package name, or the root that stands for the user's requests. */
module Names {
  import opened Results
  import T = Types

  /** The name the root carries. It holds a space, so no parsed package name
      can be equal to it. */
  const ROOT_NAME: string := "requested packages"

  datatype Name = Name(root: bool, name: T.PackageName)

  /** `Name::new`, which panics on the root's name. */
  function New(name: T.PackageName): (n: Name)
    requires name.value != ROOT_NAME
    ensures !IsRoot(n) && ToPackageName(n) == name
  {
    Name(false, name)
  }

  /** `Name::root`. */
  function Root(): (n: Name)
    ensures IsRoot(n) && Text(n) == ROOT_NAME
  {
    Name(true, T.PackageName(ROOT_NAME))
  }

  predicate IsRoot(n: Name) {
    n.root
  }

  /** `From<Name> for PackageName`. */
  function ToPackageName(n: Name): T.PackageName {
    n.name
  }

  /** `Display`. */
  function Text(n: Name): string {
    n.name.value
  }

  /** A name either constructor can build: the root flag is set exactly on
      the root's name. */
  predicate Valid(n: Name) {
    n.root <==> n.name.value == ROOT_NAME
  }

  /** A package name goes in and comes back out unchanged, and the name it
      makes is never the root. */
  lemma RoundTrip(pn: T.PackageName)
    requires pn.value != ROOT_NAME
    ensures ToPackageName(New(pn)) == pn
    ensures New(pn) != Root()
    ensures Valid(New(pn)) && Valid(Root())
  {
  }

  /** The root's name does not parse: its space is an invalid character. */
  lemma RootNameNeverParses()
    ensures T.Parse(ROOT_NAME) == Err(T.InvalidCharacter(ROOT_NAME, " "))
  {
    assert ROOT_NAME[9] == ' ';
    assert forall j :: 0 <= j < 9 ==> T.IsAsciiAlnum(ROOT_NAME[j]);
    assert T.FirstNonAlnum(ROOT_NAME) == Some(9);
  }

  /** So every parsed package name can be made a `Name`, and it is never the
      root. */
  lemma ParsedNameIsNotRoot(value: string)
    requires T.Parse(value).Ok?
    ensures T.Parse(value).value.value != ROOT_NAME
    ensures New(T.Parse(value).value) != Root()
  {
    T.LowerKeepsValid(value);
    assert !T.IsAsciiAlnum(ROOT_NAME[9]);
  }
}
