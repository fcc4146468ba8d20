/**
 * Pack paths from file-system paths (packer/src/pack_path.rs). A
 * `std::path::Path` is modelled by the sequence of components
 * `Path::components` yields; the OS string of a component is either valid
 * UTF-8 text or raw bytes that are not.
 */
module PackerPackPath {
  import opened Wrappers
  import opened Bytes
  import opened Seqs
  import Common

  /** An `OsStr`: convertible to `&str` or not. */
  datatype OsString = Unicode(text: Text) | NonUnicode(raw: seq<byte>)

  /** `std::path::Component`. */
  datatype Component =
    | Prefix(prefix: OsString)
    | RootDir
    | CurDir
    | ParentDir
    | Normal(name: OsString)

  datatype PackPathError =
    /** "relative path must not contain only standard path items" */
    | NonNormalComponent(component: Component)
    /** "cannot convert path component to string" */
    | NonUnicodeComponent

  /** "/" */
  const SLASH: byte := 0x2F

  /** `Path::is_relative` with Unix rules: no root directory. */
  predicate IsRelative(components: seq<Component>)
  {
    forall i :: 0 <= i < |components| ==> components[i] != RootDir
  }

  /** A component the conversion accepts: a normal name that is valid UTF-8. */
  predicate Convertible(c: Component)
  {
    c.Normal? && c.name.Unicode?
  }

  /** The error the per-component check gives for a component it refuses. */
  function ComponentError(c: Component): PackPathError
    requires !Convertible(c)
  {
    if !c.Normal? then NonNormalComponent(c) else NonUnicodeComponent
  }

  /**
   * The `map(..).collect::<Result<Vec<_>, _>>()`: every component's text,
   * or the error of the first component refused.
   */
  function ComponentNames(components: seq<Component>): (r: Result<seq<Text>, PackPathError>)
    ensures r.Success? <==> forall i :: 0 <= i < |components| ==> Convertible(components[i])
    ensures r.Success? ==>
              |r.value| == |components| &&
              forall i :: 0 <= i < |components| ==> r.value[i] == components[i].name.text
    ensures r.Failure? ==>
              exists n :: 0 <= n < |components|
                && (forall i :: 0 <= i < n ==> Convertible(components[i]))
                && !Convertible(components[n])
                && r.error == ComponentError(components[n])
  {
    if |components| == 0 then Success([])
    else if !Convertible(components[0]) then Failure(ComponentError(components[0]))
    else
      var rest := ComponentNames(components[1..]);
      assert forall i :: 1 <= i < |components| ==> components[i] == components[1..][i - 1];
      match rest
      case Failure(e) =>
        var n :| 0 <= n < |components[1..]|
                   && (forall i :: 0 <= i < n ==> Convertible(components[1..][i]))
                   && !Convertible(components[1..][n])
                   && e == ComponentError(components[1..][n]);
        assert !Convertible(components[n + 1]);
        Failure(e)
      case Success(names) => Success([components[0].name.text] + names)
  }

  /**
   * `from_file_base_relative_path`: the component names joined with "/"
   * behind a leading empty element, so a non-empty path starts with "/".
   */
  function FromFileBaseRelativePath(components: seq<Component>): (r: Result<Common.PackPath, PackPathError>)
    requires IsRelative(components)
    ensures r.Success? <==> ComponentNames(components).Success?
    ensures r.Failure? ==> r.error == ComponentNames(components).error
    ensures r.Success? ==> r.value.inner == Join([[]] + ComponentNames(components).value, [SLASH])
  {
    match ComponentNames(components)
    case Failure(e) => Failure(e)
    case Success(names) => Success(Common.FromString(Join([[]] + names, [SLASH])))
  }

  /** No components give the empty string, not "/": a lone empty element joins to nothing. */
  lemma NoComponentsGiveEmptyPath()
    ensures FromFileBaseRelativePath([]) == Success(Common.PackPath([]))
  {
    assert ComponentNames([]) == Success([]);
  }

  /** With at least one component the path is "/" followed by the names joined with "/". */
  lemma NonEmptyPathIsRooted(components: seq<Component>)
    requires IsRelative(components) && |components| > 0
    requires FromFileBaseRelativePath(components).Success?
    ensures var names := ComponentNames(components).value;
            FromFileBaseRelativePath(components).value.inner == [SLASH] + Join(names, [SLASH])
  {
    var names := ComponentNames(components).value;
    assert ([[]] + names)[1..] == names;
  }

  /**
   * Splitting a built path on "/" and dropping the leading empty piece gives
   * back the component names, provided no name contains "/".
   */
  lemma {:induction false} SplitRecoversComponents(components: seq<Component>)
    requires IsRelative(components)
    requires FromFileBaseRelativePath(components).Success?
    requires forall i, j :: 0 <= i < |components| && 0 <= j < |components[i].name.text| ==>
               components[i].name.text[j] != SLASH
    ensures var path := FromFileBaseRelativePath(components).value.inner;
            Split(path, [SLASH])[1..] == ComponentNames(components).value
  {
    var names := ComponentNames(components).value;
    var parts := [[]] + names;
    forall k, j | 0 <= k < |parts| && 0 <= j < |parts[k]|
      ensures parts[k][j] != SLASH
    {
      assert parts[k] == names[k - 1];
    }
    SplitJoin(parts, SLASH);
  }

  /** Any refused component makes the whole conversion fail. */
  lemma RefusedComponentFails(components: seq<Component>, k: nat)
    requires IsRelative(components) && k < |components|
    requires !Convertible(components[k])
    ensures FromFileBaseRelativePath(components).Failure?
  {
  }

  /** "somefile" becomes "/somefile"; a "." component is refused. */
  lemma Examples(name: Text)
    ensures FromFileBaseRelativePath([Normal(Unicode(name))]) == Success(Common.PackPath([SLASH] + name))
    ensures FromFileBaseRelativePath([CurDir, Normal(Unicode(name))]) == Failure(NonNormalComponent(CurDir))
    ensures FromFileBaseRelativePath([Normal(Unicode(name)), ParentDir]) == Failure(NonNormalComponent(ParentDir))
  {
    var one := [Normal(Unicode(name))];
    assert one[1..] == [];
    assert ComponentNames(one[1..]) == Success([]);
    assert [name] + [] == [name];
    assert ComponentNames(one) == Success([name]);
    assert [[]] + [name] == [[], name];
    var joined: seq<seq<byte>> := [[], name];
    assert joined[1..] == [name];
    assert Join([name], [SLASH]) == name;
    assert Join(joined, [SLASH]) == [SLASH] + name;
    var two := [Normal(Unicode(name)), ParentDir];
    assert two[1..] == [ParentDir];
    assert ComponentNames(two[1..]) == Failure(NonNormalComponent(ParentDir));
  }
}
