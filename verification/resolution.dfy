/**
 * Locating the bundle that owns a `.strings` or `.loctable` file: a ladder over
 * the file's first six ancestors, a fallback for files directly inside a locale
 * directory, and a final loadability check. Every failure aborts the run.
 */
module Resolution {
  import opened Results
  import opened Paths
  import opened Suffix
  import opened Text

  /** Number of ancestors the ladder inspects. */
  const LadderDepth: nat := 6

  datatype ResolveError =
    /** No ancestor qualified and the file's parent is not a locale directory. */
    | NoBundleRoot(file: Path)
    /** The parent is a locale directory but neither fallback candidate loads as a bundle. */
    | NoLoadableFallback(file: Path)
    /** The chosen root does not load as a bundle. */
    | NotLoadable(file: Path, root: Path)

  /** The shallowest depth in `depth .. LadderDepth` whose ancestor's extension qualifies. */
  function FirstQualifying(file: Path, depth: nat): (r: Option<nat>)
    requires 1 <= depth <= LadderDepth + 1
    ensures r.Some? ==> depth <= r.value <= LadderDepth
    ensures r.Some? ==> Qualifies(Extension(Ancestor(file, r.value)))
    ensures r.Some? ==> forall j :: depth <= j < r.value ==> !Qualifies(Extension(Ancestor(file, j)))
    ensures r.None? ==> forall j :: depth <= j <= LadderDepth ==> !Qualifies(Extension(Ancestor(file, j)))
    decreases LadderDepth + 1 - depth
  {
    if depth > LadderDepth then None
    else if Qualifies(Extension(Ancestor(file, depth))) then Some(depth)
    else FirstQualifying(file, depth + 1)
  }

  /** The bundle root owning `file`, or the reason the run must abort. */
  function Resolve(file: Path, isLoadable: Path -> bool): (r: Result<Path, ResolveError>)
    ensures r.Ok? ==> isLoadable(r.value)
    ensures r.Ok? ==> exists d :: 1 <= d <= LadderDepth && r.value == Ancestor(file, d)
  {
    var chosen :=
      match FirstQualifying(file, 1)
      case Some(d) => Ok(Ancestor(file, d))
      case None =>
        if Extension(Parent(file)) == Some(LocaleDirExtension) then
          if isLoadable(Ancestor(file, 2)) then Ok(Ancestor(file, 2))
          else if isLoadable(Ancestor(file, 3)) then Ok(Ancestor(file, 3))
          else Err(NoLoadableFallback(file))
        else Err(NoBundleRoot(file));
    match chosen
    case Err(e) => Err(e)
    case Ok(root) => if isLoadable(root) then Ok(root) else Err(NotLoadable(file, root))
  }

  /**
   * When the ancestor at depth `d` is the shallowest qualifying one, it is the
   * root, provided it loads; otherwise resolution fails with `NotLoadable`.
   */
  lemma ResolveLadder(file: Path, isLoadable: Path -> bool, d: nat)
    requires 1 <= d <= LadderDepth
    requires Qualifies(Extension(Ancestor(file, d)))
    requires forall j :: 1 <= j < d ==> !Qualifies(Extension(Ancestor(file, j)))
    ensures Resolve(file, isLoadable).Ok? <==> isLoadable(Ancestor(file, d))
    ensures Resolve(file, isLoadable).Ok? ==> Resolve(file, isLoadable).value == Ancestor(file, d)
    ensures Resolve(file, isLoadable).Err? ==> Resolve(file, isLoadable).error == NotLoadable(file, Ancestor(file, d))
  {
    var r := FirstQualifying(file, 1);
    assert r.Some? && r.value == d;
  }

  /**
   * With no qualifying ancestor, resolution succeeds only for a file directly
   * inside a locale directory, giving the grandparent if it loads and else the
   * great-grandparent if that loads.
   */
  lemma ResolveFallback(file: Path, isLoadable: Path -> bool)
    requires forall j :: 1 <= j <= LadderDepth ==> !Qualifies(Extension(Ancestor(file, j)))
    ensures Resolve(file, isLoadable).Ok? <==>
      Extension(Parent(file)) == Some(LocaleDirExtension) &&
      (isLoadable(Ancestor(file, 2)) || isLoadable(Ancestor(file, 3)))
    ensures Resolve(file, isLoadable).Ok? ==>
      Resolve(file, isLoadable).value == (if isLoadable(Ancestor(file, 2)) then Ancestor(file, 2) else Ancestor(file, 3))
    ensures Extension(Parent(file)) != Some(LocaleDirExtension) ==> Resolve(file, isLoadable) == Err(NoBundleRoot(file))
  {
    assert FirstQualifying(file, 1).None?;
  }

  /** In the framework example below, the locale directory `en.lproj` has the extension `lproj`. */
  lemma LocaleDirComponent()
    ensures NameExtension("en.lproj") == Some(LocaleDirExtension)
  {
    var lproj := "en.lproj";
    assert lproj[2] == '.' && lproj[3..] == "lproj";
    NameExtensionSplit(lproj, "lproj");
  }

  /** In the framework example below, the `Resources` directory has no extension. */
  lemma ResourcesComponent()
    ensures NameExtension("Resources") == None
  {
    var res := "Resources";
    assert forall k :: 0 <= k < |res| ==> res[k] != '.';
  }

  /** In the framework example below, `Fwk.framework` has an extension that qualifies as a bundle root. */
  lemma FrameworkComponent()
    ensures Qualifies(NameExtension("Fwk.framework"))
  {
    var fwk := "Fwk.framework";
    assert fwk[3] == '.' && fwk[4..] == "framework";
    NameExtensionSplit(fwk, "framework");
    assert forall k :: 0 <= k < |"framework"| ==> !IsDigit("framework"[k]);
  }

  /** A framework's string table in a locale directory below `Resources` resolves to the framework. */
  lemma FrameworkStringsResolveToFramework(isLoadable: Path -> bool)
    requires isLoadable(["System", "Library", "Frameworks", "Fwk.framework"])
    ensures Resolve(["System", "Library", "Frameworks", "Fwk.framework", "Resources", "en.lproj", "App.strings"], isLoadable)
      == Ok(["System", "Library", "Frameworks", "Fwk.framework"])
  {
    var file: Path := ["System", "Library", "Frameworks", "Fwk.framework", "Resources", "en.lproj", "App.strings"];
    LocaleDirComponent();
    ResourcesComponent();
    FrameworkComponent();
    assert Ancestor(file, 1) == file[..6] && file[5] == "en.lproj";
    assert Ancestor(file, 2) == file[..5] && file[4] == "Resources";
    assert Ancestor(file, 3) == ["System", "Library", "Frameworks", "Fwk.framework"];
    ResolveLadder(file, isLoadable, 3);
  }
}
