/**
 * Collecting bundle references from the files found under one root, and
 * merging the references of the two scanned roots. The walk itself is not
 * modelled: its output is given as the sequence of file paths it visits.
 */
module Collection {
  import opened Results
  import opened Paths
  import opened Resolution
  import opened Bundles

  /** A per-key string table file. */
  predicate IsStringsFile(file: Path) {
    Extension(file) == Some("strings")
  }

  /** A consolidated multi-locale table file. */
  predicate IsLoctableFile(file: Path) {
    Extension(file) == Some("loctable")
  }

  /** A file that the walk hands to bundle-root resolution. */
  predicate IsTableFile(file: Path) {
    IsStringsFile(file) || IsLoctableFile(file)
  }

  /** How the walk finds the bundle root of a table file. */
  type Resolver = Path -> Result<Path, ResolveError>

  /** The resolver the tool uses: the ancestor ladder with the platform's loadability test. */
  function RootResolver(isLoadable: Path -> bool): Resolver {
    file => Resolve(file, isLoadable)
  }

  /** The reference a collected entry should be for its bundle root and origin. */
  predicate WellFormed(l: Localizable, isLoadable: Path -> bool) {
    && l.framework == Basename(l.bundlePath)
    && isLoadable(l.bundlePath)
    && (l.loctablePath.Some? ==>
          IsLoctableFile(l.loctablePath.value) && Resolve(l.loctablePath.value, isLoadable) == Ok(l.bundlePath))
  }

  /**
   * The reference one visited file proposes before deduplication: none for an
   * unrelated file, an error when its bundle root cannot be resolved.
   */
  function Candidate(file: Path, resolve: Resolver): (r: Result<Option<Localizable>, ResolveError>)
    ensures r.Err? <==> IsTableFile(file) && resolve(file).Err?
    ensures r == Ok(None) <==> !IsTableFile(file)
    ensures r.Ok? && r.value.Some? ==>
      && resolve(file) == Ok(r.value.value.bundlePath)
      && r.value.value.framework == Basename(r.value.value.bundlePath)
      && r.value.value.loctablePath == (if IsLoctableFile(file) then Some(file) else None)
  {
    if !IsTableFile(file) then Ok(None)
    else
      match resolve(file)
      case Err(e) => Err(e)
      case Ok(root) =>
        Ok(Some(Localizable(Basename(root), root, if IsLoctableFile(file) then Some(file) else None)))
  }

  /** The references a candidate contributes: none or one. */
  function Proposed(c: Option<Localizable>): seq<Localizable> {
    if c.Some? then [c.value] else []
  }

  /** `l` is the reference proposed for `file`. */
  predicate ProposedFor(l: Localizable, file: Path, resolve: Resolver) {
    && resolve(file) == Ok(l.bundlePath)
    && l.framework == Basename(l.bundlePath)
    && l.loctablePath == (if IsLoctableFile(file) then Some(file) else None)
  }

  /** The proposed references of all files in walk order, or the first file's resolution error. */
  function Candidates(files: seq<Path>, resolve: Resolver): (r: Result<seq<Localizable>, ResolveError>)
    ensures r.Ok? ==> forall i :: 0 <= i < |r.value| ==>
      exists k :: 0 <= k < |files| && ProposedFor(r.value[i], files[k], resolve)
    decreases |files|
  {
    if |files| == 0 then Ok([])
    else
      match Candidate(files[0], resolve)
      case Err(e) => Err(e)
      case Ok(c) =>
        match Candidates(files[1..], resolve)
        case Err(e) => Err(e)
        case Ok(rest) =>
          var r := Proposed(c) + rest;
          assert forall i :: |Proposed(c)| <= i < |r| ==> r[i] == rest[i - |Proposed(c)|];
          assert forall k :: 0 <= k < |files| - 1 ==> files[1..][k] == files[k + 1];
          Ok(r)
  }

  /** The two ordered sets the walk maintains: bundle roots seen via string tables, and references. */
  datatype CollectState = CollectState(bundles: seq<Path>, found: seq<Localizable>)

  /** Processing one visited file, exactly as the walk's loop body does. */
  function Step(st: CollectState, file: Path, resolve: Resolver): Result<CollectState, ResolveError> {
    if !IsTableFile(file) then Ok(st)
    else
      match resolve(file)
      case Err(e) => Err(e)
      case Ok(root) =>
        if IsLoctableFile(file) then
          Ok(CollectState(st.bundles, Append(st.found, Localizable(Basename(root), root, Some(file)))))
        else if root !in st.bundles then
          Ok(CollectState(st.bundles + [root], Append(st.found, Localizable(Basename(root), root, None))))
        else Ok(st)
  }

  function CollectFrom(st: CollectState, files: seq<Path>, resolve: Resolver): Result<CollectState, ResolveError>
    decreases |files|
  {
    if |files| == 0 then Ok(st)
    else
      match Step(st, files[0], resolve)
      case Err(e) => Err(e)
      case Ok(st') => CollectFrom(st', files[1..], resolve)
  }

  /** Every bundle root recorded from a string table already has a reference. */
  ghost predicate BundlesRecorded(st: CollectState) {
    forall b :: b in st.bundles ==> HasBundle(st.found, b)
  }

  /**
   * One step fails exactly when the file's candidate does; otherwise it appends
   * that candidate to the references and keeps the recorded roots covered.
   */
  lemma StepIsAppend(st: CollectState, f: Path, resolve: Resolver)
    requires BundlesRecorded(st)
    ensures Step(st, f, resolve).Ok? <==> Candidate(f, resolve).Ok?
    ensures Step(st, f, resolve).Ok? ==> BundlesRecorded(Step(st, f, resolve).value)
    ensures Step(st, f, resolve).Ok? ==>
      Step(st, f, resolve).value.found == AppendAll(st.found, Proposed(Candidate(f, resolve).value))
  {
    var c := Candidate(f, resolve);
    if c.Ok? && c.value.Some? {
      var x := c.value.value;
      var st' := Step(st, f, resolve).value;
      assert AppendAll(st.found, [x]) == Append(st.found, x);
      if IsLoctableFile(f) || x.bundlePath !in st.bundles {
        assert st'.found == Append(st.found, x);
        if !HasBundle(st.found, x.bundlePath) {
          assert st'.found[..|st.found|] == st.found;
        }
      }
    }
  }

  /** `Candidates` of a non-empty walk, in terms of its first file and the rest. */
  lemma CandidatesCons(files: seq<Path>, resolve: Resolver)
    requires |files| > 0
    ensures Candidates(files, resolve).Ok? <==>
      Candidate(files[0], resolve).Ok? && Candidates(files[1..], resolve).Ok?
    ensures Candidates(files, resolve).Ok? ==>
      Candidates(files, resolve).value ==
        Proposed(Candidate(files[0], resolve).value) + Candidates(files[1..], resolve).value
  {
  }

  /** Every visited table file of a successful walk has its resolved root among the proposals. */
  lemma {:induction false} CandidatesCover(files: seq<Path>, resolve: Resolver)
    requires Candidates(files, resolve).Ok?
    ensures forall k :: 0 <= k < |files| && IsTableFile(files[k]) ==>
      resolve(files[k]).Ok? && HasBundle(Candidates(files, resolve).value, resolve(files[k]).value)
    decreases |files|
  {
    if |files| > 0 {
      CandidatesCons(files, resolve);
      var head := Proposed(Candidate(files[0], resolve).value);
      var rest := Candidates(files[1..], resolve).value;
      var r := Candidates(files, resolve).value;
      assert r == head + rest;
      CandidatesCover(files[1..], resolve);
      forall k | 0 <= k < |files| && IsTableFile(files[k])
        ensures resolve(files[k]).Ok? && HasBundle(r, resolve(files[k]).value)
      {
        if k == 0 {
          assert r[0].bundlePath == resolve(files[0]).value;
          HasBundleAt(r, resolve(files[0]).value);
        } else {
          assert files[1..][k - 1] == files[k];
          var root := resolve(files[k]).value;
          HasBundleAt(rest, root);
          var i :| 0 <= i < |rest| && rest[i].bundlePath == root;
          assert r[|head| + i] == rest[i];
          HasBundleAt(r, root);
        }
      }
    }
  }

  /** The walk aborts exactly when some file's candidate fails to resolve. */
  lemma {:induction false} CollectFromFails(st: CollectState, files: seq<Path>, resolve: Resolver)
    ensures CollectFrom(st, files, resolve).Ok? <==> Candidates(files, resolve).Ok?
    decreases |files|
  {
    if |files| > 0 {
      var c := Candidate(files[0], resolve);
      assert Step(st, files[0], resolve).Ok? <==> c.Ok?;
      CandidatesCons(files, resolve);
      if c.Ok? {
        CollectFromFails(Step(st, files[0], resolve).value, files[1..], resolve);
      }
    }
  }

  /** A successful walk appends the candidates of every file it visits, in order. */
  lemma {:induction false} CollectFromIsAppendAll(st: CollectState, files: seq<Path>, resolve: Resolver)
    requires BundlesRecorded(st)
    requires CollectFrom(st, files, resolve).Ok? && Candidates(files, resolve).Ok?
    ensures CollectFrom(st, files, resolve).value.found == AppendAll(st.found, Candidates(files, resolve).value)
    decreases |files|
  {
    if |files| > 0 {
      var c := Candidate(files[0], resolve);
      StepIsAppend(st, files[0], resolve);
      CandidatesCons(files, resolve);
      var st' := Step(st, files[0], resolve).value;
      var rest := Candidates(files[1..], resolve).value;
      CollectFromIsAppendAll(st', files[1..], resolve);
      if c.value.Some? {
        assert ([c.value.value] + rest)[1..] == rest;
      } else {
        assert [] + rest == rest;
      }
    }
  }

  lemma CollectFromSpec(files: seq<Path>, resolve: Resolver)
    ensures CollectFrom(CollectState([], []), files, resolve).Ok? <==> Candidates(files, resolve).Ok?
    ensures CollectFrom(CollectState([], []), files, resolve).Ok? ==>
      CollectFrom(CollectState([], []), files, resolve).value.found == Dedup(Candidates(files, resolve).value)
  {
    CollectFromFails(CollectState([], []), files, resolve);
    if Candidates(files, resolve).Ok? {
      CollectFromIsAppendAll(CollectState([], []), files, resolve);
      AppendAllIsDedup([], Candidates(files, resolve).value);
      assert [] + Candidates(files, resolve).value == Candidates(files, resolve).value;
    }
  }

  /** The walk's loop over the visited files, with any resolver. */
  function CollectWith(files: seq<Path>, resolve: Resolver): (r: Result<seq<Localizable>, ResolveError>)
    ensures r.Ok? <==> Candidates(files, resolve).Ok?
    ensures r.Ok? ==> r.value == Dedup(Candidates(files, resolve).value)
  {
    CollectFromSpec(files, resolve);
    match CollectFrom(CollectState([], []), files, resolve)
    case Err(e) => Err(e)
    case Ok(st) => Ok(st.found)
  }

  /** The references collected under one root by `collectLocalizables`. */
  function CollectLocalizables(files: seq<Path>, isLoadable: Path -> bool): Result<seq<Localizable>, ResolveError> {
    CollectWith(files, RootResolver(isLoadable))
  }

  /**
   * With any resolver, a successful collection holds one reference per bundle
   * path, each the first one proposed for its path, in first-discovery order.
   */
  lemma CollectedWith(files: seq<Path>, resolve: Resolver)
    requires CollectWith(files, resolve).Ok?
    ensures var c := Candidates(files, resolve).value;
            var r := CollectWith(files, resolve).value;
      && Distinct(r)
      && (forall i :: 0 <= i < |r| ==> exists k :: 0 <= k < |files| && ProposedFor(r[i], files[k], resolve))
      && (forall k :: 0 <= k < |files| && IsTableFile(files[k]) ==>
            resolve(files[k]).Ok? && HasBundle(r, resolve(files[k]).value))
      && (forall p :: HasBundle(r, p) <==> HasBundle(c, p))
      && (forall i :: 0 <= i < |r| ==> HasBundle(c, r[i].bundlePath) && r[i] == c[FirstIndex(c, r[i].bundlePath)])
      && (forall i, j :: 0 <= i < j < |r| ==>
            HasBundle(c, r[i].bundlePath) && HasBundle(c, r[j].bundlePath) &&
            FirstIndex(c, r[i].bundlePath) < FirstIndex(c, r[j].bundlePath))
  {
    var c := Candidates(files, resolve).value;
    DedupDistinct(c);
    DedupCovers(c);
    DedupFirstDiscovery(c);
    CandidatesCover(files, resolve);
  }

  /** A reference proposed by the tool's resolver for a table file is well formed. */
  lemma ProposedWellFormed(l: Localizable, file: Path, isLoadable: Path -> bool)
    requires ProposedFor(l, file, RootResolver(isLoadable))
    ensures WellFormed(l, isLoadable)
  {
  }

  /**
   * A successful collection holds one well-formed reference per bundle path,
   * each the first one proposed for its path, in first-discovery order.
   */
  lemma CollectedReferences(files: seq<Path>, isLoadable: Path -> bool)
    requires CollectLocalizables(files, isLoadable).Ok?
    ensures var c := Candidates(files, RootResolver(isLoadable)).value;
            var r := CollectLocalizables(files, isLoadable).value;
      && Distinct(r)
      && (forall i :: 0 <= i < |r| ==> WellFormed(r[i], isLoadable))
      && (forall k :: 0 <= k < |files| && IsTableFile(files[k]) ==>
            Resolve(files[k], isLoadable).Ok? && HasBundle(r, Resolve(files[k], isLoadable).value))
      && (forall p :: HasBundle(r, p) <==> HasBundle(c, p))
      && (forall i :: 0 <= i < |r| ==> HasBundle(c, r[i].bundlePath) && r[i] == c[FirstIndex(c, r[i].bundlePath)])
      && (forall i, j :: 0 <= i < j < |r| ==>
            HasBundle(c, r[i].bundlePath) && HasBundle(c, r[j].bundlePath) &&
            FirstIndex(c, r[i].bundlePath) < FirstIndex(c, r[j].bundlePath))
  {
    var resolve := RootResolver(isLoadable);
    var r := CollectLocalizables(files, isLoadable).value;
    CollectedWith(files, resolve);
    forall i | 0 <= i < |r| ensures WellFormed(r[i], isLoadable) {
      var k :| 0 <= k < |files| && ProposedFor(r[i], files[k], resolve);
      ProposedWellFormed(r[i], files[k], isLoadable);
    }
  }

  /** Adding the references of the second root to those of the first (the ordered-set appends of the caller). */
  function MergeRoots(first: seq<Localizable>, second: seq<Localizable>): (r: seq<Localizable>)
    requires Distinct(first)
    ensures r == Dedup(first + second)
    ensures Distinct(r)
  {
    DedupOfDistinct(first);
    AppendAllIsDedup(first, second);
    DedupDistinct(first + second);
    AppendAll(first, second)
  }
}
