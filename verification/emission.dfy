/**
 * The run as a whole: collect the references under both roots, merge them,
 * and emit one named record per reference whose table is not empty. The
 * sequence number in the names is threaded through the loop explicitly.
 * Serialising and writing the records is not modelled.
 */
module Emission {
  import opened Results
  import opened Text
  import opened Paths
  import opened Resolution
  import opened Bundles
  import opened Collection
  import opened Aggregation

  /** One emitted output file: its name, its sequence number, the reference and its table. */
  datatype Record = Record(name: string, number: nat, bundle: Localizable, table: Table)

  /** Why a run aborts. */
  datatype RunError =
    /** A table file's bundle root could not be resolved during collection. */
    | Unresolved(cause: ResolveError)
    /** A collected bundle path no longer loads as a bundle. */
    | BundleUnavailable(bundlePath: Path)

  /** The sequence number of the first record. */
  const FirstNumber: nat := 1

  /** Framework name, followed by the table file's basename when the reference came from one. */
  function NameStem(l: Localizable): string {
    match l.loctablePath
    case Some(f) => l.framework + "_" + Basename(f)
    case None => l.framework
  }

  /** The output file name of the record with sequence number `n`. */
  function OutputName(l: Localizable, n: nat): string {
    NameStem(l) + "_" + Decimal(n) + ".json"
  }

  /** Positions of the separator and of the digits in `stem + "_" + digits + ext`. */
  lemma NameLayout(stem: string, digits: string, ext: string, i: int)
    ensures (stem + "_" + digits + ext)[|stem|] == '_'
    ensures 0 <= i < |digits| ==> (stem + "_" + digits + ext)[|stem| + 1 + i] == digits[i]
  {
  }

  /** A name ending in `_`, a digit string and a fixed suffix determines that digit string. */
  lemma DigitsAfterLastUnderscore(s1: string, d1: string, s2: string, d2: string, ext: string)
    requires AllDigits(d1) && AllDigits(d2)
    requires s1 + "_" + d1 + ext == s2 + "_" + d2 + ext
    ensures d1 == d2
  {
    NameLayout(s1, d1, ext, |s2| - |s1| - 1);
    NameLayout(s2, d2, ext, |s1| - |s2| - 1);
    assert |d1| == |d2|;
    forall i | 0 <= i < |d1| ensures d1[i] == d2[i] {
      NameLayout(s1, d1, ext, i);
      NameLayout(s2, d2, ext, i);
    }
  }

  /** Records with different sequence numbers get different names, whatever their references. */
  lemma OutputNamesDistinct(a: Localizable, b: Localizable, n: nat, m: nat)
    requires n != m
    ensures OutputName(a, n) != OutputName(b, m)
  {
    if OutputName(a, n) == OutputName(b, m) {
      DigitsAfterLastUnderscore(NameStem(a), Decimal(n), NameStem(b), Decimal(m), ".json");
      DecimalInjective(n, m);
    }
  }

  /** How the emission loop obtains a reference's translation table. */
  type TableOf = Localizable -> Table

  /** The references whose table is not empty, in their order. */
  function Emittable(locs: seq<Localizable>, tableOf: TableOf): seq<Localizable> {
    if |locs| == 0 then []
    else Emittable(locs[..|locs| - 1], tableOf) + (if tableOf(locs[|locs| - 1]) != map[] then [locs[|locs| - 1]] else [])
  }

  /**
   * The emittable references are exactly those of `locs` whose table is not
   * empty, and they keep the bundle paths distinct when `locs` does.
   */
  lemma {:induction false} EmittableSpec(locs: seq<Localizable>, tableOf: TableOf)
    ensures var r := Emittable(locs, tableOf);
      && (forall i :: 0 <= i < |r| ==> r[i] in locs && tableOf(r[i]) != map[])
      && (forall x :: x in locs && tableOf(x) != map[] ==> x in r)
      && (Distinct(locs) ==> Distinct(r))
  {
    if |locs| > 0 {
      var init, last := locs[..|locs| - 1], locs[|locs| - 1];
      EmittableSpec(init, tableOf);
      assert forall x :: x in locs <==> x in init || x == last;
      assert Distinct(locs) ==> Distinct(init);
      assert Distinct(locs) ==> forall x :: x in init ==> x.bundlePath != last.bundlePath;
    }
  }

  /** `out` holds the records for `emitted`, numbered consecutively from `FirstNumber`. */
  ghost predicate Numbered(out: seq<Record>, emitted: seq<Localizable>, tableOf: TableOf) {
    && |out| == |emitted|
    && forall k :: 0 <= k < |out| ==>
         out[k] == Record(OutputName(emitted[k], FirstNumber + k), FirstNumber + k, emitted[k], tableOf(emitted[k]))
  }

  /** Extending the scanned prefix by one reference extends the emittable ones by it when its table is not empty. */
  lemma EmittableSnoc(locs: seq<Localizable>, i: nat, tableOf: TableOf)
    requires i < |locs|
    ensures Emittable(locs[..i + 1], tableOf) ==
      Emittable(locs[..i], tableOf) + (if tableOf(locs[i]) != map[] then [locs[i]] else [])
  {
    assert locs[..i + 1][..i] == locs[..i];
  }

  /** Emitting the next reference under the next sequence number keeps the records consecutively numbered. */
  lemma NumberedSnoc(out: seq<Record>, emitted: seq<Localizable>, l: Localizable, tableOf: TableOf)
    requires Numbered(out, emitted, tableOf)
    ensures Numbered(out + [Record(OutputName(l, FirstNumber + |out|), FirstNumber + |out|, l, tableOf(l))],
                     emitted + [l], tableOf)
  {
  }

  /** Consecutively numbered records carry increasing numbers and pairwise different names. */
  lemma NumberedDistinct(out: seq<Record>, emitted: seq<Localizable>, tableOf: TableOf)
    requires Numbered(out, emitted, tableOf)
    ensures forall i, j :: 0 <= i < j < |out| ==> out[i].number < out[j].number && out[i].name != out[j].name
  {
    forall a, b | 0 <= a < b < |out| ensures out[a].name != out[b].name {
      OutputNamesDistinct(emitted[a], emitted[b], FirstNumber + a, FirstNumber + b);
    }
  }

  /**
   * The emission loop: each reference must still load as a bundle; its table is
   * built, skipped when empty, and otherwise emitted under the current sequence
   * number, which then advances by one.
   */
  method EmitRecords(locs: seq<Localizable>, isLoadable: Path -> bool, tableOf: TableOf) returns (r: Result<seq<Record>, RunError>)
    ensures r.Ok? <==> forall i :: 0 <= i < |locs| ==> isLoadable(locs[i].bundlePath)
    ensures r.Ok? ==> Numbered(r.value, Emittable(locs, tableOf), tableOf)
    ensures r.Ok? ==> forall k :: 0 <= k < |r.value| ==> r.value[k].table != map[]
    ensures r.Ok? ==> forall i, j :: 0 <= i < j < |r.value| ==>
      r.value[i].number < r.value[j].number && r.value[i].name != r.value[j].name
  {
    var out: seq<Record> := [];
    var counter: nat := FirstNumber;
    var i := 0;
    while i < |locs|
      invariant 0 <= i <= |locs|
      invariant forall j :: 0 <= j < i ==> isLoadable(locs[j].bundlePath)
      invariant counter == FirstNumber + |out|
      invariant Numbered(out, Emittable(locs[..i], tableOf), tableOf)
    {
      var l := locs[i];
      if !isLoadable(l.bundlePath) {
        return Err(BundleUnavailable(l.bundlePath));
      }
      var table := tableOf(l);
      EmittableSnoc(locs, i, tableOf);
      if table != map[] {
        NumberedSnoc(out, Emittable(locs[..i], tableOf), l, tableOf);
        out := out + [Record(OutputName(l, counter), counter, l, table)];
        counter := counter + 1;
      }
      i := i + 1;
    }
    assert locs[..i] == locs;
    EmittableSpec(locs, tableOf);
    NumberedDistinct(out, Emittable(locs, tableOf), tableOf);
    r := Ok(out);
  }

  /**
   * The records emitted for `locs` are for references of `locs` with non-empty
   * tables; they inherit any property of those references, and distinct bundle
   * paths.
   */
  lemma NumberedFrom(out: seq<Record>, locs: seq<Localizable>, tableOf: TableOf, good: Localizable -> bool)
    requires Numbered(out, Emittable(locs, tableOf), tableOf)
    requires forall i :: 0 <= i < |locs| ==> good(locs[i])
    requires Distinct(locs)
    ensures forall i :: 0 <= i < |out| ==> good(out[i].bundle) && out[i].table != map[]
    ensures forall i, j :: 0 <= i < j < |out| ==> out[i].bundle.bundlePath != out[j].bundle.bundlePath
  {
    EmittableSpec(locs, tableOf);
  }

  /** Every reference of the merged collections is well formed. */
  lemma MergedWellFormed(systemFiles: seq<Path>, developerFiles: seq<Path>, isLoadable: Path -> bool)
    requires CollectLocalizables(systemFiles, isLoadable).Ok?
    requires CollectLocalizables(developerFiles, isLoadable).Ok?
    ensures var first := CollectLocalizables(systemFiles, isLoadable).value;
      && Distinct(first)
      && var all := MergeRoots(first, CollectLocalizables(developerFiles, isLoadable).value);
         forall i :: 0 <= i < |all| ==> WellFormed(all[i], isLoadable)
  {
    CollectedReferences(systemFiles, isLoadable);
    CollectedReferences(developerFiles, isLoadable);
    var both := CollectLocalizables(systemFiles, isLoadable).value + CollectLocalizables(developerFiles, isLoadable).value;
    assert forall x :: x in both ==> WellFormed(x, isLoadable);
    DedupFirstDiscovery(both);
  }

  /**
   * The whole run over the files walked under the two roots: it aborts when
   * some table file cannot be resolved, and otherwise emits, with distinct
   * names and bundle paths, a record for each collected reference whose table
   * is not empty.
   */
  method Run(systemFiles: seq<Path>, developerFiles: seq<Path>, p: Platform) returns (r: Result<seq<Record>, RunError>)
    ensures r.Ok? <==>
      CollectLocalizables(systemFiles, p.isLoadable).Ok? && CollectLocalizables(developerFiles, p.isLoadable).Ok?
    ensures r.Ok? ==> forall i :: 0 <= i < |r.value| ==>
      && r.value[i].number == FirstNumber + i
      && r.value[i].name == OutputName(r.value[i].bundle, FirstNumber + i)
      && r.value[i].table == Aggregate(r.value[i].bundle, p)
      && r.value[i].table != map[]
      && WellFormed(r.value[i].bundle, p.isLoadable)
    ensures r.Ok? ==> forall i, j :: 0 <= i < j < |r.value| ==>
      r.value[i].name != r.value[j].name && r.value[i].bundle.bundlePath != r.value[j].bundle.bundlePath
    ensures r.Ok? ==>
      var first := CollectLocalizables(systemFiles, p.isLoadable).value;
      && Distinct(first)
      && Numbered(r.value, Emittable(MergeRoots(first, CollectLocalizables(developerFiles, p.isLoadable).value), TableBuilder(p)),
                  TableBuilder(p))
  {
    var first := CollectLocalizables(systemFiles, p.isLoadable);
    if first.Err? {
      return Err(Unresolved(first.error));
    }
    var second := CollectLocalizables(developerFiles, p.isLoadable);
    if second.Err? {
      return Err(Unresolved(second.error));
    }
    MergedWellFormed(systemFiles, developerFiles, p.isLoadable);
    var all := MergeRoots(first.value, second.value);
    r := EmitRecords(all, p.isLoadable, TableBuilder(p));
    if r.Ok? {
      NumberedFrom(r.value, all, TableBuilder(p), l => WellFormed(l, p.isLoadable));
    }
  }
}
