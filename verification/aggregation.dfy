/**
 * Building one bundle's translation table from its two sources: the
 * consolidated table file the reference came from (if any) and the string
 * tables in the bundle's locale directories. Reading and decoding files is
 * not modelled: their outcomes are given as data.
 */
module Aggregation {
  import opened Results
  import opened Text
  import opened Paths
  import opened Bundles

  /** One translation of a key: locale, translated text, and the name of the file it was read from. */
  datatype Localization = Localization(language: string, target: string, filename: string)

  /** A translation together with the key it belongs to. */
  datatype Keyed = Keyed(key: string, entry: Localization)

  /** Translations per key, each list in the order its entries were added. */
  type Table = map<string, seq<Localization>>

  /** Top-level key of a consolidated table holding bookkeeping, not translations. */
  const ProvenanceKey := "LocProvenance"

  /** Directory entries whose name ends with this are read as string tables. */
  const StringsSuffix := "strings"

  /** The list stored under `k`, empty when `k` is absent. */
  function Lookup(t: Table, k: string): seq<Localization> {
    if k in t then t[k] else []
  }

  /**
   * Append-or-create: `k`'s list becomes its old list (or the empty list)
   * followed by `e`, and every other key is left as it was.
   */
  function AddEntry(t: Table, k: string, e: Localization): (r: Table)
    ensures k in r && Lookup(r, k) == Lookup(t, k) + [e]
    ensures forall k' :: k' != k ==> (k' in r <==> k' in t) && Lookup(r, k') == Lookup(t, k')
  {
    if k in t then t[k := t[k] + [e]] else t[k := [e]]
  }

  /** Adding a sequence of translations one after the other. */
  function AddAll(t: Table, es: seq<Keyed>): Table
    decreases |es|
  {
    if |es| == 0 then t else AddAll(AddEntry(t, es[0].key, es[0].entry), es[1..])
  }

  /** The translations of `es` that belong to key `k`, in order. */
  function EntriesFor(es: seq<Keyed>, k: string): seq<Localization>
    decreases |es|
  {
    if |es| == 0 then []
    else (if es[0].key == k then [es[0].entry] else []) + EntriesFor(es[1..], k)
  }

  /** Adding `es` to a table appends to `k`'s list exactly the translations of `es` for `k`. */
  lemma {:induction false} AddAllLookup(t: Table, es: seq<Keyed>, k: string)
    ensures Lookup(AddAll(t, es), k) == Lookup(t, k) + EntriesFor(es, k)
    decreases |es|
  {
    if |es| > 0 {
      var e, rest := es[0], es[1..];
      var t' := AddEntry(t, e.key, e.entry);
      AddAllLookup(t', rest, k);
      if e.key == k {
        assert EntriesFor(es, k) == [e.entry] + EntriesFor(rest, k);
        assert Lookup(t, k) + [e.entry] + EntriesFor(rest, k) == Lookup(t, k) + ([e.entry] + EntriesFor(rest, k));
      } else {
        assert EntriesFor(es, k) == [] + EntriesFor(rest, k) == EntriesFor(rest, k);
      }
    }
  }

  /** Adding `es` to a table makes `k` present exactly when it was, or `es` has a translation for it. */
  lemma {:induction false} AddAllKeys(t: Table, es: seq<Keyed>, k: string)
    ensures k in AddAll(t, es) <==> k in t || EntriesFor(es, k) != []
    decreases |es|
  {
    if |es| > 0 {
      var e, rest := es[0], es[1..];
      var t' := AddEntry(t, e.key, e.entry);
      AddAllKeys(t', rest, k);
      assert k in t' <==> k in t || e.key == k;
      assert EntriesFor(es, k) != [] <==> e.key == k || EntriesFor(rest, k) != [];
    }
  }

  /**
   * Adding `es` to a table appends, under each key, exactly the translations
   * of `es` for that key in their order, and adds exactly the keys `es` mentions.
   */
  lemma AddAllSpec(t: Table, es: seq<Keyed>)
    ensures forall k :: Lookup(AddAll(t, es), k) == Lookup(t, k) + EntriesFor(es, k)
    ensures forall k :: k in AddAll(t, es) <==> k in t || EntriesFor(es, k) != []
  {
    forall k
      ensures Lookup(AddAll(t, es), k) == Lookup(t, k) + EntriesFor(es, k)
      ensures k in AddAll(t, es) <==> k in t || EntriesFor(es, k) != []
    {
      AddAllLookup(t, es, k);
      AddAllKeys(t, es, k);
    }
  }

  /** Starting empty and adding `a`, then `b`: under each key, the translations of `a` and then those of `b`. */
  lemma AddBothSpec(a: seq<Keyed>, b: seq<Keyed>)
    ensures forall k :: Lookup(AddAll(AddAll(map[], a), b), k) == EntriesFor(a, k) + EntriesFor(b, k)
    ensures forall k :: k in AddAll(AddAll(map[], a), b) <==> EntriesFor(a, k) != [] || EntriesFor(b, k) != []
  {
    forall k
      ensures Lookup(AddAll(AddAll(map[], a), b), k) == EntriesFor(a, k) + EntriesFor(b, k)
      ensures k in AddAll(AddAll(map[], a), b) <==> EntriesFor(a, k) != [] || EntriesFor(b, k) != []
    {
      AddBothAt(a, b, k);
    }
  }

  /** `AddBothSpec` for one key. */
  lemma AddBothAt(a: seq<Keyed>, b: seq<Keyed>, k: string)
    ensures Lookup(AddAll(AddAll(map[], a), b), k) == EntriesFor(a, k) + EntriesFor(b, k)
    ensures k in AddAll(AddAll(map[], a), b) <==> EntriesFor(a, k) != [] || EntriesFor(b, k) != []
  {
    var t := AddAll(map[], a);
    AddAllLookup(map[], a, k);
    AddAllKeys(map[], a, k);
    assert Lookup(t, k) == EntriesFor(a, k);
    AddAllLookup(t, b, k);
    AddAllKeys(t, b, k);
  }

  /** Starting empty and adding `a`, then `b`, leaves the table empty exactly when both are empty. */
  lemma AddBothEmpty(a: seq<Keyed>, b: seq<Keyed>)
    ensures AddAll(AddAll(map[], a), b) == map[] <==> a == [] && b == []
  {
    AddBothSpec(a, b);
    var t := AddAll(AddAll(map[], a), b);
    if a != [] {
      assert EntriesFor(a, a[0].key) != [];
      assert a[0].key in t;
    }
    if b != [] {
      assert EntriesFor(b, b[0].key) != [];
      assert b[0].key in t;
    }
    if a == [] && b == [] {
      forall k ensures k !in t {
        assert EntriesFor(a, k) == [] && EntriesFor(b, k) == [];
      }
    }
  }

  // ----- Source A: the consolidated table file -----

  /** A value of a consolidated table: a nested dictionary, or anything else. */
  datatype RawValue =
    /** `json` is the compact JSON text, absent when serialisation yields no data; `description` is the default rendering. */
    | Dictionary(json: Option<string>, description: string)
    | Scalar(description: string)

  /** The text stored for a value: JSON for a dictionary that serialises, else its default description. */
  function Render(v: RawValue): string {
    match v
    case Dictionary(json, description) => if json.Some? then json.value else description
    case Scalar(description) => description
  }

  /** A top-level value of a consolidated table: a string-keyed dictionary, or anything else. */
  datatype LocaleTable = KeyedValues(pairs: seq<(string, RawValue)>) | NotKeyedValues

  /** A consolidated table file as read from disk; its top-level keys are locales. */
  datatype LoctableFile = Unreadable | PropertyList(locales: seq<(string, LocaleTable)>)

  /** The top-level entries once the provenance key has been removed. */
  function WithoutProvenance(ls: seq<(string, LocaleTable)>): (r: seq<(string, LocaleTable)>)
    ensures forall x :: x in r <==> x in ls && x.0 != ProvenanceKey
    decreases |ls|
  {
    if |ls| == 0 then []
    else (if ls[0].0 == ProvenanceKey then [] else [ls[0]]) + WithoutProvenance(ls[1..])
  }

  /** Every entry under another key is kept as many times as it occurs; none under the provenance key is. */
  lemma {:induction false} WithoutProvenanceCount(ls: seq<(string, LocaleTable)>)
    ensures forall x :: multiset(WithoutProvenance(ls))[x] == if x.0 == ProvenanceKey then 0 else multiset(ls)[x]
    decreases |ls|
  {
    if |ls| > 0 {
      assert ls == [ls[0]] + ls[1..];
      WithoutProvenanceCount(ls[1..]);
    }
  }

  /**
   * Removing the provenance key works entry by entry: it distributes over
   * concatenation and keeps a single entry exactly when its key is another one.
   */
  lemma {:induction false} WithoutProvenanceAppend(a: seq<(string, LocaleTable)>, b: seq<(string, LocaleTable)>)
    ensures WithoutProvenance(a + b) == WithoutProvenance(a) + WithoutProvenance(b)
    ensures |a| == 1 ==> WithoutProvenance(a) == (if a[0].0 == ProvenanceKey then [] else a)
    decreases |a|
  {
    if |a| == 0 {
      assert a + b == b;
    } else {
      var head := if a[0].0 == ProvenanceKey then [] else [a[0]];
      assert WithoutProvenance(a + b) == WithoutProvenance(a) + WithoutProvenance(b) by {
        calc {
          WithoutProvenance(a + b);
          == { assert (a + b)[0] == a[0] && (a + b)[1..] == a[1..] + b; }
          head + WithoutProvenance(a[1..] + b);
          == { WithoutProvenanceAppend(a[1..], b); }
          head + (WithoutProvenance(a[1..]) + WithoutProvenance(b));
          (head + WithoutProvenance(a[1..])) + WithoutProvenance(b);
        }
      }
      if |a| == 1 {
        assert a[1..] == [];
      }
    }
  }

  /** Every top-level value is a string-keyed dictionary, so the table casts to locale -> key -> value. */
  predicate AllKeyedValues(ls: seq<(string, LocaleTable)>) {
    forall i :: 0 <= i < |ls| ==> ls[i].1.KeyedValues?
  }

  /** A concatenation casts exactly when both parts do. */
  lemma AllKeyedValuesAppend(a: seq<(string, LocaleTable)>, b: seq<(string, LocaleTable)>)
    ensures AllKeyedValues(a + b) <==> AllKeyedValues(a) && AllKeyedValues(b)
  {
    if AllKeyedValues(a + b) {
      assert forall i :: 0 <= i < |a| ==> (a + b)[i] == a[i];
      assert forall i :: 0 <= i < |b| ==> (a + b)[|a| + i] == b[i];
    }
  }

  /** The number of key/value pairs over all locale entries that are dictionaries. */
  function PairCount(ls: seq<(string, LocaleTable)>): nat
    decreases |ls|
  {
    if |ls| == 0 then 0
    else (if ls[0].1.KeyedValues? then |ls[0].1.pairs| else 0) + PairCount(ls[1..])
  }

  /** `e` is the translation a consolidated-table entry of locale `l` yields. */
  predicate FromLocaleTable(l: (string, LocaleTable), filename: string, e: Keyed) {
    && l.1.KeyedValues?
    && exists j :: 0 <= j < |l.1.pairs| &&
         e == Keyed(l.1.pairs[j].0, Localization(l.0, Render(l.1.pairs[j].1), filename))
  }

  /** One locale's entries, one translation per key/value pair, in the pairs' order. */
  function PairEntries(locale: string, filename: string, pairs: seq<(string, RawValue)>): (r: seq<Keyed>)
    ensures |r| == |pairs|
    ensures forall j :: 0 <= j < |pairs| ==> r[j] == Keyed(pairs[j].0, Localization(locale, Render(pairs[j].1), filename))
    ensures forall e :: e in r <==> FromLocaleTable((locale, KeyedValues(pairs)), filename, e)
    decreases |pairs|
  {
    if |pairs| == 0 then []
    else
      var rest := PairEntries(locale, filename, pairs[1..]);
      assert forall j :: 0 <= j < |pairs| - 1 ==> pairs[1..][j] == pairs[j + 1];
      [Keyed(pairs[0].0, Localization(locale, Render(pairs[0].1), filename))] + rest
  }

  /** The translations of a table that casts, one per (locale, key) pair, locale by locale. */
  function LocaleEntries(ls: seq<(string, LocaleTable)>, filename: string): (r: seq<Keyed>)
    requires AllKeyedValues(ls)
    ensures |r| == PairCount(ls)
    ensures forall e :: e in r <==> exists l :: l in ls && FromLocaleTable(l, filename, e)
    decreases |ls|
  {
    if |ls| == 0 then []
    else
      var first := PairEntries(ls[0].0, filename, ls[0].1.pairs);
      assert ls[0] == (ls[0].0, KeyedValues(ls[0].1.pairs));
      assert forall l :: l in ls <==> l == ls[0] || l in ls[1..];
      first + LocaleEntries(ls[1..], filename)
  }

  /**
   * The translations of a table are those of its locale entries in turn: they
   * distribute over concatenation, and a single entry yields its pairs' translations.
   */
  lemma {:induction false} LocaleEntriesAppend(a: seq<(string, LocaleTable)>, b: seq<(string, LocaleTable)>, filename: string)
    requires AllKeyedValues(a) && AllKeyedValues(b)
    ensures AllKeyedValues(a + b)
    ensures LocaleEntries(a + b, filename) == LocaleEntries(a, filename) + LocaleEntries(b, filename)
    ensures |a| == 1 ==> LocaleEntries(a, filename) == PairEntries(a[0].0, filename, a[0].1.pairs)
    decreases |a|
  {
    AllKeyedValuesAppend(a, b);
    if |a| == 0 {
      assert a + b == b;
    } else {
      assert (a + b)[1..] == a[1..] + b;
      assert AllKeyedValues(a[1..]);
      LocaleEntriesAppend(a[1..], b, filename);
    }
  }

  /**
   * The translations of a consolidated table file, provenance key removed:
   * nothing when the file cannot be read or does not cast to locale -> key -> value.
   */
  function LoctableEntries(path: Path, file: LoctableFile): (r: seq<Keyed>)
    ensures forall e :: e in r ==> e.entry.language != ProvenanceKey && e.entry.filename == Basename(path)
    ensures file.Unreadable? ==> r == []
  {
    match file
    case Unreadable => []
    case PropertyList(ls) =>
      var kept := WithoutProvenance(ls);
      if AllKeyedValues(kept) then LocaleEntries(kept, Basename(path)) else []
  }

  /**
   * A readable table that casts yields exactly one translation per
   * (locale, key) entry outside the provenance key; one that does not cast yields none.
   */
  lemma LoctableEntriesMembership(path: Path, file: LoctableFile)
    requires file.PropertyList?
    ensures AllKeyedValues(WithoutProvenance(file.locales)) ==>
      forall e :: e in LoctableEntries(path, file) <==>
        exists l :: l in file.locales && l.0 != ProvenanceKey && FromLocaleTable(l, Basename(path), e)
    ensures AllKeyedValues(WithoutProvenance(file.locales)) ==>
      |LoctableEntries(path, file)| == PairCount(WithoutProvenance(file.locales))
    ensures !AllKeyedValues(WithoutProvenance(file.locales)) ==> LoctableEntries(path, file) == []
  {
  }

  /**
   * A table that casts yields its locale entries' translations in turn: the
   * entries of `a + b` are those of `a` followed by those of `b`, and a single
   * entry yields one translation per pair in order, or none under the provenance key.
   */
  lemma LoctableEntriesSplit(path: Path, a: seq<(string, LocaleTable)>, b: seq<(string, LocaleTable)>)
    ensures AllKeyedValues(WithoutProvenance(a + b)) <==>
      AllKeyedValues(WithoutProvenance(a)) && AllKeyedValues(WithoutProvenance(b))
    ensures AllKeyedValues(WithoutProvenance(a + b)) ==>
      LoctableEntries(path, PropertyList(a + b)) == LoctableEntries(path, PropertyList(a)) + LoctableEntries(path, PropertyList(b))
    ensures |a| == 1 && a[0].1.KeyedValues? ==>
      (LoctableEntries(path, PropertyList(a)) ==
       if a[0].0 == ProvenanceKey then [] else PairEntries(a[0].0, Basename(path), a[0].1.pairs))
  {
    WithoutProvenanceAppend(a, b);
    AllKeyedValuesAppend(WithoutProvenance(a), WithoutProvenance(b));
    if AllKeyedValues(WithoutProvenance(a + b)) {
      LocaleEntriesAppend(WithoutProvenance(a), WithoutProvenance(b), Basename(path));
    }
    if |a| == 1 && a[0].1.KeyedValues? && a[0].0 != ProvenanceKey {
      LocaleEntriesAppend(a, [], Basename(path));
    }
  }

  // ----- Source B: string tables in the bundle's locale directories -----

  /** What the bundle yields for a listed file: its URL's last component and its decoded string table, if any. */
  datatype StringsResource = StringsResource(lastComponent: string, decoded: Option<seq<(string, string)>>)

  /** A file listed in a locale directory; `resource` is absent when the bundle finds no URL for it or it cannot be read. */
  datatype DirEntry = DirEntry(name: string, resource: Option<StringsResource>)

  /** One locale the bundle declares; `listing` is absent when its directory is missing or cannot be listed. */
  datatype LocaleDir = LocaleDir(locale: string, listing: Option<seq<DirEntry>>)

  /** The listed file is read: its name ends in `strings`, the bundle finds it and it decodes. */
  predicate Decodes(d: DirEntry) {
    && HasSuffix(d.name, StringsSuffix)
    && d.resource.Some?
    && d.resource.value.decoded.Some?
  }

  /** `e` is a translation read from the listed file `d` of locale `locale`. */
  predicate ReadFrom(locale: string, d: DirEntry, e: Keyed) {
    && Decodes(d)
    && e.entry.language == locale
    && e.entry.filename == d.resource.value.lastComponent
    && (e.key, e.entry.target) in d.resource.value.decoded.value
  }

  /** A decoded string table's translations, one per key/value pair, in the pairs' order. */
  function StringPairEntries(locale: string, filename: string, pairs: seq<(string, string)>): (r: seq<Keyed>)
    ensures |r| == |pairs|
    ensures forall j :: 0 <= j < |pairs| ==> r[j] == Keyed(pairs[j].0, Localization(locale, pairs[j].1, filename))
    ensures forall e :: e in r <==>
      e.entry.language == locale && e.entry.filename == filename && (e.key, e.entry.target) in pairs
    decreases |pairs|
  {
    if |pairs| == 0 then []
    else
      assert forall p :: p in pairs <==> p == pairs[0] || p in pairs[1..];
      [Keyed(pairs[0].0, Localization(locale, pairs[0].1, filename))] + StringPairEntries(locale, filename, pairs[1..])
  }

  /** The translations of one listed file: none unless its name ends in `strings` and it resolves and decodes. */
  function FileEntries(locale: string, d: DirEntry): (r: seq<Keyed>)
    ensures !Decodes(d) ==> r == []
    ensures Decodes(d) ==>
      var pairs := d.resource.value.decoded.value;
      && |r| == |pairs|
      && forall j :: 0 <= j < |pairs| ==>
           r[j] == Keyed(pairs[j].0, Localization(locale, pairs[j].1, d.resource.value.lastComponent))
    ensures forall e :: e in r <==> ReadFrom(locale, d, e)
  {
    if !HasSuffix(d.name, StringsSuffix) then []
    else
      match d.resource
      case None => []
      case Some(res) =>
        match res.decoded
        case None => []
        case Some(pairs) => StringPairEntries(locale, res.lastComponent, pairs)
  }

  /** The translations of a locale directory's listed files. */
  function ListingEntries(locale: string, ds: seq<DirEntry>): (r: seq<Keyed>)
    ensures forall e :: e in r <==> exists d :: d in ds && ReadFrom(locale, d, e)
    decreases |ds|
  {
    if |ds| == 0 then []
    else
      assert forall d :: d in ds <==> d == ds[0] || d in ds[1..];
      FileEntries(locale, ds[0]) + ListingEntries(locale, ds[1..])
  }

  /** A listing starting with `d` yields `d`'s translations, then the rest's. */
  lemma ListingEntriesCons(locale: string, d: DirEntry, rest: seq<DirEntry>)
    ensures ListingEntries(locale, [d] + rest) == FileEntries(locale, d) + ListingEntries(locale, rest)
  {
  }

  /** A listing's translations are its files' in turn: they distribute over concatenation. */
  lemma {:induction false} ListingEntriesAppend(locale: string, a: seq<DirEntry>, b: seq<DirEntry>)
    ensures ListingEntries(locale, a + b) == ListingEntries(locale, a) + ListingEntries(locale, b)
    decreases |a|
  {
    if |a| == 0 {
      assert a + b == b;
    } else {
      assert ListingEntries(locale, a + b) == ListingEntries(locale, a) + ListingEntries(locale, b) by {
        calc {
          ListingEntries(locale, a + b);
          == { assert a + b == [a[0]] + (a[1..] + b); ListingEntriesCons(locale, a[0], a[1..] + b); }
          FileEntries(locale, a[0]) + ListingEntries(locale, a[1..] + b);
          == { ListingEntriesAppend(locale, a[1..], b); }
          FileEntries(locale, a[0]) + (ListingEntries(locale, a[1..]) + ListingEntries(locale, b));
          (FileEntries(locale, a[0]) + ListingEntries(locale, a[1..])) + ListingEntries(locale, b);
        }
      }
    }
  }

  /** The translations from every declared locale's directory, in locale order. */
  function DirectoryEntries(dirs: seq<LocaleDir>): (r: seq<Keyed>)
    ensures forall e :: e in r <==>
      exists l :: l in dirs && l.listing.Some? && exists d :: d in l.listing.value && ReadFrom(l.locale, d, e)
    decreases |dirs|
  {
    if |dirs| == 0 then []
    else
      assert forall l :: l in dirs <==> l == dirs[0] || l in dirs[1..];
      (if dirs[0].listing.Some? then ListingEntries(dirs[0].locale, dirs[0].listing.value) else [])
        + DirectoryEntries(dirs[1..])
  }

  /**
   * The directories' translations are each locale's in turn: they distribute
   * over concatenation, and a single locale yields its listing's translations,
   * or none when it has no listing.
   */
  lemma {:induction false} DirectoryEntriesAppend(a: seq<LocaleDir>, b: seq<LocaleDir>)
    ensures DirectoryEntries(a + b) == DirectoryEntries(a) + DirectoryEntries(b)
    ensures |a| == 1 ==>
      (DirectoryEntries(a) == if a[0].listing.Some? then ListingEntries(a[0].locale, a[0].listing.value) else [])
    decreases |a|
  {
    if |a| == 0 {
      assert a + b == b;
    } else {
      var head := if a[0].listing.Some? then ListingEntries(a[0].locale, a[0].listing.value) else [];
      assert DirectoryEntries(a + b) == DirectoryEntries(a) + DirectoryEntries(b) by {
        calc {
          DirectoryEntries(a + b);
          == { assert (a + b)[0] == a[0] && (a + b)[1..] == a[1..] + b; }
          head + DirectoryEntries(a[1..] + b);
          == { DirectoryEntriesAppend(a[1..], b); }
          head + (DirectoryEntries(a[1..]) + DirectoryEntries(b));
          (head + DirectoryEntries(a[1..])) + DirectoryEntries(b);
        }
      }
      if |a| == 1 {
        assert a[1..] == [];
      }
    }
  }

  // ----- The whole table -----

  /** The platform facilities the run consults, as given functions of a path. */
  datatype Platform = Platform(
    isLoadable: Path -> bool,
    loctableAt: Path -> LoctableFile,
    localesOf: Path -> seq<LocaleDir>)

  /** Source A for a reference: its consolidated table, if it came from one. */
  function TableSource(l: Localizable, p: Platform): seq<Keyed> {
    match l.loctablePath
    case None => []
    case Some(f) => LoctableEntries(f, p.loctableAt(f))
  }

  /** Source B for a reference: the string tables of its bundle's locale directories. */
  function DirectorySource(l: Localizable, p: Platform): seq<Keyed> {
    DirectoryEntries(p.localesOf(l.bundlePath))
  }

  /** The translation table of one reference: its consolidated table's entries, then its directories'. */
  function Aggregate(l: Localizable, p: Platform): Table {
    AddAll(AddAll(map[], TableSource(l, p)), DirectorySource(l, p))
  }

  /** The table builder the run uses, as a function of the reference. */
  function TableBuilder(p: Platform): Localizable -> Table {
    l => Aggregate(l, p)
  }

  /**
   * Under every key, the translations of the consolidated table come first,
   * then those of the locale directories, each in reading order; a key is
   * present exactly when some source has a translation for it.
   */
  lemma AggregateSpec(l: Localizable, p: Platform)
    ensures forall k :: Lookup(Aggregate(l, p), k) == EntriesFor(TableSource(l, p), k) + EntriesFor(DirectorySource(l, p), k)
    ensures forall k :: k in Aggregate(l, p) <==> EntriesFor(TableSource(l, p), k) != [] || EntriesFor(DirectorySource(l, p), k) != []
  {
    AddBothSpec(TableSource(l, p), DirectorySource(l, p));
  }

  /** A table is empty exactly when neither source yields any translation. */
  lemma AggregateEmpty(l: Localizable, p: Platform)
    ensures Aggregate(l, p) == map[] <==> TableSource(l, p) == [] && DirectorySource(l, p) == []
  {
    AddBothEmpty(TableSource(l, p), DirectorySource(l, p));
  }
}
