# Apple localization harvester — a Dafny model

The tool walks two system roots (`/System/Library`, then `/Developer`) for
per-key string tables (`.strings`) and consolidated multi-locale tables
(`.loctable`). It decides which bundle owns each such file and builds one
translation table per bundle. Every non-empty table is written out under a
sequentially numbered name.

This project models that core and proves its properties:

- **Suffix heuristic** (`Suffix`): a directory may be a bundle root only if it has an extension that is not `lproj`, not `pass`, and contains no match for the unanchored pattern `[0-9]+(\.[0-9]+)?`.
- **Bundle-root ladder** (`Resolution`):
  - the first six ancestors of a table file are tried, nearest first;
  - a file directly inside an `.lproj` directory falls back to its grandparent or great-grandparent, whichever loads as a bundle;
  - any other outcome, and a chosen root that does not load, aborts the run.
- **Path accessors** (`Paths`): parent, basename and extension, with the path library's extension rule.
- **Collection** (`Collection`, `Bundles`):
  - the walk's loop over visited files keeps an ordered set of references whose equality is by bundle path alone;
  - it also keeps a side set of bundle roots seen via `.strings` files;
  - the two roots' references are merged the same way.
- **Aggregation** (`Aggregation`):
  - a bundle's table is filled from its `.loctable`, with the `LocProvenance` key removed and a file that does not cast contributing nothing;
  - it is then filled from every file in its locale directories whose name ends in `strings`;
  - both sources go through the same append-or-create step.
- **Emission** (`Emission`):
  - a bundle with an empty table is skipped;
  - every other bundle gets `<framework>[_<loctable basename>]_<n>.json`, where the counter `n` starts at 1 and advances only when a record is emitted.

Paths are sequences of components. `[]` is the root, and the root is its own parent.

The platform's bundle-loading facility, the loctable reader and the locale-directory listings are given as functions of a path (`Aggregation.Platform`). The walk's output is given as the sequence of visited files.

The model follows the code, including these behaviours that are easy to miss when reading it:

- The ladder inspects six ancestor levels (`parentDirectory` chained one to six times).
- A `.loctable` file goes through the same ladder and the same loadability check as a `.strings` file. It is not simply assigned to its parent or grandparent.
- `Localizable` equality and hashing use `bundlePath` only. So the ordered set drops a `.loctable` reference whenever a reference with the same bundle path is already present, whether that reference came from a string table or from another `.loctable` file. The two do not coexist as separate records.
  - `Collection.CollectedReferences` states this outcome: the kept reference for each path is the first one proposed for it.
- The `bundles` side set of the collection loop never changes the result. `Collection.CollectWith` proves the loop equals ordered-set deduplication of the proposed references.

## Model

| member | source | states |
|---|---|---|
| Suffix.VersionPatternIffDigit | AppleLocalization/AppleLocalizationTests/AppleLocalizationTests.swift:197 | An unanchored search for `[0-9]+(\.[0-9]+)?` succeeds on a string exactly when the string contains an ASCII digit |
| Suffix.QualifiesMatchesSource | AppleLocalization/AppleLocalizationTests/AppleLocalizationTests.swift:197 | For every extension, the digit-based rule accepts it exactly when the source's test does: the extension exists, is neither `lproj` nor `pass`, and the version pattern is not found |
| Paths.Parent | AppleLocalization/AppleLocalizationTests/AppleLocalizationTests.swift:198 | The parent plus the last component gives back the path; the root is its own parent |
| Paths.Ancestor | AppleLocalization/AppleLocalizationTests/AppleLocalizationTests.swift:197-208 | Taking the parent `d` times drops exactly the last `d` components, stopping at the root |
| Paths.LastDotBefore | AppleLocalization/AppleLocalizationTests/AppleLocalizationTests.swift:195 | The result is the last dot below `n` that is not the first character, or none when no such dot exists |
| Paths.NameExtensionSplit | AppleLocalization/AppleLocalizationTests/AppleLocalizationTests.swift:195-197 | A component has extension `e` if and only if it splits at a dot past its first character into a stem and a non-empty, dot-free `e` |
| Resolution.FirstQualifying | AppleLocalization/AppleLocalizationTests/AppleLocalizationTests.swift:197-208 | Returns the nearest ancestor depth up to six whose extension qualifies, and no nearer one qualifies; returns none only when none of the six qualifies |
| Resolution.Resolve | AppleLocalization/AppleLocalizationTests/AppleLocalizationTests.swift:195-225 | A resolved root always loads as a bundle and is one of the file's first six ancestors |
| Resolution.ResolveLadder | AppleLocalization/AppleLocalizationTests/AppleLocalizationTests.swift:197-208 | When depth `d` is the nearest qualifying ancestor, resolution yields it exactly when it loads, and otherwise fails with `NotLoadable` for that ancestor |
| Resolution.ResolveFallback | AppleLocalization/AppleLocalizationTests/AppleLocalizationTests.swift:209-221 | With no qualifying ancestor, resolution succeeds exactly when the parent is an `.lproj` directory and the grandparent or great-grandparent loads; it prefers the grandparent; with a non-`lproj` parent it fails with `NoBundleRoot` |
| Resolution.FrameworkStringsResolveToFramework | AppleLocalization/AppleLocalizationTests/AppleLocalizationTests.swift:195-225 | `…/Fwk.framework/Resources/en.lproj/App.strings` resolves to `…/Fwk.framework` when the framework loads |
| Bundles.HasBundleAt | AppleLocalization/AppleLocalizationTests/AppleLocalizationTests.swift:260-266 | A reference sequence holds bundle path `p` exactly when some element has that path |
| Bundles.DedupDistinct | AppleLocalization/AppleLocalizationTests/AppleLocalizationTests.swift:233-240 | After ordered-set insertion by bundle path, no two references share a bundle path |
| Bundles.DedupCovers | AppleLocalization/AppleLocalizationTests/AppleLocalizationTests.swift:233-240 | Ordered-set insertion keeps exactly the bundle paths of its input |
| Bundles.DedupFirstDiscovery | AppleLocalization/AppleLocalizationTests/AppleLocalizationTests.swift:260-266 | Each kept reference is the first input reference with its bundle path, and kept references appear in order of first discovery |
| Bundles.DedupOfDistinct | AppleLocalization/AppleLocalizationTests/AppleLocalizationTests.swift:26-29 | Inserting references with pairwise distinct paths into an empty ordered set keeps all of them, in order |
| Bundles.AppendAllIsDedup | AppleLocalization/AppleLocalizationTests/AppleLocalizationTests.swift:26-32 | Appending references one by one to the ordered set of a prefix gives the ordered set of the whole concatenation |
| Collection.Candidate | AppleLocalization/AppleLocalizationTests/AppleLocalizationTests.swift:195-241 | A visited file proposes nothing unless it is a `.strings` or `.loctable` file; it aborts exactly when such a file's root cannot be resolved; otherwise it proposes a reference to the resolved root, named after its basename, carrying the file path only for a `.loctable` |
| Collection.Candidates | AppleLocalization/AppleLocalizationTests/AppleLocalizationTests.swift:193-243 | Every proposed reference of a walk is the proposal for one of its visited files (the converse is `Collection.CandidatesCover`) |
| Collection.CandidatesCover | AppleLocalization/AppleLocalizationTests/AppleLocalizationTests.swift:194-241 | In a successful walk every visited `.strings` or `.loctable` file resolves, and its root is the bundle path of some proposal |
| Collection.StepIsAppend | AppleLocalization/AppleLocalizationTests/AppleLocalizationTests.swift:227-241 | One iteration of the loop, side set included, fails exactly when its file's proposal fails; otherwise it performs an ordered-set append of that proposal |
| Collection.CandidatesCons | AppleLocalization/AppleLocalizationTests/AppleLocalizationTests.swift:193-195 | A walk's proposals are the first file's proposal followed by the rest's, and fail exactly when one of those fails |
| Collection.CollectFromFails | AppleLocalization/AppleLocalizationTests/AppleLocalizationTests.swift:193-225 | The collection loop aborts exactly when some visited table file cannot be resolved |
| Collection.CollectFromIsAppendAll | AppleLocalization/AppleLocalizationTests/AppleLocalizationTests.swift:193-243 | A successful loop appends every file's proposal, in walk order, to the ordered set |
| Collection.CollectFromSpec | AppleLocalization/AppleLocalizationTests/AppleLocalizationTests.swift:189-246 | From an empty state, the loop succeeds exactly when all proposals do, and yields their ordered-set deduplication |
| Collection.CollectWith | AppleLocalization/AppleLocalizationTests/AppleLocalizationTests.swift:189-246 | `collectLocalizables` succeeds exactly when every table file resolves, and returns the deduplicated proposals |
| Collection.CollectedWith | AppleLocalization/AppleLocalizationTests/AppleLocalizationTests.swift:189-246 | A collection holds each proposed bundle path exactly once; each kept reference is the first proposed for its path and was proposed by a visited file; the root of every visited table file is collected; order is by first discovery |
| Collection.ProposedWellFormed | AppleLocalization/AppleLocalizationTests/AppleLocalizationTests.swift:223-239 | A reference proposed by the ladder is named after its root's basename, its root loads, and its `.loctable` resolves to that root |
| Collection.CollectedReferences | AppleLocalization/AppleLocalizationTests/AppleLocalizationTests.swift:189-246 | A collection under one root: distinct bundle paths, all references well formed, the resolved root of every visited table file present, exactly the proposed paths, first proposal wins, first-discovery order |
| Collection.MergeRoots | AppleLocalization/AppleLocalizationTests/AppleLocalizationTests.swift:26-32 | Merging the two roots' references gives the ordered-set deduplication of their concatenation, with distinct bundle paths |
| Aggregation.AddEntry | AppleLocalization/AppleLocalizationTests/AppleLocalizationTests.swift:52-58 | Append-or-create: the key's list becomes its old list (or the empty list) plus the new translation, and every other key keeps its presence and list |
| Aggregation.AddAllLookup | AppleLocalization/AppleLocalizationTests/AppleLocalizationTests.swift:93-101 | Adding a sequence of translations appends to each key's list exactly that key's translations, in order |
| Aggregation.AddAllKeys | AppleLocalization/AppleLocalizationTests/AppleLocalizationTests.swift:93-101 | Adding a sequence of translations makes a key present exactly when it was present or the sequence has a translation for it |
| Aggregation.AddAllSpec | AppleLocalization/AppleLocalizationTests/AppleLocalizationTests.swift:52-58 | For every key at once: the list grows by exactly that key's translations in order, and the key is present exactly when it was or the sequence has a translation for it |
| Aggregation.AddBothEmpty | AppleLocalization/AppleLocalizationTests/AppleLocalizationTests.swift:106-108 | A table built from two translation sequences is empty exactly when both are empty |
| Aggregation.WithoutProvenance | AppleLocalization/AppleLocalizationTests/AppleLocalizationTests.swift:41 | Removing `LocProvenance` keeps exactly the top-level entries under other keys |
| Aggregation.WithoutProvenanceCount | AppleLocalization/AppleLocalizationTests/AppleLocalizationTests.swift:41 | Each entry under another key is kept exactly as many times as it occurs, and no entry under `LocProvenance` is kept |
| Aggregation.WithoutProvenanceAppend | AppleLocalization/AppleLocalizationTests/AppleLocalizationTests.swift:41 | The removal works entry by entry, keeping order: it distributes over concatenation, and a single entry is kept exactly when its key is not `LocProvenance` |
| Aggregation.AllKeyedValuesAppend | AppleLocalization/AppleLocalizationTests/AppleLocalizationTests.swift:43 | The cast to locale -> key -> value succeeds on a concatenation of entries exactly when it succeeds on both parts |
| Aggregation.PairEntries | AppleLocalization/AppleLocalizationTests/AppleLocalizationTests.swift:45-59 | One locale's entries yield one translation per key/value pair, in the pairs' order, with the rendered value, the locale and the table's file name; nothing else |
| Aggregation.LocaleEntries | AppleLocalization/AppleLocalizationTests/AppleLocalizationTests.swift:43-61 | A table that casts yields exactly the translations of its locale entries, and as many translations as it has (locale, key) pairs |
| Aggregation.LocaleEntriesAppend | AppleLocalization/AppleLocalizationTests/AppleLocalizationTests.swift:44-60 | The nested loop handles one locale after another: the translations of a concatenation are those of its parts in turn, and a single locale yields one translation per pair, by position |
| Aggregation.LoctableEntries | AppleLocalization/AppleLocalizationTests/AppleLocalizationTests.swift:37-64 | No translation from a consolidated table has the provenance key as its locale; all carry the table's file name; an unreadable file yields none |
| Aggregation.LoctableEntriesMembership | AppleLocalization/AppleLocalizationTests/AppleLocalizationTests.swift:40-63 | A readable table that casts yields a translation for each (locale, key) entry outside `LocProvenance` and nothing else, as many as there are such pairs; one that does not cast yields nothing |
| Aggregation.LoctableEntriesSplit | AppleLocalization/AppleLocalizationTests/AppleLocalizationTests.swift:40-63 | A table casts exactly when each part of its locale entries does; its translations are then each part's in turn, and a single locale entry holding a dictionary yields one translation per pair, by position, or none under `LocProvenance` |
| Aggregation.StringPairEntries | AppleLocalization/AppleLocalizationTests/AppleLocalizationTests.swift:93-101 | A decoded string table yields one translation per key/value pair, in the pairs' order, tagged with the locale and the file's last path component; nothing else |
| Aggregation.FileEntries | AppleLocalization/AppleLocalizationTests/AppleLocalizationTests.swift:74-102 | A listed file contributes nothing unless its name ends in `strings`, it resolves and it decodes; then it contributes one translation per decoded pair, by position, with the locale and the file's last path component |
| Aggregation.ListingEntries | AppleLocalization/AppleLocalizationTests/AppleLocalizationTests.swift:74-103 | A locale directory contributes exactly the translations read from its listed files |
| Aggregation.ListingEntriesCons | AppleLocalization/AppleLocalizationTests/AppleLocalizationTests.swift:74-102 | A listing's first file contributes its own translations ahead of the rest's |
| Aggregation.ListingEntriesAppend | AppleLocalization/AppleLocalizationTests/AppleLocalizationTests.swift:74-103 | The listed files are read one after another: the translations of a concatenated listing are those of its parts in turn |
| Aggregation.DirectoryEntries | AppleLocalization/AppleLocalizationTests/AppleLocalizationTests.swift:66-104 | A bundle's locale directories contribute exactly the translations of the listed directories; unlisted ones contribute nothing |
| Aggregation.DirectoryEntriesAppend | AppleLocalization/AppleLocalizationTests/AppleLocalizationTests.swift:66-104 | The declared locales are read one after another: the translations of concatenated locales are those of the parts in turn, and a single locale yields its listing's translations, or none when it cannot be listed |
| Aggregation.AggregateSpec | AppleLocalization/AppleLocalizationTests/AppleLocalizationTests.swift:37-104 | Under each key, the consolidated table's translations come first, then the locale directories', each in reading order; a key is present exactly when one of the sources has a translation for it |
| Aggregation.AggregateEmpty | AppleLocalization/AppleLocalizationTests/AppleLocalizationTests.swift:106-108 | A bundle's table is empty exactly when neither source yields a translation |
| Text.Decimal | AppleLocalization/AppleLocalizationTests/AppleLocalizationTests.swift:115-117 | The rendering of the counter is a non-empty string of decimal digits with no leading zero |
| Text.DecimalCanonical | AppleLocalization/AppleLocalizationTests/AppleLocalizationTests.swift:115-117 | Every digit string without a leading zero is the rendering of the number it denotes, so with the round trip the rendering is the standard decimal form (`1`, not `01`) |
| Text.DecimalRoundTrip | AppleLocalization/AppleLocalizationTests/AppleLocalizationTests.swift:115-117 | Reading the decimal rendering of a counter back gives the counter |
| Text.DecimalInjective | AppleLocalization/AppleLocalizationTests/AppleLocalizationTests.swift:115-117 | Different counters render differently |
| Emission.DigitsAfterLastUnderscore | AppleLocalization/AppleLocalizationTests/AppleLocalizationTests.swift:115-121 | Two names of the form `stem_digits.json` that are equal have equal digit parts, whatever their stems |
| Emission.OutputNamesDistinct | AppleLocalization/AppleLocalizationTests/AppleLocalizationTests.swift:113-121 | Records with different counter values get different file names, whatever their framework and table names |
| Emission.EmittableSpec | AppleLocalization/AppleLocalizationTests/AppleLocalizationTests.swift:106-108 | The emitted references are exactly those whose table is not empty, taken from the input, with distinct bundle paths preserved |
| Emission.EmittableSnoc | AppleLocalization/AppleLocalizationTests/AppleLocalizationTests.swift:106-108 | Scanning one more reference extends the emitted references by it exactly when its table is not empty |
| Emission.NumberedSnoc | AppleLocalization/AppleLocalizationTests/AppleLocalizationTests.swift:113-120 | Emitting the next reference under the current counter, then advancing it, keeps records numbered consecutively from 1 |
| Emission.NumberedDistinct | AppleLocalization/AppleLocalizationTests/AppleLocalizationTests.swift:113-121 | Consecutively numbered records have strictly increasing numbers and pairwise different file names |
| Emission.NumberedFrom | AppleLocalization/AppleLocalizationTests/AppleLocalizationTests.swift:34-108 | Emitted records are for input references with non-empty tables, inherit their properties and have distinct bundle paths |
| Emission.EmitRecords | AppleLocalization/AppleLocalizationTests/AppleLocalizationTests.swift:34-122 | The emission loop aborts exactly when some reference's bundle does not load. Otherwise it emits, in order, one record per reference with a non-empty table, numbered from 1 without gaps, with strictly increasing numbers and distinct names |
| Emission.MergedWellFormed | AppleLocalization/AppleLocalizationTests/AppleLocalizationTests.swift:26-32 | Every reference in the merge of the two roots' collections is well formed |
| Emission.Run | AppleLocalization/AppleLocalizationTests/AppleLocalizationTests.swift:9-122 | The run aborts exactly when either root's collection does. Otherwise the records are, in order, exactly the merged references of both roots whose table is not empty, numbered from 1 without gaps; each carries its name and its bundle's full table and is for a well-formed reference; names and bundle paths are pairwise distinct |

## Left out

- The directory walk, file reads, property-list and JSON decoding: their outcomes are inputs. The visited files are a sequence. A consolidated table is either unreadable or a list of locale entries. A listed file's URL, contents and decoded table are optional values. A nested dictionary's JSON text is given.
- Dictionary enumeration order (lines 44, 45 and 93): it is unspecified in the source. The model takes the order of its input sequences. The concatenation lemmas and `Aggregation.AggregateSpec` fix the order of the translations, and the per-key order, relative to that input order.
- JSON encoding of a record and the write of each output file (lines 110-112 and 121): left out as I/O. An encoding or write failure, which aborts the source, is not modelled.
- The timestamp-named output directory, the logger and the `print` before each fatal error (lines 10-24, 119, 185, 215 and 219): left out as I/O and clocks.
- The archive step (lines 124-164) and the upload step (lines 166-183): not modelled. They act on the written files, not on the harvested data.
- Bundle loading: modelled as one deterministic predicate on paths. The model assumes a bundle that loaded during collection loads again during emission. Caching by the platform is not modelled.
- Strings are sequences of Unicode scalars. String equality, dictionary and set membership, and suffix tests work on those scalars. Swift compares and hashes `String` by canonical equivalence, and its `hasSuffix` and the path library's `extension` work on grapheme clusters. So text that differs only in Unicode normalisation, such as `"é"` written as U+00E9 or as `e` followed by U+0301, is one bundle path or one table key in the source (lines 52, 94, 234 and 265) but two in the model.
- Paths are modelled as component sequences, not strings. Validation of `AbsolutePath` and normalisation of `..`/`.` are outside the model.
- Text.Decimal: the counter is an unbounded natural. Swift's trap on `Int` overflow after 2^63 - 1 records is not modelled, because no run comes near it.
- Emission.Run: the walk of each root (`try walk(root)`, line 193) throws when a root cannot be listed, for example a missing `/Developer`, and that ends the source's run. The walk's output is an input here, so the modelled run aborts only on a resolution error or a bundle that does not load.
- Aggregation.Render: `JSONSerialization.data(withJSONObject:)` (line 47) raises an Objective-C exception, not a Swift error, for a nested value it cannot encode, such as a date or data value. `try?` does not catch it, so the source crashes. The model covers only a serialisation that returns no data, for which it uses the default description.
- `Localizable` is a reference type whose `localizations` field is mutated in place. The model instead pairs each reference with the table built for it in `Emission.Record`.
