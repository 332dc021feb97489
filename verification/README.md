# Windows keyboard-layout overrides, modelled in Dafny

bscotch/keyboard-layouts derives a small table of keyboard-layout
*deviations* from Microsoft's published Windows layout documents. For each
keyboard driver (`kbdfr`, `kbdru`, …) it records two things:

- which virtual-key numbers produce a glyph that differs from the US
  baseline driver `kbdus`;
- which scan code maps to which virtual-key number.

Each record also carries the driver's KLIDs (keyboard-layout identifiers)
and its languages.

Two scripts make up the core of this model:

- **scripts/process-windows-layouts.mjs** builds the store in four steps:
  - it reads the virtual-key reference table (`getVirtualKeycodes`);
  - it reads the baseline `kbdus` mappings;
  - for every driver it reads the driver's metadata tables
    (`getLayoutMetadata`) and its `PK` key elements
    (`getVirtualKeyMappings`), the glyphs being diffed against the
    baseline;
  - it attaches each driver's mappings to its summary.
- **scripts/get-windows-vk-overrides.mjs** filters that store:
  - the filter is by driver name, KLID or language prefix;
  - it prints the KLID owners and the glyph and scan-code tables of the
    drivers kept.

## Modules

The project has eight modules:

- `Wrappers`: `Option` and `Result`.
- `JsText`: the JavaScript string operations the scripts use:
  - `trim`, with the ECMAScript white-space set;
  - `split` and `join` on one separator character;
  - ASCII `toLowerCase`;
  - `parseInt(s, 16)`, with `NaN` as a value of `JsNum`.
- `Tables`: a dictionary written key by key, where the last write wins, as
  a JavaScript object or `Map` is.
- `VkCodes`: `getVirtualKeycodes` as a method over the table's rows, and
  the table it builds as a function.
- `KeyMappings`: the value `getVirtualKeyMappings` computes from a driver's
  key elements and a baseline:
  - the first key error, which aborts the call;
  - the scan-code table;
  - the glyph table, reduced to the entries that differ from the
    baseline.
- `LayoutMetadata`: what `getLayoutMetadata` reads from the metadata
  tables. That is:
  - the KLID pattern, as an explicit scan;
  - the per-table row loop;
  - the records returned;
  - the KLID and language pairs added to the driver summaries.
- `ProcessLayouts`: the script's module state (`usVkCodes`,
  `driverSummaries`, `driverVkCodes`) as the fields of the class
  `LayoutProcessor`, whose methods are the script's functions and
  top-level loops. The value-level definition of the whole run is
  `ProcessSpec`.
- `VkOverrides`: the filter script, with its argument checks, its keep
  rule and the printed object. The loop is the method `FilterOverrides`,
  and `FilterSpec` is its specification.

## Inputs and parameters

The documents are given already extracted:

- the reference table as rows of cell texts;
- a driver's key document as `Key` values, each with an optional `vk`,
  an optional `sc` and its `result` elements;
- a driver's info document as the tables below `.metaGroup.group`, each a
  sequence of header and data cell texts;
- the directory listing as a sequence of `(name, LayoutFiles)` pairs in
  `Map` order;
- the stored overrides, for the filter script, as a sequence of
  `(driver, StoredDriver)` pairs in `Object.entries` order.

`toLocaleUpperCase(lang)` is the parameter `upper: CaseMapping`. It
returns `None` when the runtime throws for the language it is given.

## Model

| member | source | states |
|---|---|---|
| JsText.Trim | scripts/process-windows-layouts.mjs:69-72 | the trimmed text is no longer than the input and has no white space at either end |
| JsText.TrimPadded | scripts/process-windows-layouts.mjs:69-72 | trimming white space wrapped around a text with no white space at its ends gives that text back |
| JsText.ToLower | scripts/get-windows-vk-overrides.mjs:23 | lower-casing keeps the length, leaves no upper-case letter and agrees with the input letter by letter up to case |
| JsText.ToLowerOfLower | scripts/get-windows-vk-overrides.mjs:23 | a text without upper-case letters is unchanged by lower-casing |
| JsText.Split | scripts/get-windows-vk-overrides.mjs:21 | splitting gives at least one piece, no piece holds the separator, and joining the pieces with it gives the input back |
| JsText.SplitJoin | scripts/get-windows-vk-overrides.mjs:21 | splitting a join of separator-free pieces gives those pieces back |
| JsText.HexByteValue | scripts/process-windows-layouts.mjs:87 | `parseInt("0xHH", 16)` is 16 × the high digit + the low digit, a value from 0 to 255 |
| VkCodes.FindHexByte | scripts/process-windows-layouts.mjs:73 | finds the leftmost occurrence of `0x` plus two upper-case hex digits, or reports that none exists |
| VkCodes.FindCodeChar | scripts/process-windows-layouts.mjs:77 | finds the first `[A-Z0-9]` character of the description, or reports that none exists |
| VkCodes.GetVirtualKeycodes | scripts/process-windows-layouts.mjs:61-92 | the loop builds exactly the table of the rows' writes, and every entry's `name` is the key it is stored under |
| VkCodes.RowAdmission | scripts/process-windows-layouts.mjs:73-81 | a row is admitted iff its hex cell contains the pattern and it has a name or a description with an `[A-Z0-9]` character |
| VkCodes.RowEntryFields | scripts/process-windows-layouts.mjs:74-89 | an admitted row's number is the hex cell parsed base 16, its description is the third cell, and its name is the first cell or else `VK_` plus the first `[A-Z0-9]` character |
| VkCodes.VkTableKeys | scripts/process-windows-layouts.mjs:85-89 | a name is in the table iff some admitted row carries it |
| VkCodes.VkTableLastRow | scripts/process-windows-layouts.mjs:85-89 | the entry under a name comes from the last admitted row carrying that name |
| VkCodes.VkTableKeysAreNames | scripts/process-windows-layouts.mjs:85-86 | every entry's `name` field equals its key |
| VkCodes.SynthesizedNameExample | scripts/process-windows-layouts.mjs:74-83 | the row `["", "0x41", "A"]` becomes the entry `VK_A` with number 65 |
| VkCodes.UnanchoredHexCell | scripts/process-windows-layouts.mjs:73 | the test is unanchored: the hex cell `zz 0x41` is admitted and its number is NaN |
| KeyMappings.Unconditional | scripts/process-windows-layouts.mjs:112 | keeps exactly the `result` elements without a `with` attribute |
| KeyMappings.UnconditionalCount | scripts/process-windows-layouts.mjs:112-113 | each `result` element without a `with` attribute is kept as many times as it occurs and no other is kept, so `values.length` counts duplicates |
| KeyMappings.ScanTableWrites | scripts/process-windows-layouts.mjs:109-111 | the scan-code table is what the key-by-key `sc` writes leave, the last write winning |
| KeyMappings.GlyphTableWrites | scripts/process-windows-layouts.mjs:112-122 | the glyph table is what the key-by-key `vk` writes leave, the last write winning |
| KeyMappings.FullGlyphTableWrites | scripts/process-windows-layouts.mjs:112-117 | the full glyph table is what writing every glyph candidate leaves |
| KeyMappings.FirstKeyErrorExtend | scripts/process-windows-layouts.mjs:104-108 | once a key has thrown, later keys do not change the error |
| KeyMappings.FirstKeyErrorAt | scripts/process-windows-layouts.mjs:104-117 | the call fails with error `e` iff some key raises `e` and no earlier key raises any error |
| KeyMappings.FirstKeyErrorNone | scripts/process-windows-layouts.mjs:104-117 | the call raises no error iff no key raises one |
| KeyMappings.MissingAttributeFails | scripts/process-windows-layouts.mjs:107-108 | a key without a non-empty `vk` or `sc` attribute makes the whole call fail |
| KeyMappings.SucceedsIff | scripts/process-windows-layouts.mjs:105-117 | the call succeeds iff every key has both attributes and every glyph candidate's upper-casing accepts the language |
| KeyMappings.ScanTableKeys | scripts/process-windows-layouts.mjs:109-111 | a scan code is in the table iff some key with a resolvable `vk` name carries it, whatever its glyph |
| KeyMappings.ScanTableLast | scripts/process-windows-layouts.mjs:111 | the number under a scan code is the virtual-key number of the last key carrying that scan code |
| KeyMappings.UnresolvedKeyAddsNothing | scripts/process-windows-layouts.mjs:109-110 | removing a key whose `vk` name is not in the reference table does not change the result |
| KeyMappings.AmbiguousKeyNoGlyph | scripts/process-windows-layouts.mjs:112-113 | a key with zero or several unconditional results does not change the glyph table |
| KeyMappings.GlyphWritesAreDiffering | scripts/process-windows-layouts.mjs:120-122 | the `vk` writes are exactly the glyph candidates that differ from the baseline, in order |
| KeyMappings.GlyphTableDiffers | scripts/process-windows-layouts.mjs:120-122 | no entry of the glyph table equals the baseline's value at that number |
| KeyMappings.GlyphTableKeys | scripts/process-windows-layouts.mjs:120-122 | a number is in the glyph table iff some key's candidate for it differs from the baseline |
| KeyMappings.EqualCandidateKeepsTable | scripts/process-windows-layouts.mjs:120-122 | a candidate equal to the baseline leaves the table unchanged; it never deletes an earlier differing entry |
| KeyMappings.EmptyBaselineRecordsAll | scripts/process-windows-layouts.mjs:120-122 | against the empty baseline the glyph table is the full glyph table |
| KeyMappings.DiffRoundTrip | scripts/process-windows-layouts.mjs:120-122 | for consistent candidates, the baseline overlaid with the differing ones agrees with the full table wherever the full table is defined |
| KeyMappings.DiffKeysInTable | scripts/process-windows-layouts.mjs:120-122 | the overrides only name numbers that the full table has |
| KeyMappings.SelfDiffEmpty | scripts/process-windows-layouts.mjs:120-122 | consistent candidates diffed against their own table give no overrides |
| KeyMappings.GlyphRoundTrip | scripts/process-windows-layouts.mjs:112-122 | for a driver's keys, the glyph table's numbers are in the full table, and the baseline overlaid with the glyph table reproduces the full table |
| KeyMappings.GlyphSelfDiffEmpty | scripts/process-windows-layouts.mjs:120-122 | a driver diffed against its own full table, with the same language, has an empty glyph table |
| KeyMappings.InconsistentSelfDiff | scripts/process-windows-layouts.mjs:120-122 | with two candidates for one number the self-diff is not empty: it keeps the earlier, overwritten glyph |
| KeyMappings.OverrideExample | scripts/process-windows-layouts.mjs:120-122 | baseline `{65: A, 66: B}` and a driver with only `65: Я` give the overrides `{65: Я}` |
| LayoutMetadata.MatchAt | scripts/process-windows-layouts.mjs:152 | a match at a position reads a non-empty `[0-9a-z]` id and a non-empty one-line language, and `id (lang)` occurs there; the id is the whole `[0-9a-z]` run, and the closing `)` is the last one on its line (greedy `.+`) |
| LayoutMetadata.MatchAtComplete | scripts/process-windows-layouts.mjs:152 | the attempt at a position succeeds whenever a well-formed `id (lang)` starts there |
| LayoutMetadata.ParseKlidFromReaches | scripts/process-windows-layouts.mjs:152 | a search succeeds whenever an attempt at or after its start succeeds |
| LayoutMetadata.ParseKlidComplete | scripts/process-windows-layouts.mjs:152-153 | a well-formed `id (lang)` anywhere in the value makes it match, so the assert throws only for values without one |
| LayoutMetadata.ParseKlidSound | scripts/process-windows-layouts.mjs:152 | the value matches iff a well-formed `id (lang)` occurs in it; the groups read are well-formed and come from the leftmost successful attempt, every earlier position failing |
| LayoutMetadata.ParseKlidFromSound | scripts/process-windows-layouts.mjs:152 | a search from any position returns the match of the leftmost successful attempt after it, and that match is well-formed |
| LayoutMetadata.ParseKlidOfFormatted | scripts/process-windows-layouts.mjs:152 | a value written as `id (lang)`, with a well-formed id and a one-line language, reads back as that id and language |
| LayoutMetadata.NoParenNoKlid | scripts/process-windows-layouts.mjs:152-153 | a value without `(` never matches |
| LayoutMetadata.KlidExample | scripts/process-windows-layouts.mjs:152 | `00000409 (English (United States))` reads as id `00000409` and language `English (United States)`: the language runs to the last `)` |
| LayoutMetadata.BadValueExample | scripts/process-windows-layouts.mjs:152-153 | `badvalue` does not match, so the call throws |
| LayoutMetadata.RowStepKlid | scripts/process-windows-layouts.mjs:150-156 | a successful `KLID` row sets the id and language to the parsed pair; any other row leaves them and the pairs read unchanged |
| LayoutMetadata.RowStepLayout | scripts/process-windows-layouts.mjs:167-168 | only a display-name row changes the layout, setting it to the trimmed value |
| LayoutMetadata.AbsorbAllOthers | scripts/process-windows-layouts.mjs:157-166 | reading one driver's pairs leaves every other driver's summary as it was, present or absent |
| LayoutMetadata.AbsorbAllSummary | scripts/process-windows-layouts.mjs:157-166 | no pairs changes nothing; otherwise the driver's summary exists and its sets are the old sets, or empty ones, plus the ids and languages read, with its codes kept |
| LayoutMetadata.AbsorbIdempotent | scripts/process-windows-layouts.mjs:165-166 | adding a pair twice is the same as adding it once |
| LayoutMetadata.ScanRowsErrExtend | scripts/process-windows-layouts.mjs:153-154 | once a row has thrown, later rows do not change the error |
| LayoutMetadata.ScanTablesErrExtend | scripts/process-windows-layouts.mjs:153-154 | once a table has thrown, later tables do not change the error |
| LayoutMetadata.ScanRowsFails | scripts/process-windows-layouts.mjs:147-154 | a table's row loop fails iff one of its rows is a `KLID` row with a value the pattern does not match |
| LayoutMetadata.ScanTablesFails | scripts/process-windows-layouts.mjs:137-154 | the call fails iff a table headed `KLID` has such a row; other tables are never read |
| LayoutMetadata.RecordsPerKlidTable | scripts/process-windows-layouts.mjs:137-146 | one record per table headed `KLID`, in document order; each record is that table's row-loop record; the pairs read are exactly those of the `KLID` tables |
| LayoutMetadata.TableWithoutKlid | scripts/process-windows-layouts.mjs:141-146 | a table without a `KLID` row gives the record an empty id and language and reads no pair |
| LayoutMetadata.TableKlid | scripts/process-windows-layouts.mjs:150-156 | a table's id and language are the pair parsed from its last `KLID` row, which is also the last pair read |
| LayoutMetadata.TableLayout | scripts/process-windows-layouts.mjs:167-168 | a table's layout is the trimmed value of its last display-name row, or empty when it has none |
| LayoutMetadata.KlidTableFindsPair | scripts/process-windows-layouts.mjs:139-157 | a table headed `KLID` always reads at least one pair |
| LayoutMetadata.FoundIffRecords | scripts/process-windows-layouts.mjs:137-166 | a successful call reads some pair iff it returns some record |
| ProcessLayouts.Lookup | scripts/process-windows-layouts.mjs:27 | the files found under a name are that driver's, or no driver carries the name |
| ProcessLayouts.LayoutProcessor.constructor | scripts/process-windows-layouts.mjs:18-29 | the state starts with the given reference table, an empty baseline and empty maps |
| ProcessLayouts.LayoutProcessor.GetVirtualKeyMappings | scripts/process-windows-layouts.mjs:99-125 | the loop's result is the key-mapping specification against the current baseline |
| ProcessLayouts.LayoutProcessor.MapKey | scripts/process-windows-layouts.mjs:105-122 | one key either throws its own error or applies its scan-code write and its glyph write to the mappings |
| ProcessLayouts.LayoutProcessor.GetLayoutMetadata | scripts/process-windows-layouts.mjs:132-173 | returns the records of the `KLID` tables, or the first error; on success the driver's summary has absorbed every pair read, in order |
| ProcessLayouts.LayoutProcessor.ReadTable | scripts/process-windows-layouts.mjs:138-170 | one table's row loop returns its record, or its error; on success the pairs it read are absorbed into the summaries |
| ProcessLayouts.LayoutProcessor.Run | scripts/process-windows-layouts.mjs:17-55 | from the empty initial state, the script's result is the whole-run specification: baseline, driver loop, then attaching the codes |
| ProcessLayouts.LayoutProcessor.ReadDrivers | scripts/process-windows-layouts.mjs:36-47 | the driver loop ends in the state the driver fold gives, or with that fold's error |
| ProcessLayouts.LayoutProcessor.ProcessDriver | scripts/process-windows-layouts.mjs:37-46 | one driver: its metadata is read, then its mappings with the first record's language; the state changes as one fold step says, or the step's error is returned |
| ProcessLayouts.LayoutProcessor.AttachCodes | scripts/process-windows-layouts.mjs:49-51 | every summary gets its driver's mappings, or empty ones |
| ProcessLayouts.ProcessWindowsLayouts | scripts/process-windows-layouts.mjs:17-55 | reading the reference table and running the script gives the whole-run specification over the table built from the rows |
| ProcessLayouts.BaselineIsFullTable | scripts/process-windows-layouts.mjs:27-34 | the baseline is `kbdus`'s full glyph table and scan-code table under `en-US` |
| ProcessLayouts.DriversOkIff | scripts/process-windows-layouts.mjs:36-47 | the driver loop succeeds iff every driver's two documents are present and read without error |
| ProcessLayouts.DriversFailAt | scripts/process-windows-layouts.mjs:36-47 | a failing loop fails with the error of the first failing driver |
| ProcessLayouts.DriversOthers | scripts/process-windows-layouts.mjs:36-47 | a name that no driver carries keeps its summary and its mappings |
| ProcessLayouts.DriversEntry | scripts/process-windows-layouts.mjs:36-47 | with distinct names, each driver's mappings are recorded under its name; it has a summary iff it read a pair, with exactly the ids and languages it read |
| ProcessLayouts.StoreEntry | scripts/process-windows-layouts.mjs:36-51 | in the written store a driver has an entry iff its info document gave a pair; the entry holds its ids, languages and mappings against the baseline |
| ProcessLayouts.StoreKeys | scripts/process-windows-layouts.mjs:49-51 | every entry of the store belongs to a driver of the listing |
| ProcessLayouts.BaselineDriverNoOverrides | scripts/process-windows-layouts.mjs:27-46 | `kbdus`, read again as a driver, stores an empty glyph table when its candidates agree and its first language upper-cases as `en-US` does |
| ProcessLayouts.SameCaseSameTable | scripts/process-windows-layouts.mjs:117 | two languages that upper-case alike give the same glyph table |
| VkOverrides.ParseFilterKind | scripts/get-windows-vk-overrides.mjs:7-17 | a missing argument throws; otherwise the kind is accepted iff the trimmed text spells one of the three kinds, and it is that kind |
| VkOverrides.FilterKindPadded | scripts/get-windows-vk-overrides.mjs:7-12 | each kind's name, with white space around it, reads back as that kind |
| VkOverrides.NonEmptyPieces | scripts/get-windows-vk-overrides.mjs:22 | keeps exactly the non-empty pieces, and is empty iff every piece is empty |
| VkOverrides.FilterValues | scripts/get-windows-vk-overrides.mjs:19-28 | fails only on a missing argument or an empty list; a list it returns is non-empty, and each value is non-empty, comma-free and has no upper-case letter |
| VkOverrides.NonEmptyPiecesAppend | scripts/get-windows-vk-overrides.mjs:22 | dropping empty pieces distributes over concatenation, so the pieces kept keep their order |
| VkOverrides.NonEmptyPiecesSingle | scripts/get-windows-vk-overrides.mjs:22 | a single piece is kept iff it is not the empty string |
| VkOverrides.FilterValuesOfJoin | scripts/get-windows-vk-overrides.mjs:19-23 | any comma-separated list with white space around it reads as its non-empty pieces, in order, each lower-cased; empty pieces anywhere are dropped |
| VkOverrides.FilterValuesExample | scripts/get-windows-vk-overrides.mjs:19-23 | ` EN,,fr ` reads as `["en", "fr"]` |
| VkOverrides.FilterValuesRoundTrip | scripts/get-windows-vk-overrides.mjs:19-23 | non-empty, comma-free, lower-case values joined with commas (with nothing to trim at the ends) read back as the same list |
| VkOverrides.FilterValuesEmpty | scripts/get-windows-vk-overrides.mjs:19-28 | the values are rejected as empty iff the trimmed argument holds nothing but commas |
| VkOverrides.IncludesLang | scripts/get-windows-vk-overrides.mjs:67-70 | true iff some language starts with the search text, ignoring case |
| VkOverrides.SomeKlid | scripts/get-windows-vk-overrides.mjs:41-45 | true iff some value is one of the driver's KLIDs |
| VkOverrides.SomeLang | scripts/get-windows-vk-overrides.mjs:46-51 | true iff `includesLang` holds for some value |
| VkOverrides.LanguageFilterIff | scripts/get-windows-vk-overrides.mjs:46-51 | the language filter keeps a driver iff some value is a case-insensitive prefix of one of its languages |
| VkOverrides.UpperCaseNeverMatches | scripts/get-windows-vk-overrides.mjs:39-45 | the values are lower case, so a driver name with an upper-case letter, or a driver whose KLIDs all have one, is never kept by those filters |
| VkOverrides.LanguageExample | scripts/get-windows-vk-overrides.mjs:67-70 | `en` keeps a driver with language `EN-gb`, and `en` is not a prefix of `fr-FR` |
| VkOverrides.FilterOverrides | scripts/get-windows-vk-overrides.mjs:38-58 | the loop builds exactly the filter's specification over the store in entry order |
| VkOverrides.GetWindowsVkOverrides | scripts/get-windows-vk-overrides.mjs:3-58 | the script's output is the argument checks followed by the filter, as specified |
| VkOverrides.KindCheckedFirst | scripts/get-windows-vk-overrides.mjs:7-28 | a bad or missing filter kind is reported whatever the value list |
| VkOverrides.KeptIff | scripts/get-windows-vk-overrides.mjs:38-57 | a driver has a glyph table in the result iff some entry for it is kept, and it has a scan-code table iff it has a glyph table |
| VkOverrides.KeptTables | scripts/get-windows-vk-overrides.mjs:56-57 | with distinct driver names, a kept driver's two tables are copied unchanged |
| VkOverrides.KlidOwners | scripts/get-windows-vk-overrides.mjs:53-55 | a KLID has an owner iff some kept driver lists it, and its owner is a kept driver that lists it |
| VkOverrides.OwnKlidsAt | scripts/get-windows-vk-overrides.mjs:53-55 | the inner loop gives the driver every KLID it lists and leaves the other KLIDs' owners as they were |
| VkOverrides.LastKeptOwns | scripts/get-windows-vk-overrides.mjs:53-55 | a KLID listed by several kept drivers belongs to the last of them |

## Left out

- HTML and XML loading and the CSS selectors (`cheerio`) are not modelled. Documents come in already extracted; see "Inputs and parameters".
- File reads and writes, the directory listing, `process.argv`, `console.log` and `console.error` are left out. The listing, the argument strings and the stored overrides are parameters.
- The `jsonify` serialisation of the store (sets to arrays, the file format) and the location of the overrides file are not modelled: both are imported from scripts/shared.mjs but not defined in it. The model ends at the store value.
- The insertion order of the `klids` and `langs` sets of a driver summary is not modelled: they are Dafny sets, while JavaScript's `Set` keeps insertion order and that order reaches the stored arrays. Only membership is used in the core: the overrides filter tests membership alone.
- scripts/download-windows-layouts.mjs (network fetches and caching) is not part of this model.
- `getWindowsLayoutFiles` and `defined` in scripts/shared.mjs are not part of this model. The listing is a parameter, and `defined` on a missing value is the error `Undefined`.
- The rust and C++ helper programs (a single Win32 call each) are left out.
- `toLocaleUpperCase(lang)` is the parameter `upper`. The runtime's locale data cannot be modelled. The `RangeError` it throws for a language that is not a BCP 47 tag, for example `English (United States)` in `00000409 (English (United States))`, is the error `BadLocale`.
- The driver loop is not recovered per document: the first thrown error ends the run with that error, as the top-level `await` does. No partial store is modelled.
- Numbers are `JsNum`: a mathematical integer or `NaN`. Floating-point precision beyond that is not modelled.
- The `vk` table's property names `${vkNum}` are modelled as the numbers themselves, which is one name per number. `NaN` keys collapse into one, as the property name `"NaN"` does.
- Object-key ordering (integer-like keys first in `Object.entries`) is not modelled. The store is read in the order given. Property names such as `__proto__` are not special-cased.
- The metadata object is pushed onto the result before its fields are set. The model builds the record first and appends it. The returned records are the same, because nothing reads the array in between.
- JsText.ToLower: lower-cases ASCII letters only. JavaScript's `toLowerCase` also maps non-ASCII letters. The same restriction applies to the `i` flag of the language pattern.
- VkOverrides.IncludesLang: treats the search text literally. The source interpolates it into a `RegExp` unescaped, so a value holding pattern metacharacters (`.`, `*`, `(`) matches differently from this model, or throws.
- VkOverrides.FilterValues: does not trim the individual pieces. The source does not either, so `en, fr` keeps ` fr` with its leading space.
- ProcessLayouts.LayoutProcessor.MapKey, ProcessLayouts.LayoutProcessor.ReadTable, ProcessLayouts.LayoutProcessor.ProcessDriver, ProcessLayouts.LayoutProcessor.ReadDrivers and ProcessLayouts.LayoutProcessor.AttachCodes: each is the body of a loop of the script, made a method of its own. They have no counterpart function in the source.

## Behaviour notes

Where a plain description of the scripts and the code part ways, the model
follows the code:

- The hex test `/0x[0-9A-F]{2}/` is not anchored, so a hex cell that
  merely contains the pattern is admitted. The number is then whatever
  `parseInt(hex, 16)` reads from the cell's start, possibly `NaN`, and not
  always a byte (`VkCodes.UnanchoredHexCell`).
- A driver diffed against its own glyph table does not always give an
  empty override table. When two keys give the same number different
  glyphs, the earlier glyph, which was overwritten in the table, reappears
  as an override (`KeyMappings.InconsistentSelfDiff`). It is empty when
  the candidates agree (`KeyMappings.GlyphSelfDiffEmpty`).
- `kbdus` is read twice: once as the baseline under `en-US`, and once as
  an ordinary driver under its first record's language. The second
  reading replaces the baseline entry in `driverVkCodes`
  (`ProcessLayouts.BaselineDriverNoOverrides`).
- Any error, whether a missing document, a key without attributes, a
  `KLID` value the pattern rejects or a locale the runtime rejects, ends
  the whole run.
- The language read from a `KLID` value is the text after ` (` up to the
  last `)` on the line, whatever its form; for
  `00000409 (English (United States))` it is `English (United States)`
  (`LayoutMetadata.KlidExample`).
