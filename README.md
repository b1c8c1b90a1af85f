# Folder file finder: a Dafny model of the validator core

The application is a browser page for checking an uploaded photo-transfer
folder. The user uploads a year folder such as `2024 TRANSFER`. The page
lists the year and date folders found in the upload. For a chosen
`year/date` it checks each folder category: every file type the category
requires must be supplied by some file under `year/date` that a rule of the
category accepts. A rule accepts a file by its directory pattern, by
optional file-name keywords and, when the time check is on, by the hour the
file was last modified. A settings page switches the time check on or off
and edits the per-category hour ranges. The settings are kept in the
browser's local storage.

Besides `Wrappers` (an `Option` type for JavaScript's `undefined`), the model has six modules:

- `Types` (`types.dfy`): the records of `src/lib/types.ts`. A file upload
  entry is its relative path, its name and its modification hour.
- `Text` (`text.dfy`): the JavaScript built-ins the code relies on, each
  with the property that defines it. These are lower-casing, `includes`,
  `lastIndexOf`, `split` (with the separator search inside it), `join`,
  `pop`, the first-occurrence order of
  `new Set(array)`, and the default `sort`.
- `SettingsContext` (`settings_context.dfy`): the settings provider. It
  holds the default ranges, the initial settings, the load-and-merge on
  mount, `updateSettings` with its best-effort write, and
  `getInitialTimeRange`. The provider is a class whose fields are the
  settings cell, the storage map and the `isInitialized` flag.
- `SettingsPage` (`settings_page.dfy`): the toggle handler, the guarded
  time-change handler and the list of time-relevant categories. Each
  handler is a function that yields the patch it passes to `updateSettings`.
- `Validation` (`validation.dfy`): `validateFolders`. The files loop and
  the rules loop are methods. Each method is proved equal to a left fold
  (`ScanFiles`, `ScanRules`). Lemmas then state what the fold computes in
  terms of the files and rules alone:
  - which types are found;
  - which labels are recorded, once each, and under which type;
  - when a category passes;
  - which types its message lists as missing.
- `TransferPage` (`transfer_page.dfy`): the upload handler as a method on a
  class holding the page's state cells. It covers the root-folder check,
  the reset, and the year and date facets (sorted, without repeats). It
  also models the `tableData` join of categories with their results.

Where the code does something other than its names and messages suggest, the model follows the code:

- The base-directory test is a plain string prefix (`startsWith`), not a
  path-segment prefix. A file under `2024 TRANSFER/05-10` passes that test
  for the date `05-1`. No rule can accept it, though, because every
  compiled pattern starts with `year/date/`. So the looser test has no
  effect on the results unless the year or date name holds a `*`
  (`Validation.HitWithinDateFolder`, `Validation.NeighbouringFolderRejected`).
- The directory pattern is compiled to a JavaScript regular expression
  without flags. Each `*` becomes `.*`, so it matches any run of
  characters except line terminators (`\n`, `\r`, U+2028, U+2029). It can
  cross `/`. `*` in the year or date folder names acts as a wildcard too,
  since those names are part of the compiled pattern.
- The root check tests the first path segment of the first file against
  four digits followed by ` TRANSFER`. So the uploaded folder must itself
  be a year folder. The rejection message asks for its parent
  (`01_TRANSFERS`), which the check rejects (`RootCheckExamples`).
- Neither settings handler keeps `start <= end`. An inverted range does not
  wrap around midnight: it accepts no hour (`InvertedRangeAcceptsNothing`,
  `SettingsPage.TimeChangeCanInvertRange`).

## Model

| member | source | states |
|---|---|---|
| Text.Lower | src/app/page.tsx:183-184 | (definition) `toLowerCase` of every character, for the letters A to Z |
| Text.Contains | src/app/page.tsx:184 | (definition) `includes`, characterised by `Text.ContainsOccurs` |
| Text.ContainsOccurs | src/app/page.tsx:184 | `includes` holds if and only if the text occurs at some position |
| Text.IndexOf | src/app/page.tsx:85 | the separator search inside `split` (the code never calls `indexOf` itself): -1 or a position holding the character; with `Text.IndexOfFirst`, the first one |
| Text.LastIndexOf | src/app/page.tsx:162 | `lastIndexOf` yields -1 or a position holding the character; with `Text.LastIndexOfLast`, the last one |
| Text.Split | src/app/page.tsx:85 | `split` on a one-character separator yields at least one part; `Text.SplitAt` and `Text.SplitAbsent` pin it down, and `Text.SplitPartsFree`, `Text.JoinSplit` and `Text.SplitLast` state further properties |
| Text.SplitAt | src/app/page.tsx:107 | a separator-free stretch, a separator, then the rest splits into that stretch followed by the split of the rest |
| Text.SplitAbsent | src/app/page.tsx:107 | a text without the separator splits into itself alone |
| Text.SplitPartsFree | src/app/page.tsx:107 | no part of `split` contains the separator |
| Text.Last | src/app/page.tsx:163 | (definition) `pop()` of a non-empty array of parts: its last element (a `split` result is never empty) |
| Text.Join | src/app/page.tsx:219 | (definition) `join`, the inverse of `split` by `Text.JoinSplit` |
| Text.IndexOfFirst | src/app/page.tsx:85 | the separator search finds the first occurrence: no earlier position holds the separator, and none at all when it reports -1 |
| Text.LastIndexOfLast | src/app/page.tsx:162 | `lastIndexOf` reports the last occurrence: no later position holds the character |
| Text.JoinSplit | src/app/page.tsx:85 | joining the parts of `split` with the same separator gives the string back |
| Text.SplitLast | src/app/page.tsx:163 | the last part of `split` is the text after the last separator |
| Text.Dedup | src/app/page.tsx:154 | `new Set(array)` in iteration order: the same members, with no repeats |
| Text.DedupOrder | src/app/page.tsx:154 | first-occurrence order: an element seen in the first `n` items precedes every element not seen there |
| Text.SortSet | src/app/page.tsx:120 | sorting a set's items gives them ascending in code-point order, each exactly once |
| Text.SortedUnique | src/app/page.tsx:125 | two strictly sorted sequences with the same members are equal, so the sorted facets are determined |
| SettingsContext.InitialSettingsShape | src/context/settings-context.tsx:23-37 | the initial settings have the time check on and exactly the three default ids, with the ranges 15-16, 9-13 and 8-9 |
| SettingsContext.MergeStored | src/context/settings-context.tsx:44-47 | a loaded object keeps every default id; a stored range wins over a default; a default fills an id absent from storage; extra stored ids are kept; the toggle holds only when stored as true |
| SettingsContext.SettingsProvider.constructor | src/context/settings-context.tsx:34-38 | a new provider holds the initial settings and is not yet initialised |
| SettingsContext.SettingsProvider.LoadStoredSettings | src/context/settings-context.tsx:40-53 | the mount effect: a parsed stored value is merged with the defaults; a missing or unparsable one leaves the settings alone; the provider becomes initialised either way |
| SettingsContext.Loaded | src/context/settings-context.tsx:40-53 | (definition) the settings after the mount effect: the merge when a stored value parses, otherwise the current ones |
| SettingsContext.DefaultTimeRanges | src/context/settings-context.tsx:23-27 | (definition) the three built-in ranges: titlow-park-ruston-pics 15-16, airport-pics 9-13, arriving-sign-pics 8-9; see `SettingsContext.InitialSettingsShape` |
| SettingsContext.InitialSettings | src/context/settings-context.tsx:34-37 | (definition) the time check on and the default ranges; see `SettingsContext.InitialSettingsShape` |
| SettingsContext.Serialized | src/context/settings-context.tsx:59 | (definition) `JSON.stringify(updated)`: both fields written. The toggle is a boolean in the model, so it is always written; the code would omit an undefined toggle, which reloads as undefined and is read as false, the same as the model's stored false. See `SettingsContext.ReloadRoundTrip` |
| SettingsContext.ApplyPatch | src/context/settings-context.tsx:57 | `{...prev, ...patch}`: each field present in the patch replaces the old one, the others are kept |
| SettingsContext.SettingsProvider.UpdateSettings | src/context/settings-context.tsx:55-65 | the merged settings are adopted whether or not the write succeeds; a successful write stores exactly them under the storage key; a failed one leaves the store alone |
| SettingsContext.ApplyPatchIdempotent | src/context/settings-context.tsx:57 | applying the same patch twice equals applying it once |
| SettingsContext.ReloadRoundTrip | src/context/settings-context.tsx:46-47 | written settings load back unchanged if and only if they hold a range for every default id |
| SettingsContext.UpdateThenLoad | src/context/settings-context.tsx:55-65 | after a successful write, a reload gives back the updated settings, provided they keep every default id |
| SettingsContext.LoadKeepsDefaultIds | src/context/settings-context.tsx:40-53 | whatever is stored, loading keeps every default id |
| SettingsContext.GetInitialTimeRange | src/context/settings-context.tsx:67-69 | the default range of an id, and none exactly for ids without a default |
| SettingsPage.HandleTimeCheckToggle | src/app/settings/page.tsx:15-17 | the patch sets the toggle and nothing else |
| SettingsPage.AcceptedHour | src/app/settings/page.tsx:20-21 | (definition) the guard: the parsed value is a number (not `NaN`) from 0 to 23 |
| SettingsPage.HandleTimeChange | src/app/settings/page.tsx:19-32 | no patch if and only if the parsed value is not an integer from 0 to 23; otherwise only the ranges change: one part of one id gets the value, the other part and the other ids keep theirs; a new id gets only that part |
| SettingsPage.AfterTimeChange | src/app/settings/page.tsx:19-32 | (definition) the settings after the handler, whether or not it called `updateSettings`; characterised by `SettingsPage.TimeChangeEffect` |
| SettingsPage.TimeChangeEffect | src/app/settings/page.tsx:19-32 | the settings after the handler: unchanged on a rejected value, otherwise the toggle kept and only that part of that id changed |
| SettingsPage.TimeChangeCanInvertRange | src/app/settings/page.tsx:20-30 | moving the start of the airport default to 20 leaves the range at 20 to 13 |
| SettingsPage.EditsKeepDefaultIds | src/app/settings/page.tsx:15-32 | neither handler drops a default id |
| SettingsPage.TimeRelevantConfigs | src/app/settings/page.tsx:34 | the filter keeps exactly the categories with a default range, with their multiplicities, in their order |
| Validation.GlobMatch | src/app/page.tsx:168-176 | (definition) the compiled pattern test: `*` matches a run without line terminators, every other character itself, anchored at both ends; characterised by `Validation.GlobLiteral` and `Validation.GlobStar` |
| Validation.Extension | src/app/page.tsx:163 | (definition) the lower-cased last dot-separated part of the name; characterised by `Validation.ExtensionAfterLastDot` |
| Validation.Dir | src/app/page.tsx:162 | (definition) the path up to its last `/`, or empty when it has none |
| Validation.RangeFor | src/app/page.tsx:157 | (definition) the category's range when the time check is on and one is set, otherwise none |
| Validation.HourOk | src/app/page.tsx:189-195 | (definition) no range accepts every hour; a range accepts the hours from its start to its end, and none when a part is missing |
| Validation.KeywordOk | src/app/page.tsx:182-187 | (definition) no keyword list accepts every name; otherwise some keyword must occur in the name, ignoring case |
| Validation.AnyKeyword | src/app/page.tsx:184 | (definition) `some` over the keywords; characterised by `Validation.AnyKeywordExists` |
| Validation.Label | src/app/page.tsx:200 | (definition) a rule's category when it is present and non-empty |
| Validation.Record | src/app/page.tsx:198-205 | (definition) what a matching rule records: the extension joins the found types, and the rule's label, if any, is added under it |
| Validation.AddLabel | src/app/page.tsx:201-204 | (definition) appends a label under an extension unless it is already listed there |
| Validation.Eligible | src/app/page.tsx:160-165 | (definition) the file lies under the base and its non-empty extension is required |
| Validation.Hit | src/app/page.tsx:168-195 | (definition) the rule's pattern, keyword and hour filters all accept the file |
| Validation.HitWithinDateFolder | src/app/page.tsx:160-176 | when the base holds no `*`, a rule accepts only files whose path starts with the base followed by `/` |
| Validation.NeighbouringFolderRejected | src/app/page.tsx:160-176 | a file that continues the base path with a character other than `/` passes the prefix test but no rule accepts it |
| Validation.ScanRules | src/app/page.tsx:167-206 | (definition) the rules loop for one file as a left fold; characterised by `Validation.ScanRulesFound`, `Validation.ScanRulesOthers` and `Validation.ScanRulesEntry` |
| Validation.ScanFiles | src/app/page.tsx:159-207 | (definition) the files loop as a left fold; characterised by `Validation.ScanFilesFound` and `Validation.ScanFilesDetails` |
| Validation.Conclude | src/app/page.tsx:209-227 | (definition) passing with its message when nothing required is missing, otherwise failing with the missing list |
| Validation.EvaluateConfig | src/app/page.tsx:141-228 | (definition) the result of one category; characterised by `Validation.EvaluateStatus` and `Validation.FoundFileDetailsMeaning` |
| Validation.GlobLiteral | src/app/page.tsx:169 | a pattern stretch without `*` matches exactly itself |
| Validation.GlobStar | src/app/page.tsx:169 | a `*` matches exactly the runs of characters without a line terminator |
| Validation.GlobPrefixPattern | src/app/page.tsx:168-169 | `prefix*` matches exactly the texts that start with `prefix` and continue without a line terminator |
| Validation.PhotosPatternExample | src/app/page.tsx:168-176 | `PHOTOS/*` under a base accepts the folders under `PHOTOS` and not those under `VIDEOS` |
| Validation.ExtensionAfterLastDot | src/app/page.tsx:163 | the extension is the lower-cased text after the last dot, or the whole name when there is none |
| Validation.DotlessExtension | src/app/page.tsx:163 | a name without a dot is its own (lower-cased) extension |
| Validation.AnyKeywordExists | src/app/page.tsx:182-186 | the keyword filter passes if and only if some lower-cased keyword occurs in the lower-cased name |
| Validation.EmptyKeywordListRejects | src/app/page.tsx:182-186 | a rule with an empty keyword list accepts no file |
| Validation.TimeCheckOffAcceptsAll | src/app/page.tsx:189-195 | with the time check off every hour passes |
| Validation.InvertedRangeAcceptsNothing | src/app/page.tsx:189-194 | a range whose start is after its end accepts no hour |
| Validation.AirportHourExample | src/app/page.tsx:189-194 | the airport default range of 9 to 13 accepts hour 10 and rejects 14; with the check off it accepts 14 |
| Validation.Missing | src/app/page.tsx:217 | the required types that were not found: exactly those members, in required order, distinct when the input is |
| Validation.RuleLabelsWitness | src/app/page.tsx:167-205 | a label is recorded for a file if and only if a rule carrying that label accepts it |
| Validation.HitLabelsComplete | src/app/page.tsx:159-205 | every label of an eligible file of a type is among the labels gathered for that type |
| Validation.HitLabelsSource | src/app/page.tsx:159-205 | every label gathered for a type comes from an eligible file of that type |
| Validation.ScanRulesFound | src/app/page.tsx:167-198 | the rules loop adds the type to the found types exactly when some rule accepts the file |
| Validation.ScanRulesOthers | src/app/page.tsx:200-205 | the rules loop for a file of one type touches no other type's entry |
| Validation.ScanRulesEntry | src/app/page.tsx:200-205 | after the rules loop, the type's entry lists the earlier labels and the new ones once each, in first-hit order, and exists only if some label was recorded |
| Validation.ScanFilesFound | src/app/page.tsx:159-207 | the files loop finds exactly the types supplied by an eligible file that some rule accepts |
| Validation.ScanFilesDetails | src/app/page.tsx:159-207 | the files loop's details entry for a type is the de-duplicated list of all labels recorded for it |
| Validation.FoundWithinRequired | src/app/page.tsx:165 | only a non-empty required extension can be found |
| Validation.MissingTypes | src/app/page.tsx:154-219 | a type is listed as missing if and only if it is required and no accepted file supplied it; each is listed once, in order of first mention |
| Validation.EvaluateStatus | src/app/page.tsx:143-227 | a category without rules is pending with the manual-check message; otherwise it passes exactly when every required type was found, and a failure's message lists the missing types |
| Validation.EmptyRequiredPasses | src/app/page.tsx:209-215 | a category with rules and no required types passes |
| Validation.NoFilesAllMissing | src/app/page.tsx:209-219 | with no files, a category with rules and required types fails, listing every required type once, with no details |
| Validation.FoundFileDetailsMeaning | src/app/page.tsx:156-226 | a details key is a found type; its labels are distinct; a label is listed exactly when a rule with that label accepted an eligible file of that type |
| Validation.ScanFile | src/app/page.tsx:167-206 | the rules loop over one file computes the rules fold |
| Validation.ValidateConfig | src/app/page.tsx:141-228 | the per-category callback computes the specified result |
| Validation.ValidateFolders | src/app/page.tsx:139-231 | one result per category, in category order, each carrying its category's id and its specified result |
| TransferPage.IsTransferRoot | src/app/page.tsx:86 | (definition) the anchored test for four digits followed by ` TRANSFER`; see `TransferPage.RootCheckExamples` |
| TransferPage.Facet | src/app/page.tsx:107-116 | (definition) the first two segments of a path, when it has two and both are non-empty; characterised by `TransferPage.FacetOfPath`, `TransferPage.FacetSound` and `TransferPage.FacetNone` |
| TransferPage.FacetMap | src/app/page.tsx:104-118 | (definition) the year-to-dates map after the loop; characterised by `TransferPage.FacetMapComplete` and `TransferPage.FacetMapSource` |
| TransferPage.UploadOutcome | src/app/page.tsx:80-94 | (definition) no files, a rejected root (first segment of the first file), or accepted |
| TransferPage.RowFor | src/app/page.tsx:244-251 | (definition) a category with the first result carrying its id, or pending and awaiting a scan |
| TransferPage.Placeholders | src/app/page.tsx:96 | one pending result with the given message and no details per category, in order |
| TransferPage.FirstSegment | src/app/page.tsx:84-86 | (definition) `split('/')[0]` of a path; characterised by `TransferPage.FirstSegmentOf` |
| TransferPage.FirstSegmentOf | src/app/page.tsx:84-86 | the first segment of a path is the whole text before its first `/` |
| TransferPage.RootCheckExamples | src/app/page.tsx:86-93 | `2024 TRANSFER` is accepted; `01_TRANSFERS`, a five-digit year and a suffixed name are rejected |
| TransferPage.FacetOfPath | src/app/page.tsx:107-116 | a path `year/date...` with non-empty, slash-free segments yields that year and date |
| TransferPage.FacetSound | src/app/page.tsx:107-116 | the facets of a path are non-empty slash-free segments that open it |
| TransferPage.FacetNone | src/app/page.tsx:108 | a path with a single segment yields no facet |
| TransferPage.FacetMapComplete | src/app/page.tsx:104-118 | every path's facets are recorded in the year-to-dates map |
| TransferPage.FacetMapSource | src/app/page.tsx:104-118 | every recorded year and date comes from some path |
| TransferPage.FacetMapNonEmpty | src/app/page.tsx:112-115 | every recorded year has at least one date |
| TransferPage.FacetsUnique | src/app/page.tsx:120-126 | the sorted years and dates of an upload are determined by its paths |
| TransferPage.ExtractFacets | src/app/page.tsx:104-127 | the years and each year's dates are sorted and without repeats, and they list exactly the facets of the paths |
| TransferPage.FinderPage.constructor | src/app/page.tsx:59-67 | every category starts pending and awaiting an upload, with nothing uploaded or selected |
| TransferPage.FinderPage.HandleFileChange | src/app/page.tsx:78-131 | no state changes for an empty selection or a rejected root; otherwise the results reset to awaiting selection, the selections clear, the files are kept and the facets are those of the upload's paths; the rendered table keeps its rows on a non-accepted selection and otherwise shows every category pending and awaiting a selection |
| TransferPage.FinderPage.Table | src/app/page.tsx:243-253 | (definition) the table rendered from the page's current results |
| TransferPage.FindStatus | src/app/page.tsx:245 | `find` by id: nothing if and only if no result carries the id, otherwise the first one that does |
| TransferPage.TableData | src/app/page.tsx:243-253 | one row per category, in order; each row holds its category's result, or pending and awaiting a scan when none carries its id |
| TransferPage.TableShowsResults | src/app/page.tsx:243-253 | with distinct ids, the table shows each category's own validation result |
| TransferPage.TableWithoutResults | src/app/page.tsx:248-250 | with no results every row is pending, awaiting a scan, with no details |
| TransferPage.TableOfPlaceholders | src/app/page.tsx:243-253 | the placeholder results show as pending rows carrying their message |
| TransferPage.UploadResetsTable | src/app/page.tsx:96 | after an accepted upload every row is pending and awaiting a selection |

## Left out

- Rendering, toasts, console logging, the `setTimeout` in `handleScan`, and clearing the file input are user-interface effects with no bearing on the results.
- `handleYearChange`, `handleScan` and the upload-button click are left out: they only set state cells or call `validateFolders` with the current selection.
- React's batching of state updates is modelled as assignments in program order. The `setDatesByYear({})` before the final `setDatesByYear` is therefore overwritten.
- The static category list (`folder-config`) is not part of this model. The categories are a parameter.
- `FolderConfig` fields `type`, `subType`, `displayPath` and `icon` are display data and are not modelled.
- A file's `lastModified` timestamp and `Date.getHours()` depend on the clock and the time zone. The model takes the local hour (0 to 23) as a field of the file.
- `localStorage` is a map from key to stored value, and `JSON.parse` is abstracted.
  - A stored text is either unparsable or parses to an optional toggle and an optional range map.
  - An empty stored text, a parse failure, a throwing read and a parsed `null` all leave the settings unchanged, like `Unparsable`.
  - Fields of the stored object other than the two settings are not kept.
  - A stored toggle that is not a boolean is not modelled.
- `SettingsContext.MergeStored`: a stored object without `timeCheckEnabled` leaves the toggle undefined, which every reader treats as false. The model stores false.
- `SettingsContext.Serialized`: writes `Some(false)` where `JSON.stringify` would leave out an undefined toggle. Both reload as a toggle read as false, so the model does not capture when the key is present in the stored text.
- `SettingsPage.HandleTimeChange`: `parseInt` leniency (`"12abc"` reads as 12) is not modelled. The handler receives the parsed number, or nothing for `NaN`.
- The settings page reads the settings captured at its last render, and `updateSettings` merges the patch into the provider's settings at the time of the update. `SettingsPage.HandleTimeChange` and `SettingsPage.AfterTimeChange` take one `current` value and apply the patch to that same value, so the model does not capture a render that lags behind the provider.
- `Text.Lower` lower-cases only the ASCII letters A to Z. Unicode case mapping is left out.
- `Text.Below` compares code points. JavaScript's `sort` compares UTF-16 code units. The two agree outside the supplementary planes.
- Validation.GlobMatch: a pattern containing a backslash directly before a single quote loses that backslash in the compiled regular expression. This corner case is not modelled; the model matches the backslash literally.
- Object keys inherited from `Object.prototype` (such as `constructor`) are not modelled. This applies when they are used as a year folder name, an extension or a category id. In the code such a key reads as present.
- `foundFileDetails` is a map, so the insertion order of its keys is not modelled. The order of the labels under each key is modelled.
- `isScanning` and the loading state of the provider (`return null` before initialisation) are display state and are not modelled.
