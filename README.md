# 3dspoolapp in Dafny

A model of the bookkeeping core of 3dspoolapp, a browser app for keeping an
inventory of 3D-printer filament spools. Each spool records a capacity, the
grams left and the matching percentage, a lifecycle status (ACTIVE, EMPTY,
ARCHIVED, IN_USE or IN_STORAGE) and, while in use, the printer it is mounted on.
The model covers:

- **Quantities.** Grams and percent are reconciled against a capacity floor of 1
  gram (`Utils`). Form input is sanitized (`Validation`).
- **Storage.** `Storage` covers the snapshot read back from browser storage, with
  its shape check and its migration of the legacy statuses. It also covers the
  `upsertSpool` and `removeSpool` list updates.
- **Grouping.** `Grouping` groups spools by brand, material, colour and diameter,
  with per-group counts, totals and means, and the two orderings.
- **Backup and import.** `DataTools` covers the backup checks, the merge by id,
  the import decision flow and the export file name.
- **Dialogs.** The spool details dialog handles use and refill, mark empty,
  storage and printer moves, and the printer choice (`SpoolDetails`). The
  add/edit form (`SpoolForm`) has a new-spool seed and the grams/percent link.
  Its mutable fields are a class.
- **Views.** The application shell (`App`) covers the filter and sort of the
  list, the material choices, and a `Store` class holding the data and writing
  every change through. `StatPills` has the summary counts. `InventoryList` has
  the printer name map, the "low" badges, the quantity and brand handed on when
  adding to a group, and the printer cell. `ColorSwatch` covers colour names and
  hex colours.

Modelling conventions:

- **Numbers.** JavaScript numbers are Dafny `real`s. `Math.round(x)` is
  `Floor(x + 0.5)`, which is JavaScript's rounding for every real.
  - A number typed into a form field may be NaN or infinite. Where the code tests
    for that, it is `Validation.Num` (`Finite(v)` or `NonFinite`).
- **Text.** Strings are `seq<char>`. `trim` strips the ECMAScript white space set.
  `toLowerCase` and `toUpperCase` map ASCII letters only.
- **JSON values.** A value that the code reads as `any` after `JSON.parse` is a
  `Json.Json` value. This covers the stored snapshot and the imported backup.
  Typed spools become `Json` through `Filament.SpoolToJson`.
- **Clock, ids and dates.** Timestamps are opaque strings. `now` (the clock), the
  new id and the calendar date are parameters. `Date.parse`, applied to a
  timestamp property read with its `??` fallbacks, is a parameter
  `parse: Json -> Option<int>`; None stands for NaN.
- **Dialogs.** The answers to `prompt` and `confirm` are parameters.
- **Sorts.** Library sorts with a comparator are a stable insertion sort by an
  `(int, real)` key (`Sorting.SortBy`). `Array.prototype.sort` has been stable
  since ES2019.
- **Loops.** Loops written in the source are `method`s with loop invariants,
  proved equal to a specification function. These are:
  - the `groupSpools` map fill;
  - both `mergeById` loops;
  - `printerNameById`;
  - the token scan of `colorFromName`.

The type declarations of `src/types/filament.ts` lag behind the code that uses
them; the model follows the code:

- Material has the eight values of `src/types/filament.ts:1-9`.
- The code uses five statuses, IN_USE and IN_STORAGE besides the three of
  `src/types/filament.ts:11` (`src/lib/storage.ts:19`,
  `src/components/SpoolDetailsModal.tsx:56-69`).
- Spools carry a `printerId` and the data may hold `printers`, neither of which
  `src/types/filament.ts:13-40` declares.

Other behaviours of the code that the model keeps as written:

- The group rank tests ACTIVE (`src/lib/grouping.ts:60`), a status the load
  migration rewrites to IN_STORAGE (`src/lib/storage.ts:19`).
- Marking a spool empty keeps its printer (`src/components/SpoolDetailsModal.tsx:54`).
- A form save at 0 g keeps the chosen status (`src/components/SpoolFormModal.tsx:118`).
- A merge import applies only `version` and `spools`, so `printers` is dropped
  (`src/components/DataTools.tsx:119`).

## Model

| member | source | states |
|---|---|---|
| Utils.Clamp | src/lib/utils.ts:1-3 | within [lo, hi] when lo <= hi; the input itself when already in range; lo below, hi above |
| Utils.MathRound | src/lib/utils.ts:5-8 | the integer k with x - 0.5 < k <= x + 0.5, i.e. nearest, halves up |
| Utils.Round | src/lib/utils.ts:5-8 | `Math.round(n * 10^d) / 10^d`; for one decimal its meaning is proved by the three lemmas below |
| Utils.RoundTenth | src/lib/utils.ts:5-8 | round(x, 1) is a whole number of tenths within 0.05 of x |
| Utils.RoundTenthExact | src/lib/utils.ts:5-8 | a whole number of tenths is left unchanged by round(_, 1) |
| Utils.RoundTenthIdempotent | src/lib/utils.ts:5-8 | rounding to tenths twice equals rounding once |
| Utils.RoundPercentInRange | src/lib/utils.ts:5-8 | rounding a value of [0, 100] to tenths stays in [0, 100] |
| Utils.Share | src/lib/utils.ts:30 | the clamped percentage lies in [0, 100] |
| Utils.ShareCases | src/lib/utils.ts:30 | no grams give 0 %, a full spool 100 %, and in between exactly g / cap * 100 |
| Utils.SyncFromG | src/lib/utils.ts:28-32 | grams in [0, max(1, cap)] and percent in [0, 100] |
| Utils.SyncFromPct | src/lib/utils.ts:37-41 | grams in [0, max(1, cap)] and percent in [0, 100] |
| Utils.SyncFromGInRange | src/lib/utils.ts:28-32 | grams already within a capacity >= 1 are kept, with their percentage rounded to tenths |
| Utils.CapacityFloor | src/lib/utils.ts:29 | any capacity below 1, zero and negatives included, behaves as capacity 1 in both syncs |
| Utils.SyncNegative | src/lib/utils.ts:30-31 | negative grams give (0, 0) |
| Utils.SyncOverCapacity | src/lib/utils.ts:30-31 | grams beyond max(1, cap) give (max(1, cap), 100) |
| Utils.SyncIdempotent | src/lib/utils.ts:28-32 | re-syncing the synced grams with the same capacity yields the same pair |
| Utils.SyncFromPctMeaning | src/lib/utils.ts:37-41 | syncing from a percentage stores that share of max(1, cap) as grams, and that percentage rounded to tenths |
| Utils.SyncFromPctClose | src/lib/utils.ts:37-41 | the stored percent is within 0.05 of the requested percent clamped to [0, 100] |
| Utils.SyncPctThenG | src/lib/utils.ts:28-41 | syncing from grams what was synced from percent reproduces the pair |
| Validation.SanitizeText | src/lib/validation.ts:3-5 | no white space at either end; a slice of the input cut only at white space; a missing string gives "" |
| Validation.SanitizeTextIdempotent | src/lib/validation.ts:3-5 | sanitizing twice is sanitizing once |
| Validation.SanitizePositiveNumber | src/lib/validation.ts:7-10 | a finite n > 0 is kept and anything else becomes the fallback, so the result is > 0 when the fallback is |
| Validation.SanitizePercent | src/lib/validation.ts:12-15 | non-finite gives 0; otherwise in [0, 100], the identity on [0, 100], 0 below and 100 above |
| Validation.SanitizeNonNegative | src/lib/validation.ts:17-20 | non-finite gives 0; otherwise max(0, n), never negative |
| Validation.SanitizePositiveIdempotent | src/lib/validation.ts:7-10 | with a positive fallback, sanitizing the result again changes nothing |
| Validation.SanitizePercentIdempotent | src/lib/validation.ts:12-15 | sanitizing a sanitized percent changes nothing |
| Validation.SanitizeNonNegativeIdempotent | src/lib/validation.ts:17-20 | sanitizing a sanitized amount changes nothing |
| Filament.StatusNameInjective | src/types/filament.ts:11 | distinct statuses have distinct names, so string comparison on status is comparison of statuses |
| Filament.SpoolToJsonFields | src/lib/storage.ts:32-34 | an encoded spool is an object carrying its id, status name and updatedAt |
| Json.Get | src/lib/storage.ts:11 | a property read is defined exactly for an object having that key |
| Json.OrElse | src/components/DataTools.tsx:50-51 | `??` falls through on a missing property and on null only |
| Storage.EmptyData | src/lib/storage.ts:8 | the default is an object with exactly version 1 and an empty spools array |
| Storage.MigrateStatusValue | src/lib/storage.ts:19-20 | ACTIVE becomes IN_STORAGE, ARCHIVED becomes EMPTY, any other value is unchanged |
| Storage.IndexMap | src/lib/storage.ts:22 | spreading an array or string copies each element under its index key "0", "1", ... |
| Storage.IndexMapKeys | src/lib/storage.ts:22 | the copied keys are exactly the index keys and nothing else |
| Storage.MigrateItem | src/lib/storage.ts:16-23 | the result is an object; an object keeps every field but "status", which is migrated |
| Storage.MigrateItems | src/lib/storage.ts:16-23 | the migration keeps the count and order and maps each element |
| Storage.WellShaped | src/lib/storage.ts:11 | the shape test: version is the number 1 and spools is an array |
| Storage.Loaded | src/lib/storage.ts:5-29 | every failure gives the default snapshot |
| Storage.LoadData | src/lib/storage.ts:5-29 | returns the loaded snapshot, which always passes the version-1 shape test |
| Storage.LoadedMigrates | src/lib/storage.ts:16-25 | a well-shaped snapshot keeps every field but spools, whose elements are migrated in order |
| Storage.LoadedNullElement | src/lib/storage.ts:16-17 | a null element makes the read throw and the default is returned (also src/lib/storage.ts:26-28) |
| Storage.MigrateStatusValueIdempotent | src/lib/storage.ts:19-20 | migrating a status twice is migrating it once |
| Storage.MigrateItemIdempotent | src/lib/storage.ts:16-23 | migrating an element twice is migrating it once |
| Storage.LoadedIdempotent | src/lib/storage.ts:5-29 | loading what was loaded gives the same snapshot |
| Storage.MigrateStatus | src/lib/storage.ts:19-20 | on typed statuses: ACTIVE to IN_STORAGE, ARCHIVED to EMPTY, others unchanged |
| Storage.MigrateStatusName | src/lib/storage.ts:19-20 | the string migration agrees with the typed migration |
| Storage.MigrateEncodedSpool | src/lib/storage.ts:16-23 | migrating an encoded spool is encoding the migrated spool: no other field changes |
| Storage.LoadSavedData | src/lib/storage.ts:5-34 | a saved version-1 snapshot loads back with each spool's status migrated, count and order kept |
| Storage.FindIndex | src/lib/storage.ts:37 | -1 exactly when no spool has the id; otherwise the first position with it |
| Storage.UpsertSpool | src/lib/storage.ts:36-42 | a new id is prepended to the unchanged list; a known id replaces the first match, same length, all other positions kept |
| Storage.Upserted | src/lib/storage.ts:36-42 | the list `upsertSpool` returns, which the method above is proved to compute |
| Storage.UpsertedFinds | src/lib/storage.ts:36-42 | after an upsert the spool is found under its id and nothing else was added |
| Storage.UpsertedIdempotent | src/lib/storage.ts:36-42 | upserting the same spool twice equals once |
| Storage.RemoveSpool | src/lib/storage.ts:44-46 | keeps exactly the spools with another id, never longer |
| Storage.RemoveSpoolAppend | src/lib/storage.ts:44-46 | removal splits over concatenation, so the kept spools stay in order |
| Storage.RemoveSpoolAbsent | src/lib/storage.ts:44-46 | removing an absent id returns the list unchanged |
| Storage.RemoveSpoolIdempotent | src/lib/storage.ts:44-46 | removing twice equals removing once |
| Storage.RemoveAfterUpsert | src/lib/storage.ts:36-46 | deleting a spool just upserted leaves what deleting it at once leaves |
| Sorting.SortBy | src/lib/grouping.ts:57 | the sorted list is a permutation of the input |
| Sorting.SortByStable | src/lib/grouping.ts:57 | for every key, the elements with that key come out in their input order |
| Sorting.SortBySorted | src/lib/grouping.ts:62-66 | the result is ordered by the key |
| Sorting.MemberOfSorted | src/App.tsx:49-55 | sorting neither adds nor drops elements |
| Sorting.SumOfSorted | src/lib/grouping.ts:57 | sorting keeps a weighted sum |
| Sorting.SortKeepsDistinct | src/components/DataTools.tsx:49 | sorting keeps elements' images distinct |
| Grouping.BrandLabelOf | src/lib/grouping.ts:15-18 | the trimmed brand, or "(no brand)" when missing or blank; never empty |
| Grouping.KeyOf | src/lib/grouping.ts:24-30 | the group key: brand label, material, trimmed lower-cased colour and diameter |
| Grouping.NewGroup | src/lib/grouping.ts:34-44 | the record a new key starts with: the spool alone, count 1, its grams and its percent |
| Grouping.AddMember | src/lib/grouping.ts:46-50 | the update of a known key: push, count plus one, grams added, mean recomputed over all members |
| Grouping.FindKey | src/lib/grouping.ts:32 | the map lookup: -1 exactly when no record has the key, otherwise its position |
| Grouping.GroupSpools | src/lib/grouping.ts:20-69 | the loop over an insertion-ordered map, the member sort and the group sort compute `Grouped` |
| Grouping.Grouped | src/lib/grouping.ts:20-68 | the accumulated records with members sorted by percent, then sorted by rank and mean; its meaning is the lemmas below |
| Grouping.AccumulatedIsOk | src/lib/grouping.ts:23-52 | after the loop each key has one record holding its spools, count, total and mean, with fields from its first spool |
| Grouping.GroupedGroup | src/lib/grouping.ts:33-57 | each group holds exactly the input spools of its key, ascending by percent; its counts and fields are as above |
| Grouping.GroupedKeysDistinct | src/lib/grouping.ts:25-32 | no two groups share a key |
| Grouping.GroupedPlacesSpool | src/lib/grouping.ts:23-52 | every input spool is in the group of its key and in no other |
| Grouping.GroupedCountTotal | src/lib/grouping.ts:41-47 | the group counts add up to the number of input spools |
| Grouping.GroupedOrder | src/lib/grouping.ts:60-66 | groups with an ACTIVE member come first; the same rank is ascending by average percent |
| Grouping.GroupedEmpty | src/lib/grouping.ts:20-68 | no spools give no groups |
| DataTools.IsValidAppData | src/components/DataTools.tsx:23-25 | an object whose version is the number 1 and whose spools is an array; the next row proves it is the load test |
| DataTools.IsValidSpoolLike | src/components/DataTools.tsx:27-29 | an object whose id is a string with a non-space character, nothing else checked |
| DataTools.ValidAppDataIsWellShaped | src/components/DataTools.tsx:23-25 | the import test accepts exactly the snapshots the load test accepts |
| DataTools.EncodedSpoolIsValid | src/components/DataTools.tsx:27-29 | a spool the app writes passes the spool test when its id is not blank |
| DataTools.Values | src/components/DataTools.tsx:49 | the values in the map's insertion order: position j holds the record of the j-th key inserted |
| DataTools.ValuesOnePerKey | src/components/DataTools.tsx:49 | in a consistent map there are as many values as keys, and each key's record sits at that key's place |
| DataTools.Set | src/components/DataTools.tsx:40 | one guarded `map.set`: a new id is appended, a known id keeps its place, an invalid record is skipped |
| DataTools.MergeById | src/components/DataTools.tsx:35-54 | the two loops and the sort compute `Merged` |
| DataTools.PutAllOk | src/components/DataTools.tsx:36-46 | the map holds, for each id, the last valid record listed with it |
| DataTools.LastWithIdFacts | src/components/DataTools.tsx:39-46 | the record kept is valid, bears the id, and comes after every other valid record with the id |
| DataTools.LastWithIdAppend | src/components/DataTools.tsx:44-46 | a later record with the same id hides every earlier one |
| DataTools.Recency | src/components/DataTools.tsx:50-51 | the sort key of a record: `Date.parse(updatedAt ?? createdAt ?? "")`, or 0 when that is NaN |
| DataTools.Merged | src/components/DataTools.tsx:35-54 | the values of the filled map sorted by recency, newest first; its meaning is the five lemmas below |
| DataTools.MergedMembers | src/components/DataTools.tsx:35-54 | a record is in the merge iff it is valid and the last valid record with its id |
| DataTools.MergedContents | src/components/DataTools.tsx:39-46 | only valid records survive, and every valid id of either side is kept |
| DataTools.MergedPrefersIncoming | src/components/DataTools.tsx:44-46 | on an id collision the merge keeps an incoming record |
| DataTools.MergedIdsDistinct | src/components/DataTools.tsx:36-49 | no id occurs twice in the merge |
| DataTools.MergedNewestFirst | src/components/DataTools.tsx:49-53 | the merge is non-increasing by parsed updatedAt ?? createdAt, unparsable as 0 |
| DataTools.Mode | src/components/DataTools.tsx:81-90 | the trimmed, upper-cased answer, with a cancelled prompt as ""; the next two rows say which answers choose a mode |
| DataTools.ModeOfAnswer | src/components/DataTools.tsx:81-90 | the answer means R or M exactly when, trimmed, it is that letter in either case |
| DataTools.ModeOfCancel | src/components/DataTools.tsx:81-90 | a cancelled prompt chooses no mode |
| DataTools.HandleFilePick | src/components/DataTools.tsx:66-125 | no file, unreadable, invalid, no mode or declined apply nothing; Replace applies the file unchanged; Merge applies version 1 with the merged list |
| DataTools.ImportAppliesValidData | src/components/DataTools.tsx:109-119 | a merge import applies a valid snapshot whose records all pass the spool test |
| DataTools.TwoDigitsValue | src/components/DataTools.tsx:60-61 | a number below 100 becomes exactly two digits denoting it |
| DataTools.IntStringInjective | src/components/DataTools.tsx:59 | distinct years print differently |
| DataTools.ExportFilename | src/components/DataTools.tsx:58-62 | the backup name built from the date; its parts and injectivity are the next two rows |
| DataTools.ExportFilenameParts | src/components/DataTools.tsx:58-62 | the name is the fixed prefix, then the year, month and day digits, then ".json" |
| DataTools.ExportFilenameDeterminesDate | src/components/DataTools.tsx:58-62 | two backup names are equal iff their dates are |
| SpoolDetails.ApplyDelta | src/components/SpoolDetailsModal.tsx:32-50 | the pair is the grams sync of remainingG plus or minus delta (non-finite as 0); 0 g is EMPTY, else EMPTY becomes IN_STORAGE and others stay; only those fields and updatedAt change |
| SpoolDetails.MarkEmpty | src/components/SpoolDetailsModal.tsx:52-55 | 0 g, 0 % and EMPTY whatever came before; printer and all else kept |
| SpoolDetails.NonFiniteDeltaIsZero | src/components/SpoolDetailsModal.tsx:34 | a non-finite amount acts as 0 |
| SpoolDetails.UsingAllMarksEmpty | src/components/SpoolDetailsModal.tsx:32-55 | using at least what is left equals marking the spool empty |
| SpoolDetails.UsedThenRefilled | src/components/SpoolDetailsModal.tsx:32-50 | using then refilling d grams restores the grams, and the status unless d emptied it |
| SpoolDetails.Toggle | src/components/SpoolDetailsModal.tsx:56-69 | IN_STORAGE goes IN_USE on its printer, else the first, else none; IN_USE goes IN_STORAGE without one; other statuses give no update |
| SpoolDetails.ToggleTwice | src/components/SpoolDetailsModal.tsx:56-69 | toggling twice returns to the starting status |
| SpoolDetails.Reassign | src/components/SpoolDetailsModal.tsx:144-148 | the selection becomes the printer, an empty one none; status kept |
| SpoolForm.NewSeed | src/components/SpoolFormModal.tsx:23-38 | capacity 1000, 1000 g, 100 %, ACTIVE, PLA, Black, 1.75 mm, blank texts, createdAt = updatedAt = now |
| SpoolForm.TrimEmptyIffBlank | src/lib/validation.ts:3-5 | trimming leaves nothing exactly when every character is white space |
| SpoolForm.CanSave | src/components/SpoolFormModal.tsx:96 | both the sanitized name and the sanitized colour are non-empty |
| SpoolForm.CanSaveIffNonBlank | src/components/SpoolFormModal.tsx:96 | saving is allowed iff both name and colour have a non-space character |
| SpoolForm.OptionalText | src/components/SpoolFormModal.tsx:111 | a blank field is absent; anything else is saved trimmed (also src/components/SpoolFormModal.tsx:119) |
| SpoolForm.AmountsSettle | src/components/SpoolFormModal.tsx:79-94 | the synced pair is a fixed point of the grams sync |
| SpoolForm.Save | src/components/SpoolFormModal.tsx:98-127 | seed's id, createdAt and printer kept; now stamped; sanitized capacity > 0; pair synced by link mode; trimmed texts; choices as chosen |
| SpoolForm.SaveKeepsStatusAtZero | src/components/SpoolFormModal.tsx:103-118 | saving at 0 g keeps the chosen status, not forcing EMPTY |
| SpoolForm.ResaveIsStable | src/components/SpoolFormModal.tsx:53-66 | reopening a saved spool and saving again only refreshes updatedAt (also src/components/SpoolFormModal.tsx:98-127) |
| SpoolForm.Form.Open | src/components/SpoolFormModal.tsx:53-66 | every field is reset from the seed and the link mode is grams |
| SpoolForm.Form.ApplySync | src/components/SpoolFormModal.tsx:79-94 | writes the safe capacity and synced pair, nothing else; leaves the fields synchronized |
| SpoolForm.Form.EditCapacity | src/components/SpoolFormModal.tsx:184-187 | only the capacity changes, to the typed value |
| SpoolForm.Form.BlurCapacity | src/components/SpoolFormModal.tsx:188 | leaving the field stores the sanitized capacity and the pair synced in the current mode from the grams and percent shown; nothing else changes |
| SpoolForm.Form.EditRemainingG | src/components/SpoolFormModal.tsx:199-202 | in grams mode the percent follows at once; in percent mode only grams change |
| SpoolForm.Form.EditRemainingPct | src/components/SpoolFormModal.tsx:214-217 | in percent mode the grams follow at once; in grams mode only percent changes |
| SpoolForm.Form.ChooseLinkMode | src/components/SpoolFormModal.tsx:232-234 | switching mode syncs from the field that now leads (also src/components/SpoolFormModal.tsx:242-244) |
| SpoolForm.SaveOfSynchronized | src/components/SpoolFormModal.tsx:98-117 | a synchronized grams-mode form saves exactly the capacity, grams and percent it shows |
| App.Passes | src/App.tsx:41-48 | the material facet, then the status facet, then a blank query or a lower-cased haystack that includes it |
| App.Select | src/App.tsx:40-48 | keeps exactly the spools passing the facets and query, each as often as it occurs, never more |
| App.FilteredCounts | src/App.tsx:37-56 | each passing spool is listed as often as it occurs in the data, the others not at all |
| App.Filtered | src/App.tsx:37-56 | the passing spools sorted by (rank, percent); members, counts and order are the rows around it |
| App.FilteredMembers | src/App.tsx:37-56 | a spool is listed iff it passes the material facet, the status facet and the query |
| App.FilteredOrder | src/App.tsx:49-55 | the list is ACTIVE, then EMPTY, then the rest, ascending by percent within a rank |
| App.NoFilterKeepsAll | src/App.tsx:42-44 | with both facets ALL and a blank query the list is a reordering of all spools |
| App.QueryFindsNameAndColor | src/App.tsx:38 | a query found case-insensitively in the name or colour lets the spool through (also src/App.tsx:46-47) |
| App.NameRankIsStringOrder | src/App.tsx:117 | the material rank order is the default string order of their names |
| App.DistinctMaterials | src/App.tsx:116 | each material present, exactly once |
| App.MaterialOptions | src/App.tsx:115-118 | the distinct materials sorted by name; members and order are the next two rows |
| App.MaterialOptionsMembers | src/App.tsx:115-118 | the options are exactly the materials present |
| App.MaterialOptionsOrder | src/App.tsx:115-118 | the options are strictly ascending by name, so none repeats |
| App.Store.constructor | src/App.tsx:20-33 | the store starts from the loaded data with no dialog open |
| App.Store.Persist | src/App.tsx:58-62 | spools replaced, other data fields kept, the result written |
| App.Store.ApplyData | src/App.tsx:65-74 | an import replaces and writes all data and closes the dialogs |
| App.Store.SaveSpool | src/App.tsx:88-91 | spools become the upsert of the spool; written; dialogs untouched |
| App.Store.UpdateSpool | src/App.tsx:93-97 | as a save, and the details dialog shows the new spool |
| App.Store.DeleteSpool | src/App.tsx:99-106 | declined changes nothing; confirmed removes the id, writes and closes details |
| App.SaveThenDelete | src/App.tsx:88-106 | saving then deleting a spool equals deleting it at once |
| StatPills.Where | src/components/StatPills.tsx:4-8 | a filter keeps exactly the elements passing the predicate, each as often as it occurs, never more |
| StatPills.Available | src/components/StatPills.tsx:4 | the filter of the non-EMPTY spools, shown as "available" |
| StatPills.InUseSpools | src/components/StatPills.tsx:5 | the filter of the IN_USE spools |
| StatPills.TotalG | src/components/StatPills.tsx:7 | the grams of the available spools added up |
| StatPills.Low | src/components/StatPills.tsx:8 | the available spools at or below 10 % with grams left |
| StatPills.AvailableMembers | src/components/StatPills.tsx:4 | "available" holds each non-EMPTY spool as often as it occurs and nothing else, so `active.length` counts them |
| StatPills.InUseMembers | src/components/StatPills.tsx:5 | "in use" holds each IN_USE spool as often as it occurs and nothing else, so `inUse.length` counts them |
| StatPills.InUseAtMostAvailable | src/components/StatPills.tsx:4-5 | "in use" never exceeds "available" |
| StatPills.LowMembers | src/components/StatPills.tsx:8 | "low" holds each non-EMPTY spool at or below 10 % with grams left as often as it occurs and nothing else, at most "available" |
| StatPills.TotalGCountsAvailable | src/components/StatPills.tsx:7 | the total adds the grams of every non-EMPTY spool and nothing else |
| StatPills.TotalGNonNegative | src/components/StatPills.tsx:7 | with no negative amounts the total is never negative |
| InventoryList.PctBar | src/components/InventoryList.tsx:27-28 | the bar width is the percentage clamped to [0, 100] |
| InventoryList.PctBarIsClamp | src/components/InventoryList.tsx:28 | the bar clamps as `clamp(pct, 0, 100)` does |
| InventoryList.PrinterNameById | src/components/InventoryList.tsx:47-51 | the loop of `m.set` calls builds the name map |
| InventoryList.NameMapLastWins | src/components/InventoryList.tsx:47-51 | each id maps to the name of the last printer listed with it |
| InventoryList.NameMapKeys | src/components/InventoryList.tsx:47-51 | the map's keys are exactly the printers' ids |
| InventoryList.PrinterLabel | src/components/InventoryList.tsx:192-198 | shown only for IN_USE; "Unassigned" without a printer id, the printer's name, or "Unknown" |
| InventoryList.PrinterLabelNamesPrinter | src/components/InventoryList.tsx:47-51 | a spool on a listed printer shows that printer's name (also src/components/InventoryList.tsx:192-198) |
| InventoryList.PrinterLabelUnknown | src/components/InventoryList.tsx:192-198 | a spool on an id no printer has shows "Unknown" |
| InventoryList.RowLow | src/components/InventoryList.tsx:171 | the row badge: not EMPTY, at most 10 %, grams left |
| InventoryList.GroupLow | src/components/InventoryList.tsx:74 | the group badge: mean at most 10 % and a positive total |
| InventoryList.RowLowIsCounted | src/components/InventoryList.tsx:171 | rows with the low badge are exactly the spools the "low" pill counts (also src/components/StatPills.tsx:8) |
| InventoryList.GroupLowHasLowMembers | src/components/InventoryList.tsx:74 | a low group has a member at or below 10 % and a member with grams left |
| InventoryList.Quantity | src/components/InventoryList.tsx:116 | an integer in [1, 50]; empty gives 1; in range gives its floor |
| InventoryList.BrandFromLabel | src/components/InventoryList.tsx:119 | "(no brand)" gives no brand; any other label is the brand (also src/components/InventoryList.tsx:145) |
| InventoryList.BrandThroughLabel | src/lib/grouping.ts:15-18 | a trimmed brand survives label and back; a blank brand comes back absent (also src/components/InventoryList.tsx:119) |
| InventoryList.BrandNamedLikeSentinel | src/components/InventoryList.tsx:119 | a brand literally "(no brand)" comes back absent |
| Text.TrimFacts | src/lib/validation.ts:3-5 | trim is the slice left after cutting leading and trailing white space |
| Text.TrimIdempotent | src/lib/validation.ts:3-5 | trimming twice is trimming once |
| Text.LowerIdempotent | src/components/ColorSwatch.tsx:3-5 | lower-casing twice is lower-casing once |
| Text.TrimLowerCommute | src/components/ColorSwatch.tsx:3-5 | trimming and lower-casing commute |
| Text.DecimalRoundTrip | src/components/DataTools.tsx:59-61 | the decimal digits of n denote n |
| ColorSwatch.Normalize | src/components/ColorSwatch.tsx:3-5 | the trimmed, lower-cased name |
| ColorSwatch.NormalizeIdempotent | src/components/ColorSwatch.tsx:3-5 | normalizing twice is normalizing once |
| ColorSwatch.NormalizeFacts | src/components/ColorSwatch.tsx:3-5 | a normalized name has no surrounding space, the trimmed length and no ASCII capitals |
| ColorSwatch.IsHexColor | src/components/ColorSwatch.tsx:7-10 | the trimmed text is "#" and 3, 6 or 8 hex digits |
| ColorSwatch.IsHexColorOfTrimmed | src/components/ColorSwatch.tsx:7-10 | surrounding white space never changes the hex test |
| ColorSwatch.IsHexColorIgnoresCase | src/components/ColorSwatch.tsx:7-10 | the hex test accepts digits in either case alike |
| ColorSwatch.TableKeysHaveNoSep | src/components/ColorSwatch.tsx:16-35 | no table key is empty or contains a separator |
| ColorSwatch.TokensWellFormed | src/components/ColorSwatch.tsx:40 | every token is non-empty and has no separator |
| ColorSwatch.TokensSplit | src/components/ColorSwatch.tsx:40 | a separator splits the tokens into those before and after it |
| ColorSwatch.TokensOfWord | src/components/ColorSwatch.tsx:40 | text without separators is one token, or none when empty |
| ColorSwatch.FirstHitFacts | src/components/ColorSwatch.tsx:41-43 | the hit is the earliest token in the table, none when no token is |
| ColorSwatch.ScanColorName | src/components/ColorSwatch.tsx:12-51 | the early-return token loop computes `ColorFromName` |
| ColorSwatch.ColorFromName | src/components/ColorSwatch.tsx:12-51 | whole-name hit, then the earliest token hit, then the name itself when short; its cases are the rows around it |
| ColorSwatch.ExactHitWins | src/components/ColorSwatch.tsx:37 | a whole-name hit wins before any token lookup |
| ColorSwatch.TokenHitDecides | src/components/ColorSwatch.tsx:40-43 | otherwise the earliest token in the table decides |
| ColorSwatch.NoHitFallsBack | src/components/ColorSwatch.tsx:48-50 | otherwise the name comes back iff its normalized form is non-empty and at most 20 characters |
| ColorSwatch.VariantFindsBaseColor | src/components/ColorSwatch.tsx:39-43 | "matte black" gets black: a non-colour word then a colour word gives that colour |
| ColorSwatch.ColorFromNameResult | src/components/ColorSwatch.tsx:12-51 | the result is a table colour or the name itself, trimmed non-empty and at most 20 characters |
| ColorSwatch.Swatch | src/components/ColorSwatch.tsx:60-64 | a hex colour trimmed, otherwise the colour looked up by name |
| ColorSwatch.SwatchOfHex | src/components/ColorSwatch.tsx:60-64 | a hex colour is shown trimmed, without the table |
| ColorSwatch.SwatchOfBlank | src/components/ColorSwatch.tsx:48-50 | a blank colour gets no swatch colour (also src/components/ColorSwatch.tsx:60-64) |
| ColorSwatch.SwatchOfTableName | src/components/ColorSwatch.tsx:37 | a table name in any case and spacing gets its table value (also src/components/ColorSwatch.tsx:60-64) |
| ColorSwatch.SwatchResult | src/components/ColorSwatch.tsx:60-64 | the swatch is a table colour or the trimmed colour (hex or short) |

## Left out

- Browser storage, `JSON.parse`, `JSON.stringify` and file reading: the model starts from the parsed value (`Storage.Stored`, `DataTools.FilePick`), and `saveData` is the `saved` field of `App.Store`.
- Downloading the backup (Blob, object URL, anchor click) and `alert`: output only. The export is modelled as its file name.
- `prompt` and `confirm`: their answers are parameters.
- `nanoidLike` and `new Date()`: they are random or read the clock, so the id, `now` and the calendar date are parameters.
- `formatDate` and `toLocaleString`: they depend on the locale and have no logic to prove.
- `Date.parse`: it is a parameter. `DataTools.MergedNewestFirst` holds for every parse function.
- IEEE floating point: numbers are exact reals. Rounding error, NaN propagation through arithmetic, and the `|| 0` test on a NaN parse result (None in the model) are not modelled beyond the Finite/NonFinite tag.
- Unicode case mapping: `toLowerCase` and `toUpperCase` act on ASCII letters only.
- `ColorSwatch.NoHitFallsBack`: the 20-character limit counts Dafny characters, while JavaScript counts UTF-16 code units, so a name with characters outside the Basic Multilingual Plane can differ.
- Prototype keys in the colour table: the table is a finite map, so names such as "constructor" miss.
- `InventoryList.Quantity`: a non-numeric quantity, which gives NaN in the source, is not modelled. The field is an optional number.
- The cast of an imported or loaded `any` to `AppData`: `App.Store.ApplyData` takes typed data. The untyped import result is `DataTools.ImportOutcome`.
- `createdAt: seed.createdAt ?? now` in the form save: the model's `Spool` always carries a `createdAt`, so the `?? now` fallback is not modelled. The source does reach it: the edit seed can be a record brought in by a Replace or Merge import, and the import's spool test checks only the id, so a backup record without `createdAt` gets `now` on save.
- The form's plain text and select setters (name, brand, colour, material, diameter, status, notes) are not modelled. Each sets one field of `SpoolForm.Form`.
- `handleAdd`, `handleOpenDetails` and `handleEditFromDetails` only open dialogs, and the model has no dialog modes.
- The keyboard handler, the JSX rendering and the `useMemo` caching are presentation only.
- The printers list is not passed from the application shell to the list and the details dialog. The model takes the printers as a given sequence.
- The printers dialog is not part of this model: it is UI, with a locale-dependent sort.
- `groupSpools` updates the group records in place through the map. The model carries them as values in an insertion-ordered map (`Grouping.GroupSpools`), so aliasing between the map entry and the pushed list is not captured.
- The `group.key` string join: it is modelled as a tuple, because the joined string is injective on these fields.
- The `spools` of an imported merge: it is passed the current spools as `Json`. The typed `AppData` is encoded with `Filament.SpoolsToJson`.
