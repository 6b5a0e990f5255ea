# Acquisition-tax law catalog: a Dafny model

This project models the data logic inside `AcquisitionTaxLaws`, the React view
that shows a searchable catalog of Korean acquisition-tax statute references.
The catalog is a sequence of titled sections. Each section holds law entries,
and each entry has a title, a link and up to seven keyword tags. The view
does four things with it, and the model covers all four:

- **Keyword editing dialog** (`KeywordEditor`, `Component.EditKeywordsDialog`).
  The dialog adds a trimmed, non-blank, not-yet-present keyword while the list
  has fewer than seven. It removes a keyword by position.
- **Live search** (`LawCatalog`). For each section it keeps the entries whose
  lower-cased title or some lower-cased keyword contains the lower-cased query.
  It then drops the sections left empty. It also counts the results.
- **Index resolution and keyword save** (`LawCatalog`, `Component.AcquisitionTaxLaws`).
  An entry shown in the filtered view is mapped back to the full catalog by
  `findIndex` on the section title and then on the entry title. Saving
  replaces that entry's keywords, persists the whole catalog and ends editing.
- **Expiring snapshot cache** (`SnapshotCache`, `Component.AcquisitionTaxLaws.Load`/`Save`).
  A save writes `{data, timestamp: now}` under `"acquisitionTaxLaws"`. A load
  returns the fallback when the key is absent or unparseable. When the stamp
  is truthy and strictly more than 2·365·24·60·60·1000 = 63,072,000,000 ms old,
  the load removes the key and returns the fallback. Otherwise it returns
  `data`, or the whole legacy value.

`Text` gives the string primitives the view uses: `trim` with the full
ECMAScript whitespace and line-terminator set, `toLowerCase` on ASCII letters,
and `includes`.

Some details of the code that the model keeps:

- The search trims the query only for the blank test (line 335). The match
  itself uses the untrimmed query (line 336). `LawCatalog.UntrimmedQueryExample`
  exhibits this.
- Empty sections are dropped even for a blank query (line 342). So a blank
  query returns the catalog unchanged only when no section is empty
  (`LawCatalog.BlankQueryFilter`).
- Writing keywords at an address that does not exist throws (line 351). It is
  not a no-op. So `HandleKeywordSave` requires a valid address.
- An envelope without a timestamp still returns its `data` field
  (`parsedData.data || parsedData`, line 305). Only a value without a `data`
  field is returned whole.
- The save handler does not itself enforce the seven-keyword cap. The cap
  holds because the dialog's add rule keeps it (`KeywordEditor.RunPreservesValid`).

Files: `text.dfy`, `keyword_editor.dfy`, `law_catalog.dfy`,
`snapshot_cache.dfy`, `component.dfy`. The clock (`Date.now`) is the
parameter `now`. Local storage is the field `storage`, a map from key to parsed
snapshot.

## Model

| member | source | states |
|---|---|---|
| Text.Trim | src/components/AcquisitionTaxLaws.tsx:335 | the result is the slice of the input left after cutting leading and trailing whitespace; it neither starts nor ends with whitespace, and it is empty exactly when the input is blank |
| Text.Lower | src/components/AcquisitionTaxLaws.tsx:336 | lower-casing keeps the length and maps every character pointwise, with no upper-case ASCII letter left |
| Text.Contains | src/components/AcquisitionTaxLaws.tsx:338-339 | `includes` is true exactly when the substring occurs at some position |
| KeywordEditor.Open | src/components/AcquisitionTaxLaws.tsx:35-36 | the dialog starts with the entry's keywords and an empty input |
| KeywordEditor.SetInput | src/components/AcquisitionTaxLaws.tsx:82 | typing replaces the input and leaves the list alone |
| KeywordEditor.AddKeyword | src/components/AcquisitionTaxLaws.tsx:38-43 | appends the trimmed input at the end, and clears the input, iff it is non-blank, the list has fewer than 7 keywords and it is absent; otherwise nothing changes; an add never crosses 7 and keeps the list duplicate-free |
| KeywordEditor.RemoveAt | src/components/AcquisitionTaxLaws.tsx:46 | an in-range index removes exactly that element: the length drops by one and the others keep their order; an out-of-range index changes nothing |
| KeywordEditor.RemoveKeyword | src/components/AcquisitionTaxLaws.tsx:45-47 | removal edits the list only; the input is kept |
| KeywordEditor.RemoveAtPreservesValid | src/components/AcquisitionTaxLaws.tsx:45-47 | removal keeps a list bounded and duplicate-free, and the removed keyword is gone |
| KeywordEditor.AddKeywordIdempotent | src/components/AcquisitionTaxLaws.tsx:38-43 | pressing add twice leaves the whole dialog state (list and input) as pressing it once |
| KeywordEditor.Step | src/components/AcquisitionTaxLaws.tsx:38-47 | one dialog action (typing at line 82, add at 38-43 or 83, remove at 46) changes the list only by appending the trimmed input on add or removing by position on remove; the list never grows past both its length and 7; a valid list stays valid |
| KeywordEditor.Run | src/components/AcquisitionTaxLaws.tsx:38-47 | after any sequence of actions the list is no longer than both its start and 7; typing alone never changes the list |
| KeywordEditor.RunPreservesValid | src/components/AcquisitionTaxLaws.tsx:38-47 | any sequence of typing, adds and removes turns a valid list (at most 7 keywords, no duplicates) into a valid list |
| LawCatalog.SomeKeywordContains | src/components/AcquisitionTaxLaws.tsx:339 | `some` is true exactly when some lower-cased keyword contains the query |
| LawCatalog.MatchesQueryIff | src/components/AcquisitionTaxLaws.tsx:336-340 | an entry matches iff the lower-cased query occurs in its lower-cased title or in some lower-cased keyword; the empty query matches every entry |
| LawCatalog.KeepsIff | src/components/AcquisitionTaxLaws.tsx:334-341 | the filter callback keeps every entry for a blank query, and for any other query exactly the entries the untrimmed query matches |
| LawCatalog.FilterLaws | src/components/AcquisitionTaxLaws.tsx:334-341 | every kept entry occurs as often as in the input and every other entry not at all; kept entries are a subsequence of the input in their original order; if every entry passes, the input comes back unchanged |
| LawCatalog.NarrowSections | src/components/AcquisitionTaxLaws.tsx:332-341 | the `map` step keeps every section, in place, with its entries filtered |
| LawCatalog.DropEmptySections | src/components/AcquisitionTaxLaws.tsx:342 | every non-empty section occurs as often as in the input and every empty one not at all; order is kept; the length is unchanged iff no section is empty, and then the catalog comes back whole |
| LawCatalog.FilterCatalog | src/components/AcquisitionTaxLaws.tsx:332-342 | `filteredLaws` is never longer than the catalog; a section is shown iff it is some catalog section narrowed to its kept entries and has at least one |
| LawCatalog.FilterCatalogEntries | src/components/AcquisitionTaxLaws.tsx:332-342 | soundness and completeness: an entry is in an output section with a given title iff it is in an input section with that title and the filter keeps it |
| LawCatalog.FilterCatalogNoEmptySection | src/components/AcquisitionTaxLaws.tsx:342 | no output section is empty |
| LawCatalog.FilterPreservesOrder | src/components/AcquisitionTaxLaws.tsx:332-342 | output section titles are a subsequence of the input's, and each output section's entries are a subsequence of its source section's |
| LawCatalog.BlankQueryFilter | src/components/AcquisitionTaxLaws.tsx:335-342 | a blank query only drops empty sections, so it returns the catalog unchanged iff no section is empty |
| LawCatalog.NoResultsIff | src/components/AcquisitionTaxLaws.tsx:332-342 | the filtered view is empty iff no entry of the catalog passes the filter |
| LawCatalog.NoResultsShown | src/components/AcquisitionTaxLaws.tsx:450 | the "no results" message shows iff the query is non-empty and no entry of the catalog passes the filter |
| LawCatalog.ResultCount | src/components/AcquisitionTaxLaws.tsx:382 | the entry count over all sections is zero iff every section is empty, and is at least the size of each section |
| LawCatalog.ResultCountIsReduce | src/components/AcquisitionTaxLaws.tsx:382 | the `reduce` as a left fold adding each section's entry count to the accumulator yields, from any accumulator, that accumulator plus `ResultCount`; from 0, exactly `ResultCount` |
| LawCatalog.ResultCountSnoc | src/components/AcquisitionTaxLaws.tsx:382 | appending a section raises the count by exactly that section's number of entries |
| LawCatalog.ResultCountOfFilter | src/components/AcquisitionTaxLaws.tsx:382 | the shown count is at most the catalog's entry count, and equals it for a blank query |
| LawCatalog.FindIndex | src/components/AcquisitionTaxLaws.tsx:388 | `findIndex` returns -1 iff the title is absent, else the first position holding it |
| LawCatalog.Resolve | src/components/AcquisitionTaxLaws.tsx:388-396 | the section index is the first section with the shown title; the entry index is valid iff that section has an entry with the shown title, and then it names the first such entry; otherwise it is -1 |
| LawCatalog.ResolveDisplayedEntry | src/components/AcquisitionTaxLaws.tsx:387-415 | with unique section titles, every entry the search shows resolves to a valid address of an entry with the same title, and to that very entry when entry titles are unique in its section |
| LawCatalog.ResolveCatalogEntry | src/components/AcquisitionTaxLaws.tsx:388-396 | with unique section titles, an entry of section i resolves to a valid address in section i of an entry with its title, and to that very entry when entry titles in the section are unique |
| LawCatalog.DuplicateSectionTitlesMisresolve | src/components/AcquisitionTaxLaws.tsx:388-396 | with two sections of one title, an entry of the second is shown but resolves to no entry |
| LawCatalog.DuplicateLawTitlesMisaddress | src/components/AcquisitionTaxLaws.tsx:396 | with two entries titled "x" in one section, both are shown, yet the second resolves to the address of the first, a different entry |
| LawCatalog.SetKeywords | src/components/AcquisitionTaxLaws.tsx:350-351 | only the addressed entry's keywords change; every other entry, every title, every url and the catalog's shape are kept |
| LawCatalog.SetKeywordsPreserves | src/components/AcquisitionTaxLaws.tsx:351 | a valid list keeps a valid catalog valid, and section and entry titles are unchanged |
| LawCatalog.SearchExample | src/components/AcquisitionTaxLaws.tsx:332-342 | searching "foo" over section A with X ["foo"] and Y ["bar"] yields A with only X |
| LawCatalog.UntrimmedQueryExample | src/components/AcquisitionTaxLaws.tsx:335-336 | " x" trims to "x" yet finds nothing in a section holding an entry titled "x" |
| SnapshotCache.LoadValue | src/components/AcquisitionTaxLaws.tsx:291-310 | a load returns the fallback when the key is absent, unparseable or expired; the whole value of a legacy snapshot; and the data of an unexpired envelope, stamped or not |
| SnapshotCache.StoreAfterLoad | src/components/AcquisitionTaxLaws.tsx:300-301 | a load removes the key iff its snapshot has expired; all other keys are untouched |
| SnapshotCache.StoreAfterSave | src/components/AcquisitionTaxLaws.tsx:313-319 | a save stores `{data, timestamp: now}` under "acquisitionTaxLaws" and touches no other key |
| SnapshotCache.SaveThenLoad | src/components/AcquisitionTaxLaws.tsx:296-319 | save then load: within two years (or with stamp 0) the saved catalog comes back and the store is unchanged; after more than two years the fallback comes back and the key is gone |
| SnapshotCache.ExpiryBoundary | src/components/AcquisitionTaxLaws.tsx:288-300 | exactly 63,072,000,000 ms after the stamp a snapshot is fresh; one ms later it has expired |
| SnapshotCache.LoadIdempotent | src/components/AcquisitionTaxLaws.tsx:291-310 | a second load at the same time returns the same value and changes nothing further |
| SnapshotCache.ExpiryIsPermanent | src/components/AcquisitionTaxLaws.tsx:300 | an expired snapshot stays expired at every later time |
| Component.EditKeywordsDialog.constructor | src/components/AcquisitionTaxLaws.tsx:34-36 | a mounted dialog starts with the entry's keywords and an empty input |
| Component.EditKeywordsDialog.Act | src/components/AcquisitionTaxLaws.tsx:38-47 | each typing, add or remove action updates the dialog state by the editor rules |
| Component.AcquisitionTaxLaws.constructor | src/components/AcquisitionTaxLaws.tsx:283-329 | on mount the catalog is the load of "acquisitionTaxLaws" with the default as fallback, storage is as the load leaves it, and nothing is being edited |
| Component.AcquisitionTaxLaws.Load | src/components/AcquisitionTaxLaws.tsx:291-310 | returns the load value and leaves storage as the load leaves it |
| Component.AcquisitionTaxLaws.Save | src/components/AcquisitionTaxLaws.tsx:313-323 | storage becomes the store after save |
| Component.AcquisitionTaxLaws.OpenKeywordEditor | src/components/AcquisitionTaxLaws.tsx:358-361 | records the address, opens the dialog and mounts a fresh dialog on that entry's keywords (the corrected behaviour) |
| Component.AcquisitionTaxLaws.OpenKeywordEditorAsWritten | src/components/AcquisitionTaxLaws.tsx:461-469 | records the address and opens the dialog, but an already-mounted dialog keeps its old state |
| Component.AcquisitionTaxLaws.CancelDialog | src/components/AcquisitionTaxLaws.tsx:96 | cancel only hides the dialog; the address stays set |
| Component.AcquisitionTaxLaws.HandleKeywordSave | src/components/AcquisitionTaxLaws.tsx:348-356 | with an address set, the catalog becomes the keyword replacement at it, storage holds that catalog stamped with now, and editing ends; with none, nothing changes; validity of the catalog is kept for a valid list |
| Component.AcquisitionTaxLaws.SaveDialog | src/components/AcquisitionTaxLaws.tsx:49-52 | the dialog's current list is written to the edited entry and persisted, and the dialog closes |
| Component.AcquisitionTaxLaws.EditEntry | src/components/AcquisitionTaxLaws.tsx:348-361 | as written, from a view with no dialog mounted: opening the entry, typing, adding and saving gives that entry its own list with the typed keyword added by the add rule, changes nothing else, persists the catalog and keeps validity |
| Component.AcquisitionTaxLaws.EditShownEntry | src/components/AcquisitionTaxLaws.tsx:387-415 | as written, from a view with no dialog mounted: editing an entry shown by the search changes exactly that entry, to its own list with the keyword added; validity is kept; any load within two years reads the new catalog back |
| Component.StaleDialogExample | src/components/AcquisitionTaxLaws.tsx:35 | as written: edit A, cancel, edit B, save: B is saved with A's keywords |
| Component.FreshDialogExample | src/components/AcquisitionTaxLaws.tsx:461-469 | with a fresh dialog per edit the same clicks leave B with its own keywords |

## Findings

| source | as written | input that shows it | evidently intended | confidence | as-written member | corrected member |
|---|---|---|---|---|---|---|
| src/components/AcquisitionTaxLaws.tsx:35 | The dialog's keyword list is initialised from its props only when it mounts (`useState(keywords)`). It stays mounted while `editingLaw` is set (lines 461-469), and cancel (line 96) does not clear `editingLaw`. | Entry A has ["a"] and entry B has ["b"]. Open A, cancel, open B, save without edits: B is saved with ["a"]. | Each opened dialog shows and saves the opened entry's own keywords. | high; not executed | Component.AcquisitionTaxLaws.OpenKeywordEditorAsWritten, Component.StaleDialogExample | Component.AcquisitionTaxLaws.OpenKeywordEditor, Component.FreshDialogExample |

## Left out

- Rendering: the JSX markup, the card, dialog, badge, button and input components, the icons and the styling (lines 54-105 and 363-471). Only the state they drive is modelled.
- `window.open` on a link click (line 345). It is a browser side effect with no result.
- React scheduling: `useState` and `useEffect` are modelled as plain fields. Mounting is the constructor, which runs the initial load at once.
- `JSON.parse` and `JSON.stringify`. Stored text is modelled as its parsed form, `Snapshot`. A read that yields the default is the `Unparseable` case: the empty string returns the default before parsing (line 294), and a read that throws (`getItem` failing, unparseable text, or `null`, whose `.timestamp` throws) returns it from the `catch` (lines 306-309).
- SnapshotCache.LoadValue: an unexpired parsed value that has no truthy `data` field and is not a bare catalog is returned whole by the source (line 305). Examples are `{}`, `{timestamp: 0}`, `{timestamp: now}` and `{data: null}`, and also JSON primitives such as `""`, `false` or `0`, on which line 300 does not throw. Such a value is not a catalog, so it has no counterpart here. Timestamps are integers; non-numeric stamps are not modelled.
- Component.AcquisitionTaxLaws.EditShownEntry: stated only for a catalog whose section titles are unique and whose entry titles are unique within each section. The lookups at lines 388 and 396 match by title, so with repeated titles the edit lands on the first same-titled entry (`LawCatalog.DuplicateSectionTitlesMisresolve`, `LawCatalog.DuplicateLawTitlesMisaddress`). No save changes a title, so a catalog that starts with unique titles keeps them.
- Component.AcquisitionTaxLaws.EditShownEntry: stated only from a view with no dialog mounted. After a cancel the old dialog stays mounted and edits the stale list; that case is the finding above (`StaleDialogExample`).
- Component.AcquisitionTaxLaws.Save: `setItem` failures (quota exceeded) are caught and logged by the source (lines 320-322). In the model a save always succeeds.
- `console.error` logging.
- `toLowerCase` maps only ASCII A–Z. Other scripts' case mappings, including length-changing ones, are not modelled. Hangul has no case. Strings are sequences of Unicode scalar values, not UTF-16 code units.
- The built-in law dataset and the imported data modules (lines 109-275). The default catalog is the constructor's `defaults` parameter.
- Aliasing: line 351 writes the new keywords into the entry object shared with the previous `laws` array and with the built-in default dataset (the copy at line 350 is shallow). Catalogs are values here, so the change to the default dataset is not modelled.
- The Enter key (line 83) behaves like the add button. The add button is hidden at seven keywords (line 77). `AddKeyword` already refuses a full list, so neither is modelled separately.
