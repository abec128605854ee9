# Health report, navigation and portfolio page — a verified model

This project models the decision logic of three browser scripts, with the DOM, network, chart and
Vue glue stripped away:

- **The health-report page** (`health/check/index.js`). The configured `activeTests` are walked in
  order and identifiers without loaded data are skipped. Each record is keyed by its base type (the
  identifier without a trailing `_dddd`), each group is sorted newest first by `extractYear`, and
  the groups are ordered by the `diagnosis.sort` weight of their first record. One card is built
  per group, and a group with older records gets a history section bucketed by year. The module
  also covers the choice of result table (format error, none, allergy, comprehensive, standard),
  the split of a comprehensive table by category, and the search rule that hides cards.
- **The navigation menu and its small state** (`health/check/navigation.js`). The menu items are
  built from the loaded records that have a configuration, then split into reports (`checkup` in
  the identifier) and specialized tests. The reports are sorted by year, and the specialized tests
  are regrouped by base type. Then the "scroll to card" action is replaced by a history navigation
  on every item that is not the designated latest one. The same file's `hexToRgb` colour parser is
  modelled too, and so are two pieces of page state: the dropdowns, of which at most one is open,
  and the sidebar's list of collapsed sections.
- **The portfolio page** (`src/view/fund/index.js`). This covers:
  - `dedupeByName`, which merges the entries of one trimmed name;
  - the modal form and `saveAsset` with its two validation checks;
  - `deleteAsset`, `switchPreset` with `enrichWithDefaults`, and the text `exportData` writes;
  - the cloud view's packer, which places assets into a 10 x 10 array of cells.

Modules:

| module | file | what it holds |
|---|---|---|
| `Wrappers` | wrappers.dfy | `Option` |
| `Text` | text.dfy | digits, `parseInt` on digit strings, `${n}`, hex digits, `trim`, ASCII `toLowerCase`, `includes` |
| `Grouping` | grouping.dfy | the `{ key: [items] }` dictionaries the scripts build: buckets, first-seen keys, their concatenation |
| `Sorting` | sorting.dfy | `Array.prototype.sort` with a comparator `key(b) - key(a)`, as a stable descending insertion sort |
| `TestTypes` | testtypes.dfy | the base type of an identifier and its first four-digit run |
| `Report` | report.dfy | `index.js` |
| `Navigation`, `NavState` | navigation.dfy, navstate.dfy | `navigation.js`: menu derivation; dropdown and sidebar state |
| `Portfolio`, `CloudGrid` | portfolio.dfy, cloud_grid.dfy | `src/view/fund/index.js`: asset list and page; grid packer |

Conventions:

- Grid cells are an `array<int>` of asset indices, and -1 means an empty cell. JavaScript compares
  the cells by object identity, and an index plays that role here.
- Percentages are integers. A value that `Number(...)` or `parseInt` would read as NaN is `None`,
  so `Number(x) || 0` becomes `GetOr(0)`.
- An assignment past the end of the list (`assets[i] = x` with `i >= length`) leaves holes.
  `dedupeByName` then skips the holes, because they have no name.

Where `navigation.js` and `index.js` disagree, the model keeps each as written and proves the
difference:

- `Navigation.UndatedYearDiffers`: an undated identifier counts as year 0 in the menu but as the
  current year on the page, so the two orders of the same pair are opposite.
- `Navigation.ReportsMarkOtherBase`: in the reports menu only the first item of the whole list keeps
  the scroll action, even when the second item is the only record of another base type.
- `Navigation.HistoryTargetMissesCard`: a history navigation from the menu scrolls to
  `test-<base type>`, while the card `RenderCards` builds for a dated group carries the id
  `test-<identifier of its newest record>`.

## Model

| member | source | states |
|---|---|---|
| Report.ExtractYearSpec | health/check/index.js:322-325 | without a four-digit run the year is the supplied current year; otherwise it is the value of the leftmost run (below 10000) |
| Report.LoadedSpec | health/check/index.js:247-249 | every active identifier with data yields its entry, and every entry comes from an active identifier with data |
| Report.LoadEntries | health/check/index.js:247-264 | the loop over `activeTests` produces exactly the loaded entries, in `activeTests` order |
| Report.SortedBucketIsGroup | health/check/index.js:252-269 | a sorted non-empty bucket is a valid group: it holds exactly the shown records of its base type, years non-increasing, equal years in input order |
| Report.InOwnGroup | health/check/index.js:252-264 | every shown record is in the group of its own base type |
| Report.OnlyOwnBase | health/check/index.js:252-264 | a group holds only shown records of its own base type |
| Report.GroupTests | health/check/index.js:247-276 | the group keys and the order list agree and have no duplicates; every group is valid; groups are in non-increasing lead weight (the first record's `diagnosis?.sort`, or 0 when that is missing or zero), and equal weights keep first-seen order; the groups together are a permutation of the shown records |
| Report.UnweightedAfterWeighted | health/check/index.js:262-276 | in that order, a group whose first record has no diagnosis, no `sort` or a zero `sort` comes after every group whose first record has a positive weight |
| Report.OrderFacts | health/check/index.js:272-276 | sorting the first-seen base types by lead weight gives a duplicate-free order that covers exactly the groups, is sorted and stable, and whose concatenated groups are a permutation of the records |
| Report.AddHistoryToggle | health/check/index.js:328-379 | the history section counts `|group| - 1` records; its years are strictly descending, each year's bucket is non-empty, and the buckets together are exactly the older records, the group after its first (`group.slice(1)`) |
| Report.RenderCards | health/check/index.js:297-315 | one card per group in display order; each card shows the group's first record under the id `test-<its identifier>`, and it has a history section exactly when the group has more than one record |
| Report.RenderTestSections | health/check/index.js:242-320 | the cards follow the weight-sorted order, one per group, with no base type twice; equal weights keep first-seen order; every group is a valid group of the loaded records, and the groups together are a permutation of them, so every shown record is on exactly one card |
| Report.ChooseTable | health/check/index.js:429-465 | no diagnosis gives the format error; no results or an empty list gives no table; `allergy` gives the allergy table; otherwise `comprehensive_checkup` gives the comprehensive table and anything else the standard one (each as an if-and-only-if) |
| Report.RenderComprehensiveTable | health/check/index.js:809-822 | one section per category in first-seen order, each holding that category's rows in input order, none empty |
| Report.ComprehensiveTablePartition | health/check/index.js:813-822 | the sections are a partition: their rows together are a permutation of the results, and no category appears twice |
| Report.PerformSearch | health/check/index.js:162-183 | an empty lower-cased trimmed query hides nothing; otherwise a card is hidden exactly when its lower-cased text does not contain the query |
| Report.VisibleIsIncludes | health/check/index.js:165-175 | the empty-query shortcut agrees with the substring test |
| Report.SearchNarrows | health/check/index.js:175 | a card visible for a query stays visible for every piece of that query |
| TestTypes.BaseType | health/check/index.js:252 | the `_dddd` suffix, and only that suffix, is removed; an identifier without one is unchanged |
| TestTypes.BaseTypeOfDated | health/check/index.js:252 | `b_dddd` has base type `b` |
| TestTypes.YearInSpec | health/check/index.js:323-324 | the leftmost four-digit run is found exactly when one exists, and its value is below 10000 |
| TestTypes.YearInDated | health/check/index.js:323-324 | for `b_dddd` where `b` has no four-digit run, the year read is `dddd` |
| Sorting.SortDescSorted | health/check/index.js:267-269 | the sorted list has non-increasing keys |
| Sorting.SortDescPermutation | health/check/index.js:267-269 | sorting only reorders |
| Sorting.SortDescStable | health/check/index.js:267-269 | elements with equal keys keep their input order |
| Sorting.StableSortIsUnique | health/check/index.js:272-276 | any sorted arrangement with the input's per-key order is the sort's result |
| Sorting.SortBuckets | health/check/index.js:267-269 | every listed bucket is replaced by its sorted version, and nothing else changes |
| Grouping.GroupBy | health/check/index.js:247-264 | the keys come in first-seen order; each key's bucket holds its elements in input order and is not empty |
| Grouping.KeysProperties | health/check/index.js:254-256 | the first-seen keys have no duplicates, and they are exactly the keys that occur |
| Grouping.KeysInFirstSeenOrder | health/check/index.js:813-822 | keys are listed in the order of their first occurrence |
| Grouping.KeysGatherIsPermutation | health/check/navigation.js:106-134 | the buckets in first-seen key order are a permutation of the input |
| Grouping.ConcatInOrder | health/check/navigation.js:131-134 | the pushes concatenate the listed buckets in order |
| Navigation.MenuItemsSpec | health/check/navigation.js:67-79 | exactly the identifiers with both a record and a configuration get an item, built from that configuration |
| Navigation.MenuItemFallbacks | health/check/navigation.js:72-78 | every item takes its configuration's name and icon, or the identifier and "📋" when they are missing or empty, and links to `#test-<identifier>` and scrolls to `test-<identifier>` |
| Navigation.CollectItems | health/check/navigation.js:67-88 | the loop builds the two menus: the items with and the items without `checkup`, each in key order |
| Navigation.ItemsSplit | health/check/navigation.js:81-86 | every item is in exactly one menu, and in the reports menu exactly when its identifier contains `checkup` |
| Navigation.ReportsOrder | health/check/navigation.js:91-103 | the reports menu is in non-increasing menu year, and items of one year keep their order |
| Navigation.RegroupSpecialized | health/check/navigation.js:106-134 | the rebuilt list is the buckets of the base types in first-seen order, each sorted newest first |
| Navigation.RegroupedPermutation | health/check/navigation.js:106-134 | regrouping only reorders the specialized items |
| Navigation.GroupTail | health/check/navigation.js:146-162 | a position is past the head of its base type's bucket exactly when an earlier item has the same base type |
| Navigation.MarkGroup | health/check/navigation.js:158-162 | in one group, every item but the first gets the history action, and every other item is untouched |
| Navigation.MarkGroups | health/check/navigation.js:156-163 | after the pass over the listed groups, exactly the items of a listed base type with an earlier item of that base type carry the history action |
| Navigation.MarkSpecialized | health/check/navigation.js:145-163 | an item gets the history action exactly when an earlier item has the same base type |
| Navigation.MarkReports | health/check/navigation.js:137-142 | every report but the first of the whole list gets the history action |
| Navigation.RenderDataBasedNavigation | health/check/navigation.js:57-163 | the two menus are the sorted reports and the regrouped specialized items, each with the actions above |
| Navigation.SpecializedActions | health/check/navigation.js:145-163 | the first item of each base type scrolls to its own card; every later item opens history for its base type and identifier |
| Navigation.UndatedYearDiffers | health/check/navigation.js:93-96 | an undated identifier is year 0 in the menu but the current year on the page, so the menu and the page order the same two records oppositely |
| Navigation.ReportsMarkOtherBase | health/check/navigation.js:137-142 | the second report opens a history entry even when it is the first of its own base type |
| Navigation.HistoryTargetMissesCard | health/check/navigation.js:461-463 | a specialized item that opens a history entry scrolls to `test-<base type>`, which is not the id of the card built for that base type whenever the card's newest identifier has a year suffix |
| Navigation.HexToRgb | health/check/navigation.js:756-761 | a non-colour gives "116, 185, 255"; a colour gives three values below 256 |
| Navigation.HexToRgbRoundTrip | health/check/navigation.js:756-761 | every accepted colour, in any case, reads as three byte values that written back as `#rrggbb` give its digits in lower case |
| Navigation.HexToRgbIgnoresCase | health/check/navigation.js:757 | the `/i` flag: a colour and its lower-cased form read the same, and neither or both are accepted |
| Navigation.HexColorRoundTrip | health/check/navigation.js:756-761 | writing three byte values as `#rrggbb` and parsing them back gives the same three values |
| Navigation.HashOptional | health/check/navigation.js:757 | the leading `#` is optional |
| NavState.OpenCount | health/check/navigation.js:442 | the count is zero exactly when no dropdown is open |
| NavState.ToggledOpenCount | health/check/navigation.js:427-439 | after a toggle, one dropdown (the toggled one) is open if it was closed before, and none if it was open |
| NavState.ToggleTwice | health/check/navigation.js:427-439 | toggling the same dropdown twice restores its state and leaves every other dropdown closed |
| NavState.Dropdowns.CloseAllDropdowns | health/check/navigation.js:441-446 | every dropdown is closed |
| NavState.Dropdowns.ToggleDropdown | health/check/navigation.js:427-439 | the new flags are the toggle of the old ones, and at most one dropdown is open |
| NavState.IndexOf | health/check/navigation.js:576 | the first position of the id, or -1 exactly when it is absent |
| NavState.StoredAfterSpec | health/check/navigation.js:576-582 | a duplicate-free list stays duplicate-free; the id is listed exactly when the section is now collapsed |
| NavState.OthersUnchanged | health/check/navigation.js:576-582 | the other ids and their order are unchanged, even in a list with duplicates |
| NavState.Sidebar.ToggleSidebarSection | health/check/navigation.js:569-586 | a missing section changes nothing; otherwise its collapsed state flips, the stored list is updated, stays duplicate-free and agrees with the collapsed state for that id, and the other ids are kept |
| NavState.Sidebar.RestoreSidebarCollapsedState | health/check/navigation.js:589-597 | every stored id whose section exists becomes collapsed; nothing else changes |
| Text.Trim | src/view/fund/index.js:42 | the result has no whitespace at either end and is no longer than the input |
| Text.TrimIsSlice | src/view/fund/index.js:42 | `trim` removes only whitespace, and only from the two ends |
| Text.TrimIdempotent | src/view/fund/index.js:42 | trimming twice is trimming once |
| Text.NatToStringOfDecimalValue | src/view/fund/index.js:194 | printing the value of a canonical digit string gives the string back |
| Portfolio.DedupeByName | src/view/fund/index.js:38-60 | the loop produces the merged list: one entry per non-empty trimmed name, in first-seen order |
| Portfolio.MergeByName | src/view/fund/index.js:40-59 | the map's insertion order is the first-seen names, and each map entry is the merge of its name's occurrences |
| Portfolio.MergeSpec | src/view/fund/index.js:44-56 | a merged entry has the trimmed name; the colour of the first occurrence, or `#999999`; the first non-empty description; and a percentage never below 0 that is the sum when no input is negative |
| Portfolio.DedupeNames | src/view/fund/index.js:41-43 | the output names are non-empty, trimmed and pairwise distinct; every named input's name is listed, and only those |
| Portfolio.DedupeFields | src/view/fund/index.js:44-56 | each output entry has its name's first colour, its first non-empty description, and a non-negative percentage |
| Portfolio.DedupeConservesTotal | src/view/fund/index.js:44-54 | with no negative percentage, the output percentages add up to the total of the named inputs |
| Portfolio.DedupeIdempotent | src/view/fund/index.js:38-60 | the output is a merged list, and merging it again changes nothing |
| Portfolio.DedupeOfNormalized | src/view/fund/index.js:148 | a merged list goes through the second merge unchanged |
| Portfolio.FindOther | src/view/fund/index.js:129 | the first index other than `current` with the same trimmed name, or -1 exactly when there is none |
| Portfolio.Edited | src/view/fund/index.js:141-145 | -1 appends the entry; an index in range replaces exactly that entry |
| Portfolio.EditList | src/view/fund/index.js:141-145 | the push or assignment builds the edited list |
| Portfolio.SavedListSpec | src/view/fund/index.js:121-148 | a save that goes through leaves a merged list; on a merged list it appends the new entry, or replaces exactly the edited one |
| Portfolio.SaveForm | src/view/fund/index.js:121-148 | an empty trimmed name or a name used by another index saves nothing; otherwise the result is the merged edited list |
| Portfolio.SaveDistinct | src/view/fund/index.js:141-148 | with a valid, unused name on a merged list, the second merge changes nothing |
| Portfolio.SaveUnedited | src/view/fund/index.js:96-148 | saving an entry opened for editing without changes passes the checks and gives back the same list |
| Portfolio.FormEntry | src/view/fund/index.js:133-138 | the new entry stores the trimmed name |
| Portfolio.RemoveAtNormalized | src/view/fund/index.js:156-162 | removing one entry keeps the others in order, and a merged list stays merged |
| Portfolio.RemoveAtTotal | src/view/fund/index.js:158 | removing an entry takes exactly its percentage out of the total |
| Portfolio.PresetFileChoice | src/view/fund/index.js:282-285 | one of three files: the small one exactly for 保守, the big one exactly for 激进, the default otherwise |
| Portfolio.EnrichOne | src/view/fund/index.js:245-253 | the enriched entry keeps the trimmed name and the percentage (NaN as 0); a present colour or description is kept; a colour is always supplied |
| Portfolio.Enrich | src/view/fund/index.js:244-255 | one enriched entry per input, with the same trimmed names and percentages |
| Portfolio.EnrichAndDedupe | src/view/fund/index.js:294-296 | the list a preset produces is the merged enriched list, and it is a merged list |
| Portfolio.EnrichKeepsNames | src/view/fund/index.js:294-295 | enrichment changes neither the number nor the names of the merged entries |
| Portfolio.EscapeSpec | src/view/fund/index.js:188-189 | every double quote of the escaped text follows a backslash, and a text without quotes is unchanged |
| Portfolio.UnescapeEscape | src/view/fund/index.js:188-189 | the escaped text reads back as the original |
| Portfolio.AssetLineEnd | src/view/fund/index.js:192-193 | an entry line ends in a comma exactly when another entry follows; otherwise it ends in `}` |
| Portfolio.ExportLines | src/view/fund/index.js:180-197 | the header lines, one line per entry in order, then the two closing lines |
| Portfolio.ExportShape | src/view/fund/index.js:180-197 | `8 + n` lines for `n` entries; the entry lines are in list order, and all but the last carry the comma |
| Portfolio.Page.constructor | src/view/fund/index.js:8-22 | the initial state: no assets, the modal closed, the form defaults, the aggressive preset |
| Portfolio.Page.OpenModal | src/view/fund/index.js:96-113 | -1 opens an empty form with the given colour; an index of the list opens a form holding that entry; any other index sets `currentIndex` and the title 编辑资产 and leaves the modal and form as they were, since the handler throws on `item.name` |
| Portfolio.Page.SaveAsset | src/view/fund/index.js:121-153 | a refused save changes nothing; a successful one stores the merged list and closes the modal; the list stays merged |
| Portfolio.Page.DeleteAsset | src/view/fund/index.js:156-162 | when the index is in the list and the user confirms, exactly that entry is removed, otherwise nothing changes; the list stays merged |
| Portfolio.Page.SwitchPreset | src/view/fund/index.js:280-302 | the preset is recorded and its file chosen; a failed load keeps the list; a load stores the merged enriched list and takes `yuji` when present |
| Portfolio.Page.ExportData | src/view/fund/index.js:175-197 | the exported lines are those of the merged list, which for a valid page is the list itself |
| CloudGrid.CeilSqrt | src/view/fund/index.js:412 | the least `w` with `w * w >= n` |
| CloudGrid.FindBestFitDimensions | src/view/fund/index.js:411-415 | `width * height >= area`, and `height` is the rounded-up quotient of `area` by `width` |
| CloudGrid.IsSpaceAvailable | src/view/fund/index.js:418-428 | true exactly when every cell of the block is empty |
| CloudGrid.FillSpaceWithAsset | src/view/fund/index.js:431-440 | exactly the first `maxCells` cells of the block in row order are written; on a free block the empty count drops by `min(maxCells, area)` |
| CloudGrid.FillRectRow | src/view/fund/index.js:433-439 | one row of the block is written up to the cell budget |
| CloudGrid.FindFirstFit | src/view/fund/index.js:398-404 | the first origin in row-major order at which the block is free, or none exactly when no origin is free |
| CloudGrid.PlaceAssetInGrid | src/view/fund/index.js:393-408 | nothing is written for a non-positive count; when the near-square block fits somewhere, the first `cellCount` cells of the block at the first free origin in row-major order get the asset; otherwise the empty cells of rank below `cellCount` do; either way only empty cells change and `min(cellCount, empty cells)` are used up |
| CloudGrid.FallbackPlacement | src/view/fund/index.js:443-465 | the empty cells of rank below `cellCount` in row-major order get the asset; occupied cells are never changed |
| CloudGrid.FallbackRow | src/view/fund/index.js:447-463 | after row `r`, the placed count is `min(cellCount, empty cells before the next row)` |
| CloudGrid.ScanRun | src/view/fund/index.js:450-462 | one skip-and-fill pass of a row keeps the scan's invariant |
| CloudGrid.SkipOccupied | src/view/fund/index.js:453 | the skip stops at the first empty cell or at the row end, and writes nothing |
| CloudGrid.FillRun | src/view/fund/index.js:456-461 | consecutive empty cells are filled until an occupied cell, the row end or the budget |
| CloudGrid.FirstCellIsStart | src/view/fund/index.js:349-355 | the first cell of an asset in row-major order is a block start |
| CloudGrid.CalculateAssetDimensions | src/view/fund/index.js:358-390 | the width is the run of the asset from the start cell, and the height is the number of following rows that touch that column span |

## Left out

- The DOM is not modelled: HTML template strings, `innerHTML`, element insertion, highlighting,
  `removeHighlight`, and the history toggles' text swaps. Cards, menu items and history sections
  are modelled as values holding what the HTML would show.
- `fetch`, Chart.js, scrolling and viewport arithmetic, `setTimeout` and Vue reactivity are not
  modelled. The order of the loaded records' keys depends on fetch completion, so it is an input
  sequence.
- `localStorage` is not modelled. The stored list of collapsed sections is a field, and
  `saveToLocalStorage` is not modelled.
- `getRandomColor` uses `Math.random`, so the colour it would return is a parameter: a string for
  `openModal`, and a function of the position for `enrichWithDefaults`.
- `alert` and `confirm` are not modelled; the user's answer to `confirm` is a parameter.
  `closeModal` is inlined into `saveAsset`.
- `loadPresetFile` is not modelled, and neither is `buildDefaultsMapFrom`. What the loaded script
  leaves behind is an `Option` parameter (`None` when loading fails), and the defaults map is a
  parameter.
- The Blob download and the `join('\n')` of `exportData` are not modelled; the model stops at the
  list of lines.
- Money arithmetic (`assetAmount`, `expectedReturnAmount`, `expectedDrawdownAmount`,
  `formatAmount`) is left out because it is floating point.
- The cell count `Math.round(percentage / 100 * 100)` is floating point, so it is an integer
  parameter of the packer. The cloud view's drawing loop (`initCloudView`) is not modelled.
- `Object.keys` lists integer-like keys first, in ascending order. The model uses insertion order,
  which is what JavaScript does for the base types, categories and identifiers these scripts use.
  The year buckets of a history section are sorted explicitly, so their order does not depend on
  this.
- `toLowerCase` is modelled for ASCII letters only, and `trim` for the ECMAScript whitespace and
  line terminators.
- Percentages and `yuji` values are integers; a value that would read as NaN is `None`.
- The `toggleSearch` stub and the fixed `healthNavData` fallback menu are left out: they are static
  data with no logic. `src/view/fund/fund_data_list.js` is data only and is not part of this model.
- Portfolio.Escape: faithful to the code, it does not escape backslashes. `Portfolio.UnescapeEscape`
  therefore reads back with a decoder that maps only a backslash before a quote.
- Portfolio.Page.OpenModal, Portfolio.Page.DeleteAsset: an index outside the list makes the handler throw a `TypeError` (`item.name` or `assets.value[index].name` of `undefined`). The model keeps the state the throw leaves (for `openModal`, the new index and the edit title; for `deleteAsset`, nothing), but not the exception itself or the console report.
- Report.AddHistoryToggle: the contract covers the count, the years and the buckets of the history
  section, not its HTML.
- Report.PerformSearch: the contract covers which cards are hidden, not the highlighting of matches.
