# Spreadsheet tools: tariff processor, column pivoter and case-record store

This project models, in Dafny, the logic of three small desktop tools that
work on tabular data:

- **data_processor_gui.py** reads a spreadsheet of insured people and a JSON
  configuration, and derives tariffs. The configuration holds exclusion
  lists, plans, age ranges with their values, the `cobroFM` switch and the
  frozen rate `T_Congelada`. Processing applies three exclusion filters,
  marks valid plans, looks each age up in the sorted age ranges and
  computes the final tariff. The administration tab adds plans and age
  ranges through guarded dialogs. It edits the exclusion lists as
  comma-separated text.
- **pivot_gui.py** loads a spreadsheet and shows two check boxes per
  column, "fixed" and "pivotable". Each pivotable column has a partner menu
  that pairs it with another pivotable column. The pivot operation groups
  the pivotable columns, as singletons or mutual pairs. It then writes one
  output row per input row and group: the fixed values, the group's first
  column name (`Columna_base`) and its one or two values (`Valor_A`,
  `Valor_B`).
- **PLANILLAS.py** is a case-tracking form. Its `DataManager` stores
  records as text-to-text dictionaries. A record can be enriched from an
  external CSV table, joined on a key field. Saving a record and saving the
  join configuration are guarded by warnings.

Modules:

- `Tables` (tables.dfy): cells, rows keyed by column name, tables, and
  sequence facts.
- `Text` (text.dfy): Python's `strip`, `split`, `join`, ASCII `lower` and
  `float` of decimal numerals.
- `ProcessorConfig` (config.dfy): the configuration, its JSON form, the
  comma-separated lists and the two add dialogs. The plan list and range
  table are the class `AdminLists`.
- `Tariff` (tariff.dfy): `_apply_business_logic`.
- `Pivot` (pivot.dfy): the pairing rules, the grouping and the row
  expansion. The class `PivotApp` holds the window's state. It covers
  `load_excel`, `_populate_checkboxes`, the toggle and menu handlers,
  `_refresh_pair_options`, `_build_groups` and `generate_pivoted_file`,
  the last two with the corrected grouping described under "## Findings".
- `Planillas` (planillas.dfy): the class `DataManager`, the external join,
  and the `save_record` and `save_configuration` handlers.

The menu handlers of the pivoter are modelled twice. One model is the
exact sequence of map updates the source makes, as functions that
`PivotApp`'s methods are proved equal to. The other is a short
characterisation (`Unpair`, `Repair`, `Prune`). Lemmas prove that the two
agree on every mutual pairing, and that every handler keeps the menus
consistent.

## Model

| member | source | states |
|---|---|---|
| Text.StripLeft | data_processor_gui.py:280 | The result is a suffix of the input; everything removed is whitespace, and the result does not start with whitespace |
| Text.StripRight | data_processor_gui.py:280 | The result is a prefix of the input; everything removed is whitespace, and the result does not end with whitespace |
| Text.StripIsTrimmed | data_processor_gui.py:280 | `strip()` leaves no whitespace at either end |
| Text.StripTrimmed | data_processor_gui.py:395 | `strip()` leaves an already trimmed string unchanged, so it is idempotent |
| Text.Split | data_processor_gui.py:395 | `split(sep)` returns at least one piece, and no piece contains the separator |
| Text.JoinSplit | data_processor_gui.py:395 | Joining the pieces of a split with the separator gives back the text |
| Text.SplitJoin | data_processor_gui.py:395 | Splitting a join of one or more separator-free parts gives back the parts |
| Text.DigitRun | data_processor_gui.py:318-326 | The leading digit run of a text is all digits and is followed by a non-digit or the end |
| Text.FormatNat | data_processor_gui.py:318-326 | `str(n)` of a natural number is a non-empty run of digits |
| Text.FormatNatValue | data_processor_gui.py:318-326 | The digits of `str(n)` denote `n` |
| Text.ParseUnsignedDigits | data_processor_gui.py:318-326 | A plain run of digits parses as the number it denotes |
| Text.ParseFormatNat | data_processor_gui.py:318-326 | `float(str(n)) == n` for every natural number `n` |
| Text.ParseBlank | data_processor_gui.py:318-326 | `float()` of blank or whitespace-only text raises `ValueError` |
| ProcessorConfig.ListOfTexts | data_processor_gui.py:78 | `list()` of a JSON array of texts gives back the texts |
| ProcessorConfig.RangesRoundTrip | data_processor_gui.py:31-40 | `AgeRange.from_dict(r.to_dict())` gives back `r`, for every range of a list |
| ProcessorConfig.ToDictFields | data_processor_gui.py:58-72 | Every key `from_dict` reads is present in `to_dict`'s output and holds the field it was written from |
| ProcessorConfig.FromDictToDict | data_processor_gui.py:74-89 | `AppConfig.from_dict(c.to_dict())` succeeds and gives back `c`, for every configuration |
| ProcessorConfig.FromEmptyDict | data_processor_gui.py:74-89 | An empty JSON object loads as the dataclass defaults |
| ProcessorConfig.SplitValuesItems | data_processor_gui.py:394-395 | Every item of `split_values` is non-empty, stripped and comma-free |
| ProcessorConfig.SplitJoinValues | data_processor_gui.py:436-437 | Items shown with `join_values` read back unchanged with `split_values`, for any list of non-empty, stripped, comma-free items |
| ProcessorConfig.StripSpaced | data_processor_gui.py:394-395 | Stripping the spaced items gives the items back |
| ProcessorConfig.JoinSpaced | data_processor_gui.py:436-437 | Joining with `", "` equals joining the spaced items with `","` |
| ProcessorConfig.AdminLists.constructor | data_processor_gui.py:450-465 | The plan list and range table show the loaded configuration's plans and ranges |
| ProcessorConfig.AdminLists.AddPlan | data_processor_gui.py:279-291 | The stripped name is rejected when blank, rejected when already listed, and otherwise appended. Distinct plans stay distinct, and a new plan is non-empty and stripped |
| ProcessorConfig.AdminLists.AddRange | data_processor_gui.py:317-344 | A non-numeric field is refused, and so is a minimum above the maximum; otherwise the parsed range is appended. Well-ordered ranges stay well ordered |
| Tariff.IsSiSpellings | data_processor_gui.py:566 | `cobro_fm.lower() == "si"` holds exactly for "si", "Si", "sI" and "SI" |
| Tariff.ApplyFiltersKeeps | data_processor_gui.py:531-539 | Applying the filters one after another keeps, in order, exactly the rows that no active filter excludes |
| Tariff.FilterTwice | data_processor_gui.py:538-539 | Filtering twice equals filtering once by the conjunction |
| Tariff.SurvivorsSpec | data_processor_gui.py:531-539 | Survivors are a subsequence of the input rows. A row survives if and only if no active filter excludes it |
| Tariff.InactiveFilterKeepsRows | data_processor_gui.py:538-539 | A filter with an empty list, or on a missing column, leaves the rows unchanged |
| Tariff.Insert | data_processor_gui.py:549 | Inserting adds exactly the new element to the multiset |
| Tariff.InsertSorted | data_processor_gui.py:549 | Inserting into a list sorted by `(edad_min, edad_max)` keeps it sorted |
| Tariff.SortRanges | data_processor_gui.py:549 | `sorted(rangos, key=(edad_min, edad_max))` is a permutation of the ranges, sorted by the key |
| Tariff.FirstMatch | data_processor_gui.py:555-558 | The loop finds nothing exactly when no range contains the age. A found range is one of the list and contains the age |
| Tariff.FirstMatchIsFirst | data_processor_gui.py:555-558 | The found range sits at an index before which no range contains the age |
| Tariff.Best | data_processor_gui.py:549-559 | Reference choice over the unsorted list: none exactly when no range contains the age |
| Tariff.BestSpec | data_processor_gui.py:549-559 | The reference choice contains the age and has the least key among the ranges that do; among ranges with that key it is the earliest listed |
| Tariff.FirstMatchInsert | data_processor_gui.py:549-559 | The first match after inserting a range into a sorted list is the earlier match, unless the new range contains the age with a strictly smaller key |
| Tariff.FirstMatchSorted | data_processor_gui.py:549-559 | The first match in the stable-sorted ranges is the reference choice over the unsorted ranges |
| Tariff.RangeValueSpec | data_processor_gui.py:547-561 | `obtener_valor` returns nothing exactly when the age is not a number or no range contains it. Otherwise it returns the value of the configured range with the least key that contains the age, the earliest listed on a tie |
| Tariff.ComputeRangeValue | data_processor_gui.py:551-559 | The loop that returns at the first containing range computes the lookup |
| Tariff.ApplyBusinessLogic | data_processor_gui.py:528-572 | The method's filter loop and per-row loop compute the processed table |
| Tariff.AugmentRowCells | data_processor_gui.py:541-545 | Cells outside the derived columns are kept. `Plan_Valido` is the plan check exactly when the table has a `Plan` column, and is `True` when no plans are configured |
| Tariff.AugmentRowTariff | data_processor_gui.py:547-569 | `Valor_Rango` is the lookup, missing when there are no ranges or no `Edad` column. `Tarifa_Final` is that value when `cobroFM` is not "si"; otherwise it is the value, missing counted as 0, times `1 + T_Congelada` |
| Tariff.ProcessRows | data_processor_gui.py:528-572 | Output row `k` is surviving row `k` with the derived columns, and the row numbering restarts from zero |
| Tariff.OutputColumnsSpec | data_processor_gui.py:541-569 | The output columns are the input columns in order, followed by the derived columns that are new; they stay distinct |
| Tariff.AugmentRowKeys | data_processor_gui.py:541-569 | An augmented row has the row's keys plus the derived columns |
| Tariff.SurvivorsKeys | data_processor_gui.py:531-539 | Surviving rows of a well-formed table keep exactly the table's columns |
| Tariff.ProcessWellFormed | data_processor_gui.py:528-572 | Processing a well-formed table gives a well-formed table whose columns are the input's plus the derived ones |
| Pivot.SetPairRepairs | pivot_gui.py:219-257 | On a mutual pairing, choosing a checked pivot column `v` for `c` pairs the two both ways, and the former partners of both lose theirs |
| Pivot.SetPairRepairSteps | pivot_gui.py:219-257 | The nested calls of `_set_pair` and `_apply_pair_change` for a checked partner perform the listed map updates in order |
| Pivot.RepairPointwise | pivot_gui.py:229-257 | On a mutual pairing those step-by-step updates give the same pairing as `Repair` |
| Pivot.SetPairUnpairs | pivot_gui.py:219-257 | On a mutual pairing, choosing "Ninguno", or a column that is not a checked pivot column (the warning path), unpairs `c` and whoever pointed at it |
| Pivot.SetPairSymmetric | pivot_gui.py:219-257 | A new choice on a mutual pairing either repairs or unpairs, and leaves the pairing mutual, with no stale back reference |
| Pivot.SetPairOffered | pivot_gui.py:219-257 | A choice the menu of a checked column offers keeps a consistent pairing consistent |
| Pivot.RefreshOffered | pivot_gui.py:265-287 | After the refresh every menu shows an entry it offers, and partners were only ever cleared |
| Pivot.RefreshSymmetric | pivot_gui.py:265-287 | The refresh keeps a mutual pairing mutual, and never breaks a pair whose two ends are offered to each other |
| Pivot.RefreshPrunes | pivot_gui.py:265-287 | Over all menus, the refresh of a mutual pairing removes exactly the pairs whose ends are not offered to each other, and the result is consistent |
| Pivot.RefreshStable | pivot_gui.py:265-287 | A refresh changes nothing when every menu already shows an offered entry |
| Pivot.PruneConsistent | pivot_gui.py:265-287 | Pruning a consistent pairing changes nothing |
| Pivot.UncheckedUnpaired | pivot_gui.py:265-287 | In a consistent pairing an unchecked column has no partner and is nobody's partner |
| Pivot.ClearStepsSymmetric | pivot_gui.py:211-213 | On a mutual pairing the clearing loop unpairs the column once it meets the column's partner, and changes nothing before that |
| Pivot.UnpairMutual | pivot_gui.py:211-214 | Unpairing either end of a pair gives the same pairing |
| Pivot.ToggleOffPrunes | pivot_gui.py:203-217 | Unchecking a column, then refreshing, leaves exactly the pairs whose two ends are still checked |
| Pivot.PruneUnpair | pivot_gui.py:203-217 | Unpairing an unchecked column before pruning makes no difference |
| Pivot.SelectPartnerSpec | pivot_gui.py:259-263 | After a menu choice and the refresh, the result depends on the choice. "Ninguno" unpairs the column. A checked column is paired both ways, and the former partners are unpaired. The current partner changes nothing. The pairing stays consistent |
| Pivot.Options | pivot_gui.py:273 | A menu is "Ninguno" followed by the checked pivot columns other than its own column |
| Pivot.OptionsOffered | pivot_gui.py:273-282 | An entry is in a menu exactly when the menu offers it |
| Pivot.Selected | pivot_gui.py:198-201 | The selected columns are the checked ones in column order; distinct columns give distinct selections |
| Pivot.GroupsLoop | pivot_gui.py:289-309 | Every group the loop builds has one or two columns |
| Pivot.GroupsLoopCover | pivot_gui.py:289-309 | The guarded loop groups every unvisited column of the rest exactly once |
| Pivot.GroupsLoopShape | pivot_gui.py:289-309 | Every group is a singleton or a mutual pair, headed by an unvisited column |
| Pivot.GroupsLoopHeads | pivot_gui.py:289-309 | The groups' first columns follow column order |
| Pivot.GroupsPartition | pivot_gui.py:289-309 | Every selected pivot column lands in exactly one group. Each group is a singleton or a mutual pair, and groups come in the order of their first column |
| Pivot.MutualPairsGrouped | pivot_gui.py:289-309 | Two selected columns that name each other form one group |
| Pivot.GroupsAgreeWithoutNinguno | pivot_gui.py:289-309 | When no column is named "Ninguno", the added visited-check never changes the groups |
| Pivot.GroupsAsWrittenRepeats | pivot_gui.py:289-309 | As written, columns `X` and "Ninguno" paired with each other put `X` in two groups; with the guard each column is in one group |
| Pivot.NingunoPairingReachable | pivot_gui.py:259-287 | That pairing is reached from fresh menus by one offered menu choice, and feeds the two-group result |
| Pivot.GroupsNonempty | pivot_gui.py:344-352 | At least one selected pivot column gives at least one group, so the "no columns" warning never fires |
| Pivot.PivotRowSpec | pivot_gui.py:358-366 | An output row has exactly the fixed columns plus `Columna_base`, `Valor_A` and `Valor_B`, holding the fixed values, the base column name, its value, and the partner's value or a missing value |
| Pivot.Expand | pivot_gui.py:357-367 | One input row gives one output row per group, in group order |
| Pivot.ExpandRowsBlocks | pivot_gui.py:354-367 | The output of `n` input rows fills `n` blocks of one row per group |
| Pivot.ExpandRowsLength | pivot_gui.py:354-367 | There is one output row per input row and group |
| Pivot.ExpandRowsIndex | pivot_gui.py:354-367 | Output row `i * groups + j` is the row of input row `i` and group `j` (row-major order) |
| Pivot.ExpandRowsEarlier | pivot_gui.py:354-367 | Adding an input row keeps the earlier output rows in place |
| Pivot.ExpandRowsLast | pivot_gui.py:354-367 | The last input row's output rows come last, one per group |
| Pivot.ExpandRowsKeys | pivot_gui.py:354-367 | Every output row has exactly the output columns |
| Pivot.PivotColumns | pivot_gui.py:376 | The result's columns are the fixed columns in order, followed by the three new ones; they stay distinct |
| Pivot.ExpandRowsSpec | pivot_gui.py:354-367 | The output rows are well formed and number rows × groups, and there is at least one when both are non-empty |
| Pivot.PivotedSpec | pivot_gui.py:311-376 | The pivot is refused exactly when there is no table, no fixed column, no pivot column, or a column that is both. Otherwise the result is well formed, is the row-major expansion, and is non-empty for a non-empty table, so the "no rows" warning never fires |
| Pivot.PivotedAccepted | pivot_gui.py:337-376 | Once the four guards pass, the result is the expansion of the rows by the groups |
| Pivot.ToggleKeepsMenus | pivot_gui.py:203-217 | A click on a "pivotable" box keeps the menus in their invariant state and, on a mutual pairing, prunes them |
| Pivot.SelectKeepsMenus | pivot_gui.py:259-263 | An offered menu choice keeps the menus in their invariant state, with the repair, unpair or no-op outcome |
| Pivot.UncheckedSnoc | pivot_gui.py:163-192 | Each loop iteration adds one unchecked box and one "Ninguno" menu |
| Pivot.ExpandRow | pivot_gui.py:356-367 | The inner loop over the groups computes the expansion of one row |
| Pivot.ExpandAll | pivot_gui.py:354-367 | The outer loop over the rows computes the expansion of all rows, in row order |
| Pivot.PivotApp.constructor | pivot_gui.py:51-68 | No table, no columns, and the window in its invariant state |
| Pivot.PivotApp.LoadTable | pivot_gui.py:136-147 | An empty sheet is refused and changes nothing. Otherwise the table is stored, and every column gets an unchecked pair of boxes and a "Ninguno" menu |
| Pivot.PivotApp.PopulateCheckboxes | pivot_gui.py:149-196 | Fresh unchecked boxes and "Ninguno" menus for exactly the given columns |
| Pivot.PivotApp.ToggleFixed | pivot_gui.py:163-168 | The "fixed" box flips and nothing else changes |
| Pivot.PivotApp.SetPair | pivot_gui.py:219-227 | The menu shows the value; with relations, the pairing becomes `SetPairEffect` |
| Pivot.PivotApp.ApplyPairChange | pivot_gui.py:229-257 | Releases the previous partner, refuses a partner that is not a checked pivot column, then detaches the new partner and links it back |
| Pivot.PivotApp.Refresh | pivot_gui.py:265-287 | Every menu ends showing an offered entry, following the refresh steps in column order |
| Pivot.PivotApp.OnPivotToggle | pivot_gui.py:203-217 | The box flips and the menus stay in their invariant state. On a mutual pairing exactly the pairs whose two ends stay checked remain |
| Pivot.PivotApp.FlipPivot | pivot_gui.py:203-217 | The box flips and the handler's updates are applied |
| Pivot.PivotApp.ReleaseColumn | pivot_gui.py:211-214 | Every menu showing the column, and then its own menu, is set to "Ninguno" |
| Pivot.PivotApp.OnOptionMenuSelect | pivot_gui.py:259-263 | On a mutual pairing an offered choice repairs, unpairs or changes nothing, and the menus stay in their invariant state |
| Pivot.PivotApp.BuildGroups | pivot_gui.py:289-309 | The grouping loop computes the guarded grouping `Groups`, whose partition property `GroupsPartition` proves; it equals the source's grouping unless a column is named "Ninguno" |
| Pivot.PivotApp.GeneratePivoted | pivot_gui.py:311-376 | The handler's guards and loops compute `Pivoted`, over the guarded grouping, on the window's table and check boxes |
| Planillas.FirstWithKey | PLANILLAS.py:61-68 | Nothing is found exactly when no external row has the key value. Otherwise the row found is the first that has it |
| Planillas.Fill | PLANILLAS.py:69-71 | `setdefault` adds exactly the missing fields, each holding the partner's value or "", and never overwrites a field |
| Planillas.Joined | PLANILLAS.py:57-72 | The record keeps its fields. Without a configured join it is stored as is. Added fields are configured external fields, taken from the first matching row. A non-empty match fills every configured field |
| Planillas.FillComplete | PLANILLAS.py:69-71 | Filling fields the record already has changes nothing |
| Planillas.JoinedIdempotent | PLANILLAS.py:57-72 | Joining a stored record again changes nothing |
| Planillas.DataManager.constructor | PLANILLAS.py:50-55 | No records, the first five form fields shown, and no external table |
| Planillas.DataManager.AddRecord | PLANILLAS.py:57-72 | Appends the joined copy of the record, and nothing else changes |
| Planillas.DataManager.SetDisplayFields | PLANILLAS.py:74-76 | An empty selection is ignored; otherwise it replaces the display fields |
| Planillas.DataManager.SetExternalConfiguration | PLANILLAS.py:78-83 | The key, the fields and the table are replaced together |
| Planillas.BlankFormRejected | PLANILLAS.py:140-146 | A form whose entries are all blank or whitespace is never stored |
| Planillas.SaveRecord | PLANILLAS.py:140-150 | The record is saved exactly when some entry is non-blank; then it is appended, joined, and otherwise the records are unchanged |
| Planillas.SaveConfiguration | PLANILLAS.py:226-255 | The guards come in order: no external table, no selected field, key missing from the header. Any failed guard leaves the manager unchanged; success sets key, fields and table |

## Left out

- Household eligibility, kinship priority, benefit valuation and locale-tolerant number parsing, as described for the wider application, do not occur in data_processor_gui.py, pivot_gui.py or PLANILLAS.py. The code that would carry them is not part of this model.
- The tkinter windows, dialogs, message boxes, fonts and the splash screen are left out. Each warning is modelled as an outcome value (`PlanOutcome`, `RangeOutcome`, `PivotError`, `ConfigError`) or as a boolean result.
- File I/O is left out: the JSON configuration file, `pd.read_excel`, `to_excel`, `csv.DictReader` and the Excel export of the processor. A loaded table, a JSON value or a list of CSV rows is a parameter instead. `load_configuration`, `save_configuration` of the processor, `select_file`, `process_data`, `export_result` and `load_external_file` are therefore not modelled beyond the functions they call.
- Floating point is modelled as exact `real` arithmetic. `float()` is modelled for an optional sign, ASCII digits and an optional fractional part. Exponents, `inf`, `nan`, underscores between digits (`"1_000"`) and non-ASCII decimal digits, all of which Python accepts, are not modelled: `Text.ParseNumber` rejects them, so `ProcessorConfig.AdminLists.AddRange` refuses such texts where the dialog accepts them.
- Text.LowerAscii: folds only ASCII capitals, because the value it is compared with ("si") is ASCII. Non-ASCII case mappings of `str.lower()` are not modelled.
- ProcessorConfig.FromDict: inputs that Python would accept through `str()` of a number, a list or a dict are reported as `Unmodelled`. So are `list()` of a dict's keys and non-text list items. The round trip from `to_dict` never meets them.
- ProcessorConfig.AdminLists.constructor: the number formatting of the range table (`:.0f`, `:.2f`) is left out, and the ranges are kept as numbers.
- `_gather_config_from_ui` is modelled only through `split_values`. Reading the range table back through `float()` of its formatted text is left out, for the same formatting reason.
- `remove_plan` and `remove_range` (deleting the selected list entry) are left out: they delete whatever the user selected in the widget.
- `_apply_business_logic` works column-wise in pandas; the model computes it row by row, which gives the same cells. Python's `None`, NaN and `pd.NA` are all the missing cell `None`.
- Tariff.AgeOf: `float()` of a cell is modelled for numbers, booleans and decimal text. Other objects are treated as a `TypeError`/`ValueError`, which gives `None`.
- The pivoter's menu widgets and their enabled or disabled state are left out. `OnOptionMenuSelect` requires the column's box to be checked, because a disabled menu cannot be used.
- `load_excel` is modelled from the point where the sheet has been read. Its columns are taken to be distinct, as `read_excel` makes them.
- The `mainloop` override that refreshes the menus once more is left out, because it repeats `_refresh_pair_options`. `RefreshStable` shows that a second refresh changes nothing.
- Object aliasing and copying (`record.copy()`, `df.copy()`) is implicit, because records and tables are values.
- In PLANILLAS.py, `clear_form`, `populate_records`, `save_fields` (which only calls `set_display_fields` after its own empty-selection warning), `open_viewer` and the viewer window are left out, because they are display code. `save_record` reads its entries from an arbitrary map of entry texts.
- Pivot.PivotApp.BuildGroups: computes the guarded grouping `Groups`, which also requires a partner not to be grouped yet; the loop of `_build_groups` has no such check. The two differ only when a column is literally named "Ninguno" (`Pivot.GroupsAgreeWithoutNinguno`); the as-written loop is `Pivot.GroupsAsWritten`, and the difference is recorded under "## Findings".
- Pivot.PivotApp.GeneratePivoted: expands the rows by the guarded grouping, so for a column named "Ninguno" paired with another column it writes that column once per input row where `generate_pivoted_file` writes it twice.

## Findings

| source | as written | input that shows it | evidently intended | confidence | as-written member | corrected member |
|---|---|---|---|---|---|---|
| pivot_gui.py:289-309 | `_build_groups` marks a partner as visited without checking whether it is already grouped. It also does not treat a column literally named "Ninguno" as a column | Columns `X` and `Ninguno`, both pivotable. Choosing `X` in the menu of `Ninguno` gives the pairing `{X: Ninguno, Ninguno: X}`; `_build_groups(["X", "Ninguno"])` then returns `[("X",), ("Ninguno", "X")]`, so `X` is pivoted twice | Every pivot column appears in exactly one group | not executed | Pivot.GroupsAsWrittenRepeats | Pivot.GroupsPartition |
