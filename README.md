# Warhammer 40k score tracker — verified model

The project models the core logic of a Warhammer 40k score tracker. The
backend keeps armies and their detachments and updates them through a set of
REST handlers. The frontend turns a list of recorded matches into statistics
and offers a few editing forms and input widgets. All of it is modelled in
Dafny and the properties below are proved.

Files and modules:

| file | module | models |
|---|---|---|
| `tables.dfy` | `Tables` | the two tables, their lookups and listings (`getArmies`, `getArmyById`, `getDetachments`, `getDetachmentById`, `getDetachmentByArmy`) |
| `reconcile.dfy` | `Reconcile` | the detachment reconciliation of `updateArmyById` |
| `store.dfy` | `Store` | class `Database`: every state-changing handler of `armyController.ts` and `detachmentController.ts` |
| `statistics.dfy` | `Statistics` | the filter record and the `filteredMatches` predicate of the statistics page |
| `games.dfy` | `Games` | a match, the `wtc` score switch, the month key, and the generic win table every view folds |
| `stats_summary.dfy` | `StatsSummary` | wins, losses, draws and the winrate |
| `match_list.dfy` | `MatchList` | the per "army (detachment)" fold with nested per-opponent counters, and its projection |
| `winrate_by_month.dfy` | `WinrateByMonth` | the per-month win fold, the sorted table and the reversed chart copy |
| `score_by_month.dfy` | `ScoreByMonth` | the per-month score fold, the sorted table and the in-place reverse for the chart |
| `filters.dfy` | `FilterOptions` | the dropdown options, the month list, the slider positions and the filter updates |
| `edit_army.dfy` | `EditArmyState` | the army editor; detachment entries are objects shared between renders |
| `add_army.dfy` | `AddArmyState` | the new-army form |
| `match_form.dfy` | `MatchFormState` | the match form's initial record, option lists and dependent-field resets |
| `number_field.dfy` | `NumberInput` | the integer input widget |
| `sort_bar.dfy` | `SortBar` | the sort toggle and its icons |
| `date_field.dfy` | `DateField` | the `YYYY-MM` month picker |
| `wrappers.dfy`, `text.dfy`, `seqs.dfy`, `tally.dfy` | helpers | `Option`; string order, digits, `split` and `padStart`; first-occurrence dedup (`new Set`), filtering, sorting and reversal; keyed weight sums |

Operations that change state in place are methods. This covers the database
handlers, the fold loops of the statistics views, the in-place
`reverse()`, and the editor and widget state. Each method is proved against
a specification function, and that function's properties are proved as
lemmas. Pure computations are functions, with lemmas about them.

## Model

| member | source | states |
|---|---|---|
| `Tables.FindArmy` | warhammer-scoring-backend/src/controllers/armyController.ts:98 | a found position holds a row with that id; there is none exactly when no row has the id |
| `Tables.FindDetachment` | warhammer-scoring-backend/src/controllers/detachmentController.ts:42 | a found position holds a row with that id; there is none exactly when no row has the id |
| `Tables.FindArmyUnique` | warhammer-scoring-backend/src/controllers/armyController.ts:98 | with unique ids, the lookup finds the one row that carries the id |
| `Tables.FindDetachmentUnique` | warhammer-scoring-backend/src/controllers/detachmentController.ts:77 | with unique ids, the lookup finds the one row that carries the id |
| `Tables.ListArmiesSpec` | warhammer-scoring-backend/src/controllers/armyController.ts:32-36 | `getArmies` lists exactly the non-deleted armies, sorted by name ascending; each comes with exactly its non-deleted detachments, sorted by name ascending |
| `Tables.ListDetachmentsSpec` | warhammer-scoring-backend/src/controllers/detachmentController.ts:26-29 | `getDetachments` lists exactly the non-deleted rows, each once, sorted by name descending |
| `Tables.ListDetachmentsOfArmySpec` | warhammer-scoring-backend/src/controllers/detachmentController.ts:128-131 | the by-army listing holds exactly the non-deleted rows of that army, sorted by name descending |
| `Tables.SortedFilter` | warhammer-scoring-backend/src/controllers/armyController.ts:32-35 | a sorted filter is ordered by its key, is a permutation of the filtered rows, and holds exactly the rows that pass |
| `Tables.NewDetachments` | warhammer-scoring-backend/src/controllers/armyController.ts:14-16 | one new, non-deleted row per name, in order, under the army, with consecutive fresh ids |
| `Tables.SoftDeleteOfArmy` | warhammer-scoring-backend/src/controllers/armyController.ts:105-108 | exactly the rows of the army are marked deleted; the rest, and the row count, stay as they were |
| `Tables.SoftDeleteIds` | warhammer-scoring-backend/src/controllers/armyController.ts:147 | exactly the rows whose id is listed are marked deleted; nothing is removed |
| `Tables.GetDetachment` | warhammer-scoring-backend/src/controllers/detachmentController.ts:42-48 | not found exactly when no row has the id; otherwise a row of the table with that id, deleted or not |
| `Tables.GetDetachmentSpec` | warhammer-scoring-backend/src/controllers/detachmentController.ts:42-48 | with unique ids, the row returned is the one row with that id |
| `Tables.GetArmy` | warhammer-scoring-backend/src/controllers/armyController.ts:50-59 | not found exactly when no army has the id |
| `Tables.GetArmySpec` | warhammer-scoring-backend/src/controllers/armyController.ts:50-53 | a found army is the one row with that id, deleted or not, and carries exactly the detachments that reference it, deleted ones included |
| `Tables.RelabelKeeps` | warhammer-scoring-backend/src/controllers/detachmentController.ts:85-88 | changing names or deletion marks without touching ids or army links keeps the invariant |
| `Tables.AppendDetachmentsKeeps` | warhammer-scoring-backend/src/controllers/armyController.ts:153 | appending rows with consecutive fresh ids under existing armies keeps the invariant, with the counter advanced |
| `Tables.AppendArmyKeeps` | warhammer-scoring-backend/src/controllers/armyController.ts:11-19 | appending an army with the next id keeps the invariant |
| `Tables.RemoveDetachmentKeeps` | warhammer-scoring-backend/src/controllers/detachmentController.ts:59 | removing one detachment keeps the invariant, and its id is gone |
| `Tables.RemoveArmyIds` | warhammer-scoring-backend/src/controllers/armyController.ts:76 | removing an army removes its id and keeps the others unique |
| `Tables.RemoveArmyKeeps` | warhammer-scoring-backend/src/controllers/armyController.ts:75-76 | removing an army's detachments and then the army keeps the invariant, and its id is gone |
| `Tables.FilterKeepsIds` | warhammer-scoring-backend/src/controllers/armyController.ts:75 | deleting rows by a condition keeps the remaining ids unique |
| `Reconcile.IncomingIdsMembership` | warhammer-scoring-backend/src/controllers/armyController.ts:143 | an id is kept by the request exactly when some entry carries it and it is not 0, the falsy id |
| `Reconcile.ExistingIdsMembership` | warhammer-scoring-backend/src/controllers/armyController.ts:144 | with unique ids, a row's id is an existing id of the army exactly when the row belongs to the army |
| `Reconcile.Partition` | warhammer-scoring-backend/src/controllers/armyController.ts:143-145 | an id is deleted exactly when it exists and the request does not keep it; every existing id is kept or deleted, never both |
| `Reconcile.SoftDeletedByUpdate` | warhammer-scoring-backend/src/controllers/armyController.ts:143-147 | the soft delete marks exactly the rows of the army whose id the request drops, and changes no other row |
| `Reconcile.ApplyEntriesPrefix` | warhammer-scoring-backend/src/controllers/armyController.ts:149-155 | the pass over one more entry is one more step after the pass over the prefix |
| `Reconcile.ApplyShape` | warhammer-scoring-backend/src/controllers/armyController.ts:149-155 | the pass removes no row and changes no id, deletion mark or army; it appends one row per creating entry, with consecutive fresh ids, under the army |
| `Reconcile.ApplyUnique` | warhammer-scoring-backend/src/controllers/armyController.ts:149-155 | the pass keeps ids unique and below the counter |
| `Reconcile.OriginalIdsKept` | warhammer-scoring-backend/src/controllers/armyController.ts:149-155 | an id below the counter is present after the pass exactly when it was before, and only in an original row |
| `Reconcile.ApplyNames` | warhammer-scoring-backend/src/controllers/armyController.ts:150-151 | every original row ends with the name of the last entry naming its id, or keeps its name |
| `Reconcile.ApplyNewNames` | warhammer-scoring-backend/src/controllers/armyController.ts:152-153 | the created rows carry the names of the entries without a truthy id, in request order |
| `Reconcile.ApplyFailed` | warhammer-scoring-backend/src/controllers/armyController.ts:151-167 | the pass fails exactly when some entry names an id that is not in the table |
| `Reconcile.ZeroIdCreates` | warhammer-scoring-backend/src/controllers/armyController.ts:150 | an entry with id 0 creates, exactly like one without an id |
| `Reconcile.RenameIgnoresArmy` | warhammer-scoring-backend/src/controllers/armyController.ts:151 | an entry with a truthy id renames that row whatever army it belongs to, and does not fail |
| `Reconcile.ReconciliationSpec` | warhammer-scoring-backend/src/controllers/armyController.ts:143-155 | no row disappears; an old row keeps its id and army, is deleted exactly when it already was or belongs to the army and is dropped, and takes the last name given to it; new rows have fresh consecutive ids, the army and no deletion mark |
| `Reconcile.ReconciliationCreates` | warhammer-scoring-backend/src/controllers/armyController.ts:149-167 | one created row per entry without a truthy id, with that name, in order; the update fails exactly when an entry names an unknown id |
| `Reconcile.ReconciliationKeeps` | warhammer-scoring-backend/src/controllers/armyController.ts:143-155 | the update keeps the database invariant and never lowers the row count |
| `Store.ApplyEntry` | warhammer-scoring-backend/src/controllers/armyController.ts:150-154 | the loop body: one entry's rename or create as `EntryStep` defines it |
| `Store.ApplyAll` | warhammer-scoring-backend/src/controllers/armyController.ts:149-155 | the loop over all entries computes `ApplyEntries`, the pass whose lemmas are above |
| `Store.Database.constructor` | warhammer-scoring-backend/src/controllers/armyController.ts:11-19 | an empty database with both counters at 1 |
| `Store.Database.CreateArmy` | warhammer-scoring-backend/src/controllers/armyController.ts:6-28 | answers 201; appends a fresh army and one fresh detachment per given name under it; keeps the invariant |
| `Store.Database.DeleteArmy` | warhammer-scoring-backend/src/controllers/armyController.ts:70-91 | removes every detachment of the army and then the army; afterwards neither its id nor any reference to it remains; a missing army answers 404 and changes nothing |
| `Store.Database.SoftDeleteArmy` | warhammer-scoring-backend/src/controllers/armyController.ts:93-122 | marks the army and every detachment referencing it deleted, removing nothing; a missing army answers 404 and changes nothing |
| `Store.Database.UpdateArmy` | warhammer-scoring-backend/src/controllers/armyController.ts:124-169 | a missing army answers 404 and changes nothing; otherwise it renames the army, the detachments become the `Reconciliation` outcome, and the answer is 500 exactly when an entry named a missing row; the row count never drops |
| `Store.Database.CreateDetachment` | warhammer-scoring-backend/src/controllers/detachmentController.ts:6-21 | answers 201 with a fresh row under the army; a missing army answers 500 and changes nothing |
| `Store.Database.UpdateDetachment` | warhammer-scoring-backend/src/controllers/detachmentController.ts:72-96 | changes only the row's name, not its deletion mark or army; a missing id answers 404 and changes nothing |
| `Store.Database.SoftDeleteDetachment` | warhammer-scoring-backend/src/controllers/detachmentController.ts:98-121 | marks the row deleted and it is still found by id; a missing id answers 404 and changes nothing |
| `Store.Database.DeleteDetachment` | warhammer-scoring-backend/src/controllers/detachmentController.ts:55-70 | removes the row, after which it is not found; a missing id answers 404 and changes nothing |
| `Statistics.KeepIsConjunction` | warhammer-scoring-frontend/src/pages/Statistics.tsx:56-74 | a match is kept exactly when every check passes: the tournament flag, the four name filters and both month bounds |
| `Statistics.FilteredMatches` | warhammer-scoring-frontend/src/pages/Statistics.tsx:56 | the filtered list is never longer than the input |
| `Statistics.FilteredMembership` | warhammer-scoring-frontend/src/pages/Statistics.tsx:56-74 | a match is in the result exactly when it is in the input and kept |
| `Statistics.FilteredAppend` | warhammer-scoring-frontend/src/pages/Statistics.tsx:56 | filtering distributes over concatenation |
| `Statistics.FilteredIsSubsequence` | warhammer-scoring-frontend/src/pages/Statistics.tsx:56 | the result is an order-preserving subsequence of the input |
| `Statistics.DefaultsKeepAll` | warhammer-scoring-frontend/src/pages/Statistics.tsx:31-74 | the initial filter record keeps every match |
| `Statistics.KeptSatisfiesFilters` | warhammer-scoring-frontend/src/pages/Statistics.tsx:59-70 | every kept match is a tournament match when so filtered; has each selected name when that filter is neither empty nor `'all'`; and has a month within each non-empty bound |
| `Games.MonthOf` | warhammer-scoring-frontend/src/components/WinrateByMonth.tsx:40 | the month key is a prefix of the date, at most seven characters, exactly seven for a full date |
| `Games.Percent` | warhammer-scoring-frontend/src/components/MatchList.tsx:52 | a winrate exists exactly when the total is non-zero, and lies in 0..100 when the wins are within the total |
| `Games.AddResult` | warhammer-scoring-frontend/src/components/WinrateByMonth.tsx:42-56 | the loop body on one key: create the entry at zero if missing, count the game, count the win |
| `Games.WinTableHas` | warhammer-scoring-frontend/src/components/WinrateByMonth.tsx:39-46 | a key has an entry exactly when some match has that key |
| `Games.WinTableCounts` | warhammer-scoring-frontend/src/components/WinrateByMonth.tsx:39-57 | each key's entry counts the matches under it and, under the `wtc` switch, its won matches |
| `Games.WinTableAt` | warhammer-scoring-frontend/src/components/MatchList.tsx:11-45 | a key has an entry exactly when some match has it, and the entry holds the key's win count and match count |
| `Games.WinTableEntries` | warhammer-scoring-frontend/src/components/WinrateByMonth.tsx:42-56 | every entry has at least one game, the number of matches of its key, and no more wins than games |
| `Games.WeightOfIsSubtotal` | warhammer-scoring-frontend/src/components/MatchList.tsx:11-20 | a key's counter is the total over the matches filed under that key |
| `Games.TotalPlayed` | warhammer-scoring-frontend/src/components/MatchList.tsx:20 | counting games over every key counts each match once |
| `Games.TotalIgnoresGrouping` | warhammer-scoring-frontend/src/components/MatchList.tsx:32-44 | the grand total of a measure does not depend on how the matches are grouped |
| `Games.WonWithinPlayed` | warhammer-scoring-frontend/src/components/MatchList.tsx:32-34 | a key's wins lie between 0 and its games |
| `Games.PlayedPositive` | warhammer-scoring-frontend/src/components/MatchList.tsx:15-20 | a key that occurs has at least one game |
| `Games.PlayedIsCount` | warhammer-scoring-frontend/src/components/MatchList.tsx:15-20 | a key's game count is the number of matches with that key |
| `Games.WinTableSums` | warhammer-scoring-frontend/src/components/WinrateByMonth.tsx:42-56 | summed over the distinct keys, the totals are the number of matches and the wins the number of won matches |
| `Games.SumsOfWinRows` | warhammer-scoring-frontend/src/components/WinrateByMonth.tsx:59-65 | the projected rows carry the table's totals and wins |
| `Games.TableRowsFacts` | warhammer-scoring-frontend/src/components/MatchList.tsx:47-60 | one row per distinct key in first-occurrence order; each row counts its key's games, at least one, with no more wins than games and a winrate in 0..100; totals sum to the number of matches and wins to the won matches |
| `Games.TableRowKeys` | warhammer-scoring-frontend/src/components/WinrateByMonth.tsx:59 | the row keys are the distinct keys of the matches, each once |
| `StatsSummary.Wins` | warhammer-scoring-frontend/src/components/StatsSummary.tsx:8-11 | counts the matches with a strictly greater user score under the `wtc` switch; never more than the matches |
| `StatsSummary.Losses` | warhammer-scoring-frontend/src/components/StatsSummary.tsx:9-12 | counts the matches with a strictly smaller user score under the same switch; never more than the matches |
| `StatsSummary.DrawsAreTies` | warhammer-scoring-frontend/src/components/StatsSummary.tsx:14 | `draws = total - wins - losses` is the number of tied matches, never negative; wins, losses and draws add up to the total |
| `StatsSummary.WinrateRange` | warhammer-scoring-frontend/src/components/StatsSummary.tsx:79 | the winrate exists exactly when there are matches, and lies in 0..100 |
| `StatsSummary.SummaryReadsSelectedScores` | warhammer-scoring-frontend/src/components/StatsSummary.tsx:7-13 | the counts depend only on the score pair the `wtc` switch selects, on both sides together |
| `StatsSummary.WinsAgreeWithTables` | warhammer-scoring-frontend/src/components/StatsSummary.tsx:8-11 | the summary's wins equal the wins counted by any grouped table |
| `MatchList.DetachmentKeys` | warhammer-scoring-frontend/src/components/MatchList.tsx:12-17 | a group exists exactly when some match has that `"army (detachment)"` label |
| `MatchList.DetachmentCounters` | warhammer-scoring-frontend/src/components/MatchList.tsx:15-34 | a group counts the matches with its label and, under the `wtc` switch, their wins |
| `MatchList.DetachmentOpponents` | warhammer-scoring-frontend/src/components/MatchList.tsx:13-44 | a group's opponent counters are the win table by opponent army over exactly the group's matches, in first-occurrence order |
| `MatchList.AddMatch` | warhammer-scoring-frontend/src/components/MatchList.tsx:12-44 | the loop body: create the group and the opponent entry if missing, count the game and the win in both |
| `MatchList.StatsByDetachment` | warhammer-scoring-frontend/src/components/MatchList.tsx:11-45 | the `forEach` loop builds the nested table of the whole list; its groups are in first-occurrence order |
| `MatchList.MatchupListed` | warhammer-scoring-frontend/src/components/MatchList.tsx:47-48 | every listed group label has an entry |
| `MatchList.MatchupRowsAreTables` | warhammer-scoring-frontend/src/components/MatchList.tsx:47-60 | the projection has one row per group with its wins, total and winrate; its opponent rows are the win-table rows of the group's matches by opponent |
| `MatchList.MatchupOpponentSums` | warhammer-scoring-frontend/src/components/MatchList.tsx:36-57 | a group's opponent totals sum to its total and its opponent wins to its wins; every opponent row has a game and a winrate |
| `WinrateByMonth.WonUnder` | warhammer-scoring-frontend/src/components/WinrateByMonth.tsx:48-56 | the win test compares the WTC scores when `wtc` is set and the plain scores otherwise |
| `WinrateByMonth.StatsByMonth` | warhammer-scoring-frontend/src/components/WinrateByMonth.tsx:39-57 | the `forEach` loop builds the month table of the whole list; its months are in first-occurrence order |
| `WinrateByMonth.MonthsDistinct` | warhammer-scoring-frontend/src/components/WinrateByMonth.tsx:59-65 | the rows have pairwise distinct months |
| `WinrateByMonth.MonthArrayFacts` | warhammer-scoring-frontend/src/components/WinrateByMonth.tsx:59-73 | the table is a permutation of the month rows, one per distinct month, strictly newest first, and empty exactly when there are no matches |
| `WinrateByMonth.MonthRowsBounded` | warhammer-scoring-frontend/src/components/WinrateByMonth.tsx:42-64 | every row has its month's games, at least one, no more wins, and a winrate in 0..100 |
| `WinrateByMonth.ChartIsTableReversed` | warhammer-scoring-frontend/src/components/WinrateByMonth.tsx:110 | the chart holds the table's rows strictly oldest first, and reversing it gives the table back |
| `ScoreByMonth.AddScoreEntry` | warhammer-scoring-frontend/src/components/ScoreByMonth.tsx:42-52 | the loop body: create the entry at zero if missing, count the game, add the score |
| `ScoreByMonth.ScoreUnder` | warhammer-scoring-frontend/src/components/ScoreByMonth.tsx:48-52 | the score added is the WTC score when `wtc` is set and the plain score otherwise |
| `ScoreByMonth.StatsByMonth` | warhammer-scoring-frontend/src/components/ScoreByMonth.tsx:39-53 | the `forEach` loop builds the score table of the whole list; its months are in first-occurrence order |
| `ScoreByMonth.ScoreTableHas` | warhammer-scoring-frontend/src/components/ScoreByMonth.tsx:42-44 | a month has an entry exactly when some match falls in it |
| `ScoreByMonth.ScoreTableCounts` | warhammer-scoring-frontend/src/components/ScoreByMonth.tsx:39-53 | each month's entry counts its matches and sums their selected user scores |
| `ScoreByMonth.ScoreTableAt` | warhammer-scoring-frontend/src/components/ScoreByMonth.tsx:39-53 | a month has an entry exactly when a match falls in it, and the entry holds its score sum and game count |
| `ScoreByMonth.Average` | warhammer-scoring-frontend/src/components/ScoreByMonth.tsx:60 | the average exists exactly when there are games, and times the games gives the score |
| `ScoreByMonth.ScoreRows` | warhammer-scoring-frontend/src/components/ScoreByMonth.tsx:55-61 | one row per listed month |
| `ScoreByMonth.DistinctMonthsListed` | warhammer-scoring-frontend/src/components/ScoreByMonth.tsx:39-55 | every distinct month of the matches has an entry |
| `ScoreByMonth.SumsOfScoreRows` | warhammer-scoring-frontend/src/components/ScoreByMonth.tsx:55-61 | the projected rows carry the table's games and scores |
| `ScoreByMonth.ScoreTableRowAt` | warhammer-scoring-frontend/src/components/ScoreByMonth.tsx:55-61 | row `i` is the `i`-th distinct month, with its matches' number (at least one), their score sum and its average |
| `ScoreByMonth.ScoreTableSums` | warhammer-scoring-frontend/src/components/ScoreByMonth.tsx:42-52 | the games sum to the number of matches and the scores to the total selected user score |
| `ScoreByMonth.ScoreTableRowsFacts` | warhammer-scoring-frontend/src/components/ScoreByMonth.tsx:39-61 | one row per distinct month, each with its games (at least one), score sum and a defined average; the games and scores sum to the whole list's |
| `ScoreByMonth.MonthsDistinct` | warhammer-scoring-frontend/src/components/ScoreByMonth.tsx:55-61 | the rows have pairwise distinct months |
| `ScoreByMonth.MonthArrayFacts` | warhammer-scoring-frontend/src/components/ScoreByMonth.tsx:55-69 | the table is a permutation of the month rows, strictly newest first, one per distinct month, and empty exactly when there are no matches |
| `ScoreByMonth.ReverseInPlace` | warhammer-scoring-frontend/src/components/ScoreByMonth.tsx:98 | `reverse()` leaves the same array holding its old contents reversed |
| `ScoreByMonth.Render` | warhammer-scoring-frontend/src/components/ScoreByMonth.tsx:82-98 | the table reads the array before the chart's `reverse()`, so it shows the sorted rows and the chart their reversal |
| `ScoreByMonth.ChartIsTableReversed` | warhammer-scoring-frontend/src/components/ScoreByMonth.tsx:98 | the chart's rows are the table's, strictly oldest first |
| `FilterOptions.UniqueWithAll` | warhammer-scoring-frontend/src/components/FiltersComponent.tsx:11-13 | the list starts with `'all'` |
| `FilterOptions.UniqueWithAllSpec` | warhammer-scoring-frontend/src/components/FiltersComponent.tsx:11-13 | after `'all'` come exactly the input's values, each once, in first-occurrence order; the list has no duplicate exactly when the input does not hold `'all'` |
| `Seqs.Project` | warhammer-scoring-frontend/src/components/FiltersComponent.tsx:16-17 | `list.map(field)` has one value per element, in order |
| `FilterOptions.ProjectFilterMembership` | warhammer-scoring-frontend/src/components/FiltersComponent.tsx:19-29 | a value is listed after filtering exactly when some kept match carries it |
| `FilterOptions.ArmyOptionsSpec` | warhammer-scoring-frontend/src/components/FiltersComponent.tsx:16-17 | the army dropdowns offer `'all'` and exactly the armies occurring in the matches |
| `FilterOptions.UserDetachmentOptionsSpec` | warhammer-scoring-frontend/src/components/FiltersComponent.tsx:19-23 | the user detachment dropdown offers `'all'` and exactly the detachments of matches with the selected army, or of every match for `'all'` |
| `FilterOptions.OpponentDetachmentOptionsSpec` | warhammer-scoring-frontend/src/components/FiltersComponent.tsx:25-29 | the same for the opponent side |
| `FilterOptions.MonthsOrdered` | warhammer-scoring-frontend/src/components/FiltersComponent.tsx:32-40 | the month list is strictly ascending and so free of duplicates |
| `FilterOptions.MonthsMembership` | warhammer-scoring-frontend/src/components/FiltersComponent.tsx:32-40 | a month is listed exactly when it is non-empty and some match has it |
| `FilterOptions.MonthsShape` | warhammer-scoring-frontend/src/components/FiltersComponent.tsx:36-37 | every listed month has one to seven characters; the list is empty exactly when no match has a month |
| `FilterOptions.IndexOf` | warhammer-scoring-frontend/src/components/FiltersComponent.tsx:44-45 | -1 exactly when the value is absent; otherwise the first position holding it |
| `FilterOptions.RangeValuesSpec` | warhammer-scoring-frontend/src/components/FiltersComponent.tsx:44-53 | with months, both positions are valid: the selected month's position when listed, else the first or last; with none, `[0, 0]` |
| `FilterOptions.MonthRangeChangeSpec` | warhammer-scoring-frontend/src/components/FiltersComponent.tsx:56-67 | a slider change sets exactly the two bounds when both positions name a month, and otherwise changes nothing |
| `FilterOptions.SliderRoundTrip` | warhammer-scoring-frontend/src/components/FiltersComponent.tsx:44-67 | moving the slider and reading the positions back gives the same positions; reporting the current positions changes nothing |
| `FilterOptions.AutoDefaultSpec` | warhammer-scoring-frontend/src/components/FiltersComponent.tsx:70-82 | the effect touches only the two bounds; afterwards at least one bound is listed, so running it again changes nothing |
| `FilterOptions.DefaultRangeCoversAll` | warhammer-scoring-frontend/src/components/FiltersComponent.tsx:70-82 | the default range admits every match that has a month |
| `FilterOptions.SetUserArmy` | warhammer-scoring-frontend/src/components/FiltersComponent.tsx:152 | selects the army, resets the user detachment to `'all'`, keeps every other field |
| `FilterOptions.SetOpponentArmy` | warhammer-scoring-frontend/src/components/FiltersComponent.tsx:184 | selects the opponent army, resets the opponent detachment to `'all'`, keeps every other field |
| `FilterOptions.ArmyChangeKeep` | warhammer-scoring-frontend/src/components/FiltersComponent.tsx:152 | after an army change a match is kept exactly when it has the new army and passes the other checks, whatever detachment was selected before |
| `EditArmyState.EntryValues` | warhammer-scoring-frontend/src/components/EditArmyComponent.tsx:63 | the request body carries one `{id, name}` per entry, in order |
| `EditArmyState.SpliceOne` | warhammer-scoring-frontend/src/components/EditArmyComponent.tsx:47 | `splice(index, 1)` removes the element at a valid index, counts a negative index from the end, and removes nothing at or past the end |
| `EditArmyState.SpliceOneOrder` | warhammer-scoring-frontend/src/components/EditArmyComponent.tsx:47 | the splice removes at most one element and keeps the others in order |
| `EditArmyState.Entry.constructor` | warhammer-scoring-frontend/src/components/EditArmyComponent.tsx:6-10 | an entry object with the given id, name and new-mark |
| `EditArmyState.EditArmy.constructor` | warhammer-scoring-frontend/src/components/EditArmyComponent.tsx:20 | before the fetch the army is absent |
| `EditArmyState.EditArmy.Load` | warhammer-scoring-frontend/src/components/EditArmyComponent.tsx:23-30 | the fetched army becomes the state, one fresh entry per fetched detachment |
| `EditArmyState.EditArmy.ArmyNameChange` | warhammer-scoring-frontend/src/components/EditArmyComponent.tsx:32-35 | renames the army; a no-op while the army is absent |
| `EditArmyState.EditArmy.NameFieldChange` | warhammer-scoring-frontend/src/components/EditArmyComponent.tsx:80 | the name field's change handler as written: the name never changes, whatever is typed |
| `EditArmyState.EditArmy.NameFieldTyped` | warhammer-scoring-frontend/src/components/EditArmyComponent.tsx:80 | the name field passing the typed text: the loaded army takes the typed name |
| `EditArmyState.EditArmy.DetachmentChange` | warhammer-scoring-frontend/src/components/EditArmyComponent.tsx:37-42 | the list keeps the same entry objects and only the entry at `index` is renamed; its id and new-mark stay; an index with no entry throws before anything changes; a no-op while the army is absent |
| `EditArmyState.EditArmy.DeleteDetachment` | warhammer-scoring-frontend/src/components/EditArmyComponent.tsx:44-49 | the list becomes its `splice(index, 1)`; a no-op while the army is absent |
| `EditArmyState.EditArmy.AddDetachment` | warhammer-scoring-frontend/src/components/EditArmyComponent.tsx:51-57 | appends one fresh new entry with an empty name and no truthy id, so the update handler creates a detachment for it; the other entries stay; a no-op while the army is absent |
| `EditArmyState.EditArmy.Payload` | warhammer-scoring-frontend/src/components/EditArmyComponent.tsx:59-64 | the save body is the whole army with one value per entry, or `null` before the fetch |
| `AddArmyState.AddArmy.constructor` | warhammer-scoring-frontend/src/components/AddArmyComponent.tsx:7-8 | the form starts with an empty name and one empty detachment field |
| `AddArmyState.AddArmy.ArmyNameChange` | warhammer-scoring-frontend/src/components/AddArmyComponent.tsx:41 | the name takes the typed text; the detachments stay |
| `AddArmyState.AddArmy.AddDetachment` | warhammer-scoring-frontend/src/components/AddArmyComponent.tsx:10-12 | appends one empty field |
| `AddArmyState.AddArmy.DetachmentsChange` | warhammer-scoring-frontend/src/components/AddArmyComponent.tsx:14-18 | only the field at `index` takes the value; the length and the other fields stay |
| `AddArmyState.AddArmy.Submit` | warhammer-scoring-frontend/src/components/AddArmyComponent.tsx:20-31 | posts the name and every field, blank ones included; only an ok response resets the form |
| `MatchFormState.InitialFormBlank` | warhammer-scoring-frontend/src/components/MatchFormComponent.tsx:22-32 | the form starts with no armies, detachments or date, 0 to 0, not a tournament |
| `MatchFormState.ArmyNamesSpec` | warhammer-scoring-frontend/src/components/MatchFormComponent.tsx:45 | the army list is the armies' names, each as often as it occurs, in ascending order |
| `MatchFormState.FindByNameSpec` | warhammer-scoring-frontend/src/components/MatchFormComponent.tsx:47 | the lookup fails exactly when no army has the name, and otherwise gives the first army that has it |
| `MatchFormState.DetachmentOptionsSpec` | warhammer-scoring-frontend/src/components/MatchFormComponent.tsx:47-51 | the options are the sorted detachment names of the selected army, and empty when no army has that name |
| `MatchFormState.SelectUserArmy` | warhammer-scoring-frontend/src/components/MatchFormComponent.tsx:62-66 | selects the user army, clears the user detachment, keeps every other field |
| `MatchFormState.SelectOpponentArmy` | warhammer-scoring-frontend/src/components/MatchFormComponent.tsx:83-87 | selects the opponent army, clears the opponent detachment, keeps every other field |
| `MatchFormState.ToggleTournament` | warhammer-scoring-frontend/src/components/MatchFormComponent.tsx:126-134 | switched on it keeps the previous name, or `''` if there was none; switched off the name becomes undefined; the other fields stay |
| `MatchFormState.ToggleTournamentCycle` | warhammer-scoring-frontend/src/components/MatchFormComponent.tsx:126-134 | off and on again leaves an empty name; switching on twice is the same as once |
| `NumberInput.LeadingDigits` | warhammer-scoring-frontend/src/components/NumberField.tsx:30 | the longest run of digits at the front of the text |
| `NumberInput.ParseIntAccepted` | warhammer-scoring-frontend/src/components/NumberField.tsx:24-32 | on accepted text, `parseInt` is NaN exactly on `''` and `'-'`, and otherwise reads the whole text with its sign |
| `NumberInput.ParseIntToString` | warhammer-scoring-frontend/src/components/NumberField.tsx:30 | parsing the text of an integer gives the integer back |
| `NumberInput.IntToStringAccepted` | warhammer-scoring-frontend/src/components/NumberField.tsx:24 | the text of an integer is accepted input |
| `NumberInput.Clamp` | warhammer-scoring-frontend/src/components/NumberField.tsx:33 | within the bounds, a number in range unchanged; below, the minimum; above, the maximum; crossed bounds give the minimum |
| `NumberInput.CommitSpec` | warhammer-scoring-frontend/src/components/NumberField.tsx:29-40 | `''` and `'-'` commit 0 and reset the text to `'0'` whatever the bounds; other text is kept and commits a number within the bounds; the text stays accepted |
| `NumberInput.CommitOfValue` | warhammer-scoring-frontend/src/components/NumberField.tsx:15-34 | committing the text of an in-range value commits that value |
| `NumberInput.StepUp` | warhammer-scoring-frontend/src/components/NumberField.tsx:49-52 | never above the maximum; `value + step` when that fits; never below the value for a non-negative step |
| `NumberInput.StepDown` | warhammer-scoring-frontend/src/components/NumberField.tsx:54-57 | never below the minimum; `value - step` when that fits; never above the value for a non-negative step |
| `NumberInput.TypedTextOutlivesClamp` | warhammer-scoring-frontend/src/components/NumberField.tsx:17-34 | a typed number above the maximum commits the maximum but stays on screen as typed |
| `NumberInput.CommitShownAgrees` | warhammer-scoring-frontend/src/components/NumberField.tsx:30-38 | with the text rewritten to the committed number, the text always parses back to that number, within the bounds |
| `NumberInput.NumberField.constructor` | warhammer-scoring-frontend/src/components/NumberField.tsx:15 | the text starts as the value's text |
| `NumberInput.NumberField.Default` | warhammer-scoring-frontend/src/components/NumberField.tsx:10-12 | the default props are `min = 0`, `max = 100`, `step = 1` |
| `NumberInput.NumberField.Render` | warhammer-scoring-frontend/src/components/NumberField.tsx:17-19 | the text is rewritten to the value's text only when the value changed |
| `NumberInput.NumberField.HandleChange` | warhammer-scoring-frontend/src/components/NumberField.tsx:21-27 | only `''` or an optional minus followed by digits replaces the text; anything else is ignored |
| `NumberInput.NumberField.CommitValue` | warhammer-scoring-frontend/src/components/NumberField.tsx:29-40 | the text afterwards and the number handed on are `Commit` of the text, whose properties `CommitSpec` states |
| `NumberInput.NumberField.HandleFocus` | warhammer-scoring-frontend/src/components/NumberField.tsx:43-47 | the text is cleared exactly when it equals the value's text |
| `NumberInput.NumberField.Increment` | warhammer-scoring-frontend/src/components/NumberField.tsx:49-52 | hands on `StepUp` of the value |
| `NumberInput.NumberField.Decrement` | warhammer-scoring-frontend/src/components/NumberField.tsx:54-57 | hands on `StepDown` of the value |
| `SortBar.FieldName` | warhammer-scoring-frontend/src/components/SortBar.tsx:4 | a field's name has at least three characters and no dash |
| `SortBar.ToggleSortSpec` | warhammer-scoring-frontend/src/components/SortBar.tsx:14-18 | from the field's ascending option the toggle gives its descending option, from any other option its ascending one; the result starts with the field's name |
| `SortBar.ToggleTwice` | warhammer-scoring-frontend/src/components/SortBar.tsx:15-17 | toggling a field twice from its ascending option comes back to it |
| `SortBar.GetIconSpec` | warhammer-scoring-frontend/src/components/SortBar.tsx:20-30 | on any of the six options a field is active exactly when the option is for it, and every field's arrow shows the option's direction |
| `DateField.MonthText` | warhammer-scoring-frontend/src/components/DateField.tsx:31 | the padded month reads back as the month number, in two digits for 1..12 |
| `DateField.Format` | warhammer-scoring-frontend/src/components/DateField.tsx:30-32 | the formatted value is non-empty and its two parts parse back to the year and the month number |
| `DateField.FormatShape` | warhammer-scoring-frontend/src/components/DateField.tsx:30-32 | the value is the year's digits, a dash and two digits for a month from 01 to 12 |
| `DateField.SafeDate` | warhammer-scoring-frontend/src/components/DateField.tsx:20 | the constructed date always has a month index in 0..11 |
| `DateField.SafeDateInRange` | warhammer-scoring-frontend/src/components/DateField.tsx:20 | a year from 100 on and a month in 1..12 are kept as they are |
| `DateField.ParseYearMonth` | warhammer-scoring-frontend/src/components/DateField.tsx:19 | a year, a dash and a month in digits split and parse back to the two numbers |
| `DateField.HandleChange` | warhammer-scoring-frontend/src/components/DateField.tsx:26-36 | a picked date is selected and its formatted value emitted; `null` clears the selection and emits nothing |
| `DateField.RoundTrip` | warhammer-scoring-frontend/src/components/DateField.tsx:17-36 | reading back the formatted value selects the same month again, for years from 100 on |
| `DateField.EmptyAndNull` | warhammer-scoring-frontend/src/components/DateField.tsx:18-29 | an empty value leaves the selection alone, and a `null` pick emits nothing |
| `DateField.TwoDigitYears` | warhammer-scoring-frontend/src/components/DateField.tsx:19-20 | for every year from 0 to 99 and every month, the value `year-MM` selects that month of the year 1900 + year (so `'99-01'` selects January 1999) |
| `Seqs.DistinctFirstOccurrenceOrder` | warhammer-scoring-frontend/src/components/FiltersComponent.tsx:12 | `Array.from(new Set(list))` keeps each value's first occurrence, in order |
| `Seqs.SortByCorrect` | warhammer-scoring-frontend/src/components/MatchFormComponent.tsx:45 | sorting yields an ordered permutation of its input |
| `Seqs.ReverseReverse` | warhammer-scoring-frontend/src/components/WinrateByMonth.tsx:110 | reversing twice gives the list back |
| `Tally.SumOverDistinctKeys` | warhammer-scoring-frontend/src/components/MatchList.tsx:11-20 | summing each distinct key's weight over the keys gives the total weight |

## Left out

- HTTP, the Express routing, Prisma's client calls and logging are left out. The tables are in-memory state. Each handler's answer is a status value: 201, 200, 404 or 500.
- The two controllers name their Prisma models differently (`armies`/`detachments` with `is_deleted`/`army_id` against `detachment` with `isDeleted`/`armyId`). Both are modelled as one detachment table.
- `Number(id)` on a path parameter is treated as an integer. The NaN of a non-numeric parameter is not modelled.
- Database errors other than the ones the handlers answer (connection loss, constraint failures on create) are not modelled.
- `Promise.all` in `updateArmyById` starts every write at once. The model applies the entries one after the other in request order. A rename of a row that one of the concurrent creates in the same request makes is not modelled. The non-atomic rename-then-reconcile sequence is also not modelled.
- Reconcile.ReconciliationCreates: requires every incoming id to be below the next fresh id. Without that, the sequential model could rename a row that an earlier entry of the same request just created, which the concurrent source does not order.
- `updateArmyById` renames the army before reconciling. A write that fails answers 500, and the model then keeps every other write. The source's state after such a rejected promise depends on timing.
- `getArmyById` and the re-read at the end of `updateArmyById` are modelled as the `GetArmy` query. The response body is not modelled.
- The match month is the first seven characters of the date string. `new Date(...).toISOString()` and its time-zone shift in the month views are not modelled.
- Winrates and averages are exact rationals (`real`), with `None` for the NaN of a zero denominator. `toFixed(1)` and `toPrecision(3)` are display formatting and are left out.
- `localeCompare` and the `<`/`>` comparisons of month strings are modelled as code-point order. Locale collation is not modelled.
- MatchList.AddMatch: an opponent army named like a property every JavaScript object inherits (`constructor`, `toString`, `__proto__`) is not modelled. Such a name makes the source's `!opponents[name]` test find the inherited property. The source then creates no entry, counts onto the shared prototype object, and leaves the opponent out of `Object.entries`. The model gives every name its own entry, so MatchList.DetachmentOpponents, MatchList.MatchupRowsAreTables and MatchList.MatchupOpponentSums hold only for names that are not such properties. The month keys and the `"army (detachment)"` labels can never take such a name.
- Tables.ListArmiesSpec, Tables.ListDetachmentsSpec, Tables.ListDetachmentsOfArmySpec: the `orderBy: { name }` order is modelled as code-point order on the names. The database's collation decides the real order. Nothing in the source says which database it is, and a locale collation orders upper and lower case differently. The order of rows with equal names is not specified by the source. The model keeps the rows' table order for them, which is one admissible answer.
- `Object.entries` is modelled in insertion order. JavaScript lists integer-like keys first, which would matter only for an army named like a number. That ordering is not modelled.
- `parseInt` is modelled on text the input accepts: an optional minus and digits. Leading whitespace, `'+'` and number precision are outside that text and not modelled. Non-integer props of the number widget are not modelled.
- The JavaScript `Date` of the month picker is a year and a month index. Time zones, the hour and `Date` arithmetic beyond the month and year roll-over are not modelled.
- AddArmyState.AddArmy.DetachmentsChange: requires `index < |detachments|`. In JavaScript an assignment past the end grows the array with holes. The form only calls it for an existing field, so that growth is not modelled.
- React rendering, fetching, `alert`, `confirm`, recharts, the month range slider widget, `handleApiError`, the match controller and authentication are left out. Fetched data enters the model as parameters: the fetched army of `Load`, the ok flag of `Submit`, and the match list of the statistics views.
- The `showWtc` toggle and the tournament and `wtc` checkboxes of the filter panel only set one field of the filter record. They are not modelled separately.

## Findings

| source | as written | input that shows it | evidently intended | confidence | as-written member | corrected member |
|---|---|---|---|---|---|---|
| warhammer-scoring-frontend/src/components/NumberField.tsx:17-34 | a committed number is clamped, but the typed text is kept; the text is rewritten only when `value` changes | `min 0`, `max 100`, value already 100; type `150` and leave the field: 100 is handed on, `150` stays on screen | the text shows the clamped number | likely; not executed | `NumberInput.TypedTextOutlivesClamp` | `NumberInput.CommitShownAgrees` |
| warhammer-scoring-frontend/src/components/EditArmyComponent.tsx:80 | the army-name field's `onChange` discards the typed text and passes the current name back | any loaded army; type into the name field: the name does not change | the field passes the typed text to `handleArmyNameChange` | high; not executed | `EditArmyState.EditArmy.NameFieldChange` | `EditArmyState.EditArmy.NameFieldTyped` |
