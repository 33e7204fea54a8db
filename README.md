# Module allocator — a verified model of its core

The module allocator assigns students to optional modules. Each student ranks the modules and
states how many credits they would like in each module group. Each module has a credit value,
a semester, a group and a number of available spaces; modules can require other modules and
exclude one another.

The app works in three stages:
1. The loaders (`app/data_loading.py`, and the older `data_loading.py`) check the uploaded
   tables and build `Module` and `Student` objects from them.
2. `ModuleAssigner` (`app/algorithm.py`) runs rounds in which every student, in a random
   order, gets at most one module bundle: a module plus whatever it requires. A bundle is
   taken only if every constraint holds: space, mutual exclusion, the student's own
   exclusions, the group caps, the total, the semester caps and the least-preferred rule.
3. `run_assignments` and the repetition loop of `show_message` (`app/app.py`, and the older
   `app.py`) repeat whole runs with different seeds. They keep the best accepted run by mean
   satisfaction score.

This Dafny project models those three stages:

- `wrappers.dfy` (module `Wrappers`): `Option` (an NA cell, a missing key) and `Result` (an operation that raises).
- `text.dfy` (module `Text`): `str.strip`, `split(",")`, `lower`, `replace(" ", "")`, `in`, `str(int)`.
- `sequences.dfy` (module `Sequences`): `unique()`, dicts filled in a loop, `list.index`, `sum`.
- `catalogue.dfy` (module `Catalogue`): class `Module` and its two relations (a heap object, updated in place).
- `module_loading.dfy` (module `ModuleLoading`): `get_formatted_module_data` (imperative, over the `Module` objects).
- `validation.dfy` (module `Validation`): the table validators and the replacement-character scan.
- `student_loading.dfy` (module `StudentLoading`): `load_students`, `check_ranking_and_group_ids_match`.
- `spaces.dfy` (module `Spaces`): `check_sufficient_module_spaces`.
- `engine.dfy` (module `Engine`): the assigner's configuration and the constraint tests of one bundle.
- `rounds.dfy` (module `Rounds`): the specification of `run_assignment_round`, step by step.
- `offers.dfy` (module `Offers`): the scan of one turn over the offered modules, one offer at a time, and what it commits, flags and charges.
- `greedy.dfy` (module `Greedy`): a round as a chain of turns, each committing the first offer that fits the spaces left by the turns before it.
- `assigner.dfy` (module `Assigner`): class `ModuleAssigner`: its constructor, `run_assignment_round`, `set_loaded_module_assignments`.
- `prior_load.dfy` (module `PriorLoad`): the specification and the loops of `set_loaded_module_assignments`.
- `reports.dfy` (module `Reports`): the read-only queries: totals, assigned modules, minimum checks, excess requests.
- `scoring.dfy` (module `Scoring`): `get_assignment_satisfaction_scores` and the NumPy reductions applied to it.
- `search.dfy` (module `Search`): `run_assignments` (both versions) and the repetition fold.

The state of an assigner is three sequences:
- `credits[s][m]`: the credits student `s` holds in module `m` (0 when not held);
- `spaces[m]`: the spaces left on module `m`;
- `excess[m]`: how many over-capacity requests module `m` has received.

The per-group NumPy matrices of the source are the column blocks of `credits` that belong to
one group. Randomness (`RandomState.permutation`) and `argsort` with ties are oracles passed in
as parameters. An oracle is constrained only by what NumPy guarantees: a permutation, or an
order sorted by the key. Every property proved therefore holds for every seed and every way
of breaking ties.

## Model

| member | source | states |
|---|---|---|
| Text.TrimStart | app/data_loading.py:86 | the result is a suffix of the input that does not start with whitespace, and only whitespace was removed |
| Text.TrimEnd | app/data_loading.py:86 | the result is a prefix of the input that does not end with whitespace, and only whitespace was removed |
| Text.Strip | app/data_loading.py:86 | `strip()` never lengthens the text |
| Text.InfixOfSuffix | app/data_loading.py:86 | a prefix of a suffix of `s` is an infix of `s` at that suffix's start |
| Text.StripIsInfix | app/data_loading.py:86 | `strip()` leaves an infix of its input with only whitespace around it, and neither end of the result is whitespace |
| Text.StripIdempotent | app/data_loading.py:86 | stripping twice is stripping once |
| Text.IndexOf | app/data_loading.py:86 | the first position of a character: it holds the character and no earlier position does |
| Text.Split | app/data_loading.py:86 | `split(",")` always gives at least one part, and no part contains the separator |
| Text.JoinSplit | app/data_loading.py:86 | splitting loses nothing: joining the parts with the separator gives back the text |
| Text.SplitJoin | app/data_loading.py:86 | splitting a join of separator-free parts gives back exactly those parts |
| Text.StripNonEmptyUnfold | app/data_loading.py:86 | the id-list filter keeps the first part's stripped form exactly when it is not empty |
| Text.StripAll | app/data_loading.py:86 | one stripped entry per part, in order |
| Text.StripNonEmptyMembers | app/data_loading.py:86 | an id is in the parsed list exactly when it is the stripped form of some part and is not empty |
| Text.StripCommaFree | app/data_loading.py:86 | stripping a comma-free part leaves it comma-free |
| Text.ParsedIdsAreClean | app/data_loading.py:86-94 | every parsed id is non-empty, holds no comma and has no whitespace at either end |
| Text.Lower | app/data_loading.py:192 | `lower()` keeps the length, leaves no upper-case letter, and changes only upper-case letters, each to its lower-case form |
| Text.RemoveSpaces | app/data_loading.py:192-193 | `replace(" ", "")` leaves no space, never lengthens the text and adds no character |
| Text.IntToStringDigits | app/data_loading.py:28 | a printed integer holds only `-` and decimal digits |
| Text.NatToStringDigits | app/data_loading.py:28 | a printed natural number holds only decimal digits |
| Sequences.Unique | app/data_loading.py:101 | `unique()`: no repeats, the same members as the input, never longer |
| Sequences.UniqueSnoc | app/data_loading.py:101 | appending a value extends the unique values exactly when the value is new |
| Sequences.LastIndexOf | app/data_loading.py:81 | the last position of a value: a later write under one dict key replaces an earlier one |
| Sequences.LastIndexOfSnoc | app/data_loading.py:81 | after appending `y`, its last position is the new one, and every other value keeps its own |
| Sequences.LastWinsSnoc | app/data_loading.py:81 | filling one more dict entry is one more key update |
| Sequences.LastWinsMeaning | app/data_loading.py:81 | a dict filled in a loop holds exactly the keys written, each with the value of its last write |
| Sequences.FilledSnoc | app/data_loading.py:81 | filling one more entry is one more `d[k] = v` |
| Sequences.FilledMeaning | app/data_loading.py:78-81 | a filled dict holds each key's last value, with its keys in order of first appearance |
| Sequences.Values | app/data_loading.py:101 | `list(d.values())` has one value per key |
| Sequences.FilledValues | app/data_loading.py:101 | the values of a filled dict: one per distinct key, in order of the key's first appearance, each from the key's last write |
| Sequences.FirstIndex | app/algorithm.py:194 | `list.index(x)`: a position holding `x`, with no earlier one |
| Sequences.FirstIndexOfDistinct | app/algorithm.py:194 | in a list without repeats, `index` finds an element's only position |
| Catalogue.Module.constructor | app/algorithm.py:7-16 | a new module carries exactly the given fields and relations |
| Catalogue.Module.AddMutualExclusions | app/algorithm.py:21-25 | the listed modules are unioned into this module's exclusions; every listed module other than this one gains this module; requirements and spaces are untouched |
| Catalogue.Module.AddRequirements | app/algorithm.py:27-28 | the listed modules are unioned into the requirements; nothing else changes |
| ModuleLoading.LastIndex | app/data_loading.py:79-81 | the row a module id ends up built from is the last row with that id |
| ModuleLoading.LastRow | app/data_loading.py:79-81 | the row a module is built from carries the module's id |
| ModuleLoading.Listings | app/data_loading.py:84-99 | one parsed listing per row, under each relation |
| ModuleLoading.ListingsSnoc | app/data_loading.py:84-99 | one more row adds its own listing at the end |
| ModuleLoading.ListsLinked | app/data_loading.py:84-99 | a parsed listing of `a` names `b` exactly when some row of `a` lists `b` in that column |
| ModuleLoading.NotFoundSnoc | app/data_loading.py:87-99 | one more listing adds exactly its unknown ids to the not-found set |
| ModuleLoading.NotFoundIn | app/data_loading.py:87-99 | an id is not found exactly when it is unknown and some listing names it |
| ModuleLoading.NotFoundMeaning | app/data_loading.py:87-99 | an id is reported as not found exactly when some row lists it and no row defines it |
| ModuleLoading.ObjsSnoc | app/data_loading.py:88-89 | looking up one more id adds its module when it is loaded |
| ModuleLoading.TargetsSourcesSnoc | app/data_loading.py:84-91 | one more listing adds exactly its own links, seen from either end |
| ModuleLoading.TargetsMeaning | app/data_loading.py:87-89 | a loaded module is linked from `x` exactly when a listing of `x` names its id |
| ModuleLoading.SourcesMeaning | app/data_loading.py:87-89 | a loaded module links to `x` exactly when one of its listings names `x` |
| ModuleLoading.LinksLoaded | app/data_loading.py:88-89 | the loader links only modules that were loaded |
| ModuleLoading.LinkExclusionPair | app/data_loading.py:89 | `add_mutual_exclusions([b])` on `a`: each of the two gains the other; every other module and all requirements and spaces are unchanged |
| ModuleLoading.LinkExclusion | app/data_loading.py:87-91 | one step of the exclusion loop: a loaded id is linked both ways with the row's module, and an unknown one changes nothing |
| ModuleLoading.LinkExclusions | app/data_loading.py:85-91 | the row's module gains exactly the loaded listed modules, each listed module gains the row's module, and the unknown ids are returned |
| ModuleLoading.LinkRequirements | app/data_loading.py:93-99 | the row's module gains exactly the loaded listed modules as requirements, no other module changes, and the unknown ids are returned |
| ModuleLoading.RowsSnoc | app/data_loading.py:79-101 | one more row appends its id, group and semester, becomes its id's last row and leaves every other id's last row alone |
| ModuleLoading.IdsAreKnown | app/data_loading.py:79-81 | the dict's keys are the entries of the id column |
| ModuleLoading.KeysSnoc | app/data_loading.py:81 | a row with a new id appends that id to the key order, and a known id leaves the order as it is |
| ModuleLoading.LastRowSnoc | app/data_loading.py:81 | after one more row, that row is its id's last, and every other id keeps its last row |
| ModuleLoading.CreateModule | app/data_loading.py:80-81 | one step of the first loop: a new module built from the row replaces any earlier module with the same id |
| ModuleLoading.CreatedSnoc | app/data_loading.py:80-81 | storing a new module under its id extends the first loop's state by that row |
| ModuleLoading.BuiltSnoc | app/data_loading.py:80-81 | every stored module still carries the fields of its id's last row, the new one included |
| ModuleLoading.InjectiveSnoc | app/data_loading.py:80-81 | storing a new object keeps distinct ids on distinct modules |
| ModuleLoading.CreateModules | app/data_loading.py:78-81 | the first loop: one new, unlinked module per distinct id, built from that id's last row, with the ids in order of first appearance |
| ModuleLoading.LinkListedExclusions | app/data_loading.py:85-91 | after one more row's exclusion list, every module's exclusions are exactly the listed pairs so far, in both directions; the unknown ids are returned |
| ModuleLoading.LinkListedRequirements | app/data_loading.py:93-99 | after one more row's requirement list, every module's requirements are exactly those listed so far; the unknown ids are returned |
| ModuleLoading.LinkRow | app/data_loading.py:84-99 | one step of the second loop: both relations and both not-found sets grow by what the row lists; no spaces change |
| ModuleLoading.LinkAll | app/data_loading.py:84-99 | the second loop: the exclusions and requirements are exactly those all rows list, and the not-found sets hold exactly the unknown listed ids |
| ModuleLoading.AssembledLinks | app/data_loading.py:84-101 | read back per pair of returned modules: `q` is an exclusion of `p` exactly when either lists the other, `q` is a requirement of `p` exactly when `p` lists `q`, and no link leaves the returned list |
| ModuleLoading.Formatted | app/data_loading.py:60-101 | the returned modules are distinct and non-empty exactly when the table is, carry their ids in order of first appearance, are linked exactly as listed, and exclusion among them is symmetric |
| ModuleLoading.GetFormattedModuleData | app/data_loading.py:60-101 | one module per distinct id, built from that id's last row; links exactly as listed, and exclusion symmetric; the unknown ids per relation; the distinct groups and semesters in row order |
| Validation.FlaggedMeaning | app/data_loading.py:13 | a cell is flagged exactly when its printed text holds U+FFFD, so only text cells can be |
| Validation.FirstFlagged | app/data_loading.py:12-15 | the first flagged position of a row, if any: it is flagged, no earlier one is, and there is none exactly when no cell is flagged |
| Validation.CheckForReplacementChar | app/data_loading.py:10-15 | reports a hit exactly when some cell of the row is flagged, and returns the first flagged column |
| Validation.FlaggedRows | app/data_loading.py:18-19 | every pair listed is a cell of the table |
| Validation.FlaggedRowsSound | app/data_loading.py:18-19 | each listed pair is a flagged row with its first flagged column, in increasing row order |
| Validation.FlaggedRowsComplete | app/data_loading.py:18-19 | every flagged row is listed |
| Validation.FindReplacementCharacterIndices | app/data_loading.py:17-20 | every pair returned is a cell of the table |
| Validation.FindReplacementCharacterIndicesMeaning | app/data_loading.py:17-20 | the pairs are exactly the flagged rows, each with its first flagged column, in increasing row order |
| Validation.CellMessages | app/data_loading.py:27-28 | one message per listed position, naming that position and its cell |
| Validation.GetReplacementCharacterErrorMessages | app/data_loading.py:22-29 | the loop builds the header and then one message per flagged row, in row order |
| Validation.ReplacementErrorsEmpty | app/data_loading.py:22-29 | no message exactly when no cell holds U+FFFD; otherwise the header plus one message per flagged row |
| Validation.UncleanIsListed | app/data_loading.py:17-20 | a table with a garbled cell has at least one listed position |
| Validation.ListedIsUnclean | app/data_loading.py:17-20 | a listed position means some cell is garbled |
| Validation.MissingColumnErrors | app/data_loading.py:35-37 | never more errors than required columns |
| Validation.MissingColumnErrorsMeaning | app/data_loading.py:35-37 | a column's error is reported exactly when the column is required and missing |
| Validation.NoMissingColumnErrors | app/data_loading.py:35-37 | no column errors exactly when every required column is present |
| Validation.CheckColumns | app/data_loading.py:35-37 | the loop over the required columns builds exactly the missing-column errors, in the required order |
| Validation.BlankIdErrors | app/data_loading.py:111-113 | never more errors than rows, and none exactly when no row's id is NA or empty |
| Validation.ReportBlankIds | app/data_loading.py:112-113 | the loop builds one message per blank-id row, naming that row's student |
| Validation.IdColumn | app/data_loading.py:115 | one id per row |
| Validation.RepeatsMeaning | app/data_loading.py:115 | a value is marked duplicated exactly when it occurs at two positions |
| Validation.DuplicateIds | app/data_loading.py:115 | each duplicated id is reported once |
| Validation.DuplicateIdsMeaning | app/data_loading.py:115 | an id is reported exactly when two rows carry it |
| Validation.DuplicateErrors | app/data_loading.py:116-117 | one message per duplicated id, in order, naming the file |
| Validation.ValidateModuleData | app/data_loading.py:32-41 | the missing-column errors, then the replacement-character errors; none exactly when every module column is present and no cell is garbled |
| Validation.ValidateModuleDataV1 | data_loading.py:7-13 | the missing-column errors only; none exactly when every module column is present |
| Validation.ValidateStudentTableV1 | data_loading.py:75-99 | the missing student columns, then one error per blank id when both are present; none exactly when both columns exist and no id is blank |
| Validation.ValidateModuleAssignmentsData | app/data_loading.py:241-254 | as the older validator, then the replacement-character errors; none exactly when both columns exist, no id is blank and no cell is garbled |
| Validation.NoDuplicateIds | app/data_loading.py:115-117 | no duplicate is reported exactly when no two rows share an id |
| Validation.StudentIdErrorsEmpty | app/data_loading.py:111-117 | no id errors exactly when no id is blank and no id repeats |
| Validation.CheckStudentIds | app/data_loading.py:111-117 | the guarded block builds the blank-id errors, then the duplicate errors |
| Validation.RankingsErrorsEmpty | app/data_loading.py:104-121 | no errors exactly when both columns exist, no id is blank or repeated, and no cell is garbled |
| Validation.ValidateModuleRankingsData | app/data_loading.py:104-121 | the missing columns; the id errors when both student columns exist; then the garbled cells; empty exactly under the condition above |
| Validation.ValidateModuleGroupPreferencesDataAsWritten | app/data_loading.py:123-141 | as written: raises exactly when the `student_id` column is missing; otherwise the missing name column, the blank ids when both columns exist, every duplicated id and the garbled cells, in that order |
| Validation.ValidateModuleGroupPreferencesData | app/data_loading.py:123-141 | corrected: the rankings validator's report, naming the group-preferences file, and empty exactly when that report is |
| Validation.GroupPreferencesWithoutIdColumn | app/data_loading.py:134-136 | on a table without `student_id`, the validator as written raises, where the corrected one reports the missing column |
| StudentLoading.UidShape | app/data_loading.py:191-197 | a uid holds no space and is the name key, an underscore and the id key; a missing id adds nothing after the underscore |
| StudentLoading.JoinedAt | app/data_loading.py:195 | a separator that neither left part contains splits two equal joins at the same place |
| StudentLoading.FirstOccurrence | app/data_loading.py:195 | a position holding `x` with no `x` before it is `x`'s first position |
| StudentLoading.UidDeterminesKeys | app/data_loading.py:191-197 | two students with one uid have the same name key and the same id key, when their name keys hold no underscore |
| StudentLoading.MissingIdSharesUid | app/data_loading.py:194-197 | a missing id and an empty id give the same uid, so such rows share one dict entry |
| StudentLoading.StudentToUidV1 | data_loading.py:124 | the older lambda forms a uid exactly when the name is text and the id is not a number (otherwise `.lower()` or `.strip()` raises) |
| StudentLoading.UidV1Agrees | data_loading.py:124 | wherever the older lambda forms a uid, it is the current one |
| StudentLoading.GroupNames | app/data_loading.py:204 | the group names are exactly the columns other than the two student columns |
| StudentLoading.Uids | app/data_loading.py:205-206 | one uid per row, in row order |
| StudentLoading.PrefsOf | app/data_loading.py:206 | a row's preferences hold exactly the group names as keys |
| StudentLoading.PrefsColumn | app/data_loading.py:205-206 | each row's group preferences, in row order |
| StudentLoading.PrefsByUidMeaning | app/data_loading.py:205-206 | the uids with preferences are exactly the rows' uids, each with its last row's preferences |
| StudentLoading.LoadGroupPreferences | app/data_loading.py:205-206 | the first loop builds exactly the uid-keyed preferences, with a later row replacing an earlier one |
| StudentLoading.Present | app/data_loading.py:216 | a module is ranked exactly when it is a known module with a column in the rankings table |
| StudentLoading.MissingModules | app/data_loading.py:233 | a module is reported missing exactly when it has no column in the rankings table |
| StudentLoading.RankedOrMissing | app/data_loading.py:216-233 | every module id is either ranked or reported missing, never both, counting repeats |
| StudentLoading.RankOf | app/data_loading.py:216 | a loaded rank is the cell, and never a blank one (a blank becomes `np.inf`) |
| StudentLoading.RanksOf | app/data_loading.py:216 | the ranking dict holds exactly the modules that have a column, each with its cell's rank |
| StudentLoading.AllRankedMeaning | app/data_loading.py:213-216 | a student ranks everything exactly when no loaded rank is infinite |
| StudentLoading.ExcludedIds | app/data_loading.py:219 | a module is excluded exactly when its id occurs as a substring of the exclusion text |
| StudentLoading.ExcludedOf | app/data_loading.py:219 | no exclusions for a blank cell, the substring matches for a text cell; a number cell raises exactly when there is a module to search it for, and gives no exclusions otherwise |
| StudentLoading.ExcludedAt | app/data_loading.py:219 | a row of a table without an `excluded_modules` column raises (no such attribute); otherwise the row's exclusions are those of its cell |
| StudentLoading.LoadRow | app/data_loading.py:209-227 | a row loads exactly when the table has an exclusions column, the row's exclusion cell can be searched, and its uid has group preferences; a loaded student carries those exclusions and those preferences |
| StudentLoading.NoExclusionsColumn | app/data_loading.py:209-219 | without an exclusions column, the rows all load exactly when there are none |
| StudentLoading.MissingRanks | app/data_loading.py:229-230 | at most one entry per row |
| StudentLoading.MissingIdNames | app/data_loading.py:223-224 | at most one entry per row |
| StudentLoading.RowStudents | app/data_loading.py:209-227 | one student per row |
| StudentLoading.StudentsOfMeaning | app/data_loading.py:227-235 | the students returned: one per distinct uid, in order of the uid's first row, each built from the uid's last row |
| StudentLoading.LoadStudents | app/data_loading.py:174-235 | fails exactly when some row cannot load (so, by `NoExclusionsColumn`, whenever the table has rows but no exclusions column); otherwise the students by uid, the ids of rows missing a rank, the names of rows missing an id, and the modules without a column |
| StudentLoading.LoadRankings | app/data_loading.py:209-233 | the second loop: fails exactly when some row cannot load, and otherwise returns what `LoadStudents` promises |
| StudentLoading.KeepRow | app/data_loading.py:224-230 | a loaded row's student is stored under its uid and the row is noted when it lacks a rank or an id, so the loop's account of the rows read so far covers one more row |
| StudentLoading.NoteMissing | app/data_loading.py:223-230 | after row `i`, the two report lists are those of the first `i + 1` rows |
| StudentLoading.RowsStep | app/data_loading.py:209-227 | the rows loaded so far, extended by one more |
| StudentLoading.RowsGathered | app/data_loading.py:209-227 | once the loop has seen every row, every row loads, and the loop's ghost sequences are the rows' uids and students |
| StudentLoading.CheckUidsV1 | data_loading.py:124-137 | succeeds exactly when the older lambda can form every uid of the table |
| StudentLoading.ReadableSnoc | data_loading.py:124 | the first `i + 1` rows are readable when the first `i` and row `i` are |
| StudentLoading.LoadStudentsV1 | data_loading.py:107-162 | fails exactly when a uid of either table cannot be formed or some row cannot load; otherwise the same result as the current loader |
| StudentLoading.CheckRankingAndGroupIdsMatch | app/data_loading.py:154-164 | the two reports are disjoint, together are exactly the ids only one table has, and are both empty exactly when the two id sets are equal |
| StudentLoading.IdsMatchSymmetric | app/data_loading.py:154-164 | swapping the two tables swaps the two reports |
| Spaces.ColumnSum | app/data_loading.py:169 | a column sum raises exactly when the summed cells mix text with numbers or blanks; otherwise it is text exactly when some cell is text (the texts joined) and a number otherwise |
| Spaces.Requested | app/data_loading.py:169 | the group's request raises exactly when the group has no column or its column mixes text with other cells |
| Spaces.ColumnSumNonNegative | app/data_loading.py:169 | when every student asks for a non-negative number of spaces, a numeric sum is non-negative |
| Spaces.ColumnSumText | app/data_loading.py:169 | a column of text only does not raise: its sum is the texts joined in row order |
| Spaces.Joined | app/data_loading.py:169 | the joined texts start with the first cell's text and are at least as long as the last cell's |
| Spaces.CheckSufficientModuleSpaces | app/data_loading.py:166-172 | fails exactly when some group's request raises; otherwise one result per distinct group, in order of first appearance, holding the group, its requested spaces (a number, or joined text) and its modules' capacity |
| Spaces.CapacityAbsent | app/data_loading.py:170 | a group no module belongs to offers no spaces |
| Spaces.CapacityOfSnoc | app/data_loading.py:170 | one more module adds its capacity to exactly the one group it belongs to |
| Spaces.CapacityPartition | app/data_loading.py:168-172 | the per-group capacities add up to the capacity of the whole module table: every module is counted in exactly one group |
| Spaces.CapacityPartitionStep | app/data_loading.py:168-172 | one more module keeps the per-group capacities summing to the whole table's |
| Spaces.CapacitySameGroups | app/data_loading.py:168-170 | listing one more group, new or already listed, leaves the capacity of the modules so far unchanged |
| Engine.SumOverPlus | app/algorithm.py:264 | a per-group or per-semester sum of an element-wise sum is the sum of the two sums |
| Engine.SumOverZero | app/algorithm.py:264 | a group or semester whose modules all hold 0 sums to 0 |
| Engine.SumOverNonNegative | app/algorithm.py:264 | sums of non-negative credits are non-negative |
| Engine.GroupTotals | app/algorithm.py:264 | a student's row of `assigned_credits_total`: one total per group, each the sum of that group's block |
| Engine.SumSingle | app/algorithm.py:333 | a sequence with one entry `x` and zeros elsewhere adds up to `x` |
| Engine.SumZero | app/algorithm.py:333 | a sequence of zeros adds up to 0 |
| Engine.GroupPartition | app/algorithm.py:128 | every module lies in exactly one group, so the group totals add up to the sum of the whole row |
| Engine.HeldCredits | app/algorithm.py:299-301 | one entry per module, as the round counts credits per semester |
| Engine.Bundle | app/algorithm.py:307 | the bundle holds only listed modules the student does not hold yet |
| Engine.Delta | app/algorithm.py:311-317 | one entry per module: the bundle's credits placed at its members |
| Engine.TotalsAfter | app/algorithm.py:330 | one total per group |
| Engine.Evaluate | app/algorithm.py:320-378 | the seven flags all pass exactly when every member has a space left and the six checks that do not depend on spaces hold |
| Engine.Take | app/algorithm.py:379-382 | taking the bundle keeps the row's length |
| Engine.Release | app/algorithm.py:383 | taking the bundle keeps the number of modules in the spaces list |
| Engine.TakeNext | app/algorithm.py:379-382 | one step of the commit loop writes one member's credits into its cell |
| Engine.ReleaseNext | app/algorithm.py:383 | one step of the commit loop takes one space from one member |
| Engine.TakeIsPlus | app/algorithm.py:379-386 | taking a bundle of unheld modules adds exactly its credits to the row and to the per-semester counts |
| Engine.TakeKeepsCaps | app/algorithm.py:320-386 | after a bundle that passed the checks, the student is within the required total and every group and semester maximum; no member is excluded by a module held before or by the student; and no member is least preferred unless that is allowed |
| Rounds.Zeros | app/algorithm.py:63 | a fresh credit row: one 0 per module |
| Rounds.TakeCellsOk | app/algorithm.py:382 | taking a bundle keeps every cell either empty or holding its module's credits |
| Rounds.UsesNone | app/algorithm.py:383 | before anyone takes anything, no module has been used |
| Rounds.UsesUpdate | app/algorithm.py:379-383 | recording one more student's bundle adds one use to each of its modules and to no other |
| Rounds.RoundStep | app/algorithm.py:378-388 | serving one more student keeps what the round promises: every student either untouched or given exactly one checked bundle, each module's spaces lowered by the number of students who took it, and spaces that started at zero or more staying there |
| Rounds.UsesAllNone | app/algorithm.py:276 | at the start of a round, the spaces are the starting spaces less no uses |
| Rounds.NotYetServed | app/algorithm.py:270-280 | in a permutation, the student whose turn it is has not been served earlier in the round |
| Rounds.SkipStep | app/algorithm.py:283 | a student who already holds the required credits is passed over, and the loop's promise carries to the next turn |
| Rounds.TraceStep | app/algorithm.py:393-407 | a student short of credits who received nothing is traced by id with the flags last computed, and each excess counter rises by at most one |
| Rounds.CommitStep | app/algorithm.py:378-388 | a student short of credits whose bundle passed every check takes it: their row gains its credits and each member loses one space |
| Rounds.FailDone | app/algorithm.py:393-407 | when a short student is traced before any flags exist (an `UnboundLocalError` in Python), the round fails and changes nothing |
| Rounds.StartProgress | app/algorithm.py:276-278 | before the first turn nothing has been taken, traced or charged |
| Rounds.FinishDone | app/algorithm.py:248-409 | after every student's turn: each student untouched or given exactly one checked bundle while short; spaces lowered by the takers; excess counters raised by at most one per student; the trace names exactly the students who were short and received nothing |
| Rounds.RoundKeepsCaps | app/algorithm.py:330-378 | a student given a bundle ends within the required total, every group maximum and every semester maximum; a student who started within them stays within them |
| Rounds.RoundKeepsCells | app/algorithm.py:382 | a round keeps every cell either empty or holding its module's credits |
| Offers.GroupOffers | app/algorithm.py:295 | a group's offers are its modules in the given order, each paired with the group |
| Offers.OfferedPrefix | app/algorithm.py:289-295 | the offers of the first groups come first among a turn's offers |
| Offers.OfferedNext | app/algorithm.py:289-295 | the offers of one more group follow those of the groups before it |
| Offers.OfferedOk | app/algorithm.py:289-304 | every offer of a turn is a module of the group it is offered from |
| Offers.EvalOfMeaning | app/algorithm.py:307-340 | an offer is evaluated exactly when its bundle is non-empty; its flags are then those of `Engine.Evaluate`, and it passes exactly when the bundle has space and is admissible |
| Offers.ChargeOfMeaning | app/algorithm.py:343-345 | the module an offer without space charges is a member of its bundle |
| Offers.Run | app/algorithm.py:289-391 | the scan commits the offer it started with or one of the offers it is given |
| Offers.RunStays | app/algorithm.py:388-391 | once a bundle is committed, later offers change nothing |
| Offers.RunAppend | app/algorithm.py:289-295 | scanning two runs of offers one after the other is scanning them joined |
| Offers.RunNext | app/algorithm.py:295-388 | scanning one more offer is one more step |
| Offers.RunCommitted | app/algorithm.py:388-391 | once the offer at `j` is committed, the scan of the whole sequence ends where the scan up to `j` did |
| Offers.RunPrefixCommitted | app/algorithm.py:388-391 | once a prefix of the offers commits one, the scan of them all ends there |
| Offers.OfferedStep | app/algorithm.py:289-391 | one more group continues the scan over that group's offers, and a commit there ends the turn's scan |
| Offers.StepAt | app/algorithm.py:307-388 | one offer: an empty bundle changes nothing; otherwise its flags are recorded, its leftover member is charged when it lacks space, and it is committed when every flag passes |
| Offers.RunNone | app/algorithm.py:378-393 | the scan commits nothing exactly when no offer passes |
| Offers.RunFirst | app/algorithm.py:378-391 | a committed offer is the first one that passes |
| Offers.RunChargedSound | app/algorithm.py:343-346 | a module is charged only as the leftover member of an evaluated offer without space reached before any offer passes |
| Offers.RunChargedComplete | app/algorithm.py:343-346 | the leftover member of every evaluated offer without space reached before any offer passes is charged |
| Offers.RunLastChosen | app/algorithm.py:320-340 | when an offer is committed, the flags left are that offer's |
| Offers.RunUntouched | app/algorithm.py:307-309 | when no offer is evaluated, the scan leaves its state as it was |
| Offers.RunLastEvaluated | app/algorithm.py:393-407 | with nothing committed, the flags left are those of the last offer evaluated |
| Offers.RunLastSome | app/algorithm.py:393-407 | the scan has flags exactly when it started with some or evaluates an offer |
| Offers.Charge | app/algorithm.py:343-346 | the counter of each charged module rises by one and every other stays |
| Offers.ChargeIs | app/algorithm.py:343-346 | counters that grew by one at exactly the charged modules are those `Charge` gives |
| Offers.ChargeBounds | app/algorithm.py:342-346 | each counter rises by at most one in a turn |
| Offers.ChargeMore | app/algorithm.py:344-346 | charging the not yet charged modules of a larger set, once each, is charging the larger set |
| Greedy.OraclesShapes | app/algorithm.py:267-295 | the oracles give inputs of the right shapes and a student order without repeats |
| Greedy.ChainStart | app/algorithm.py:276-278 | before the first turn, the chain holds the starting state and nothing is chosen |
| Greedy.ChainStep | app/algorithm.py:280-407 | one more turn extends the chain, recording that turn's choice for its student |
| Greedy.TurnServed | app/algorithm.py:283-407 | what serving a short student returned is a step of the chain: the scan's choice, flags and charges, and the spaces the committed bundle released |
| Greedy.TurnSkipped | app/algorithm.py:283 | a student holding the required credits changes nothing and is given nothing |
| Greedy.PassesFits | app/algorithm.py:378 | an offer passes exactly when its bundle is non-empty, has space and is admissible |
| Greedy.ScanFirstFit | app/algorithm.py:289-391 | a turn commits the first offer that fits, and nothing exactly when none fits |
| Greedy.ScanCharges | app/algorithm.py:342-346 | a turn charges exactly the leftover members of the bundles without space met before one fits |
| Greedy.ScanChargesSound | app/algorithm.py:342-346 | every module a turn charges is the leftover member of a bundle without space met before one fits |
| Greedy.ScanChargesComplete | app/algorithm.py:342-346 | the leftover member of every bundle without space met before one fits is charged |
| Greedy.ChargesCharged | app/algorithm.py:343-345 | an offer charges a module in the scan exactly when its bundle is non-empty, lacks space and has that leftover member |
| Greedy.ScanLastFlags | app/algorithm.py:393-407 | the flags a turn leaves are the committed bundle's; with nothing committed, those of the last non-empty bundle offered, or the earlier flags when every bundle was empty |
| Greedy.ScanChosenFlags | app/algorithm.py:320-340 | a turn that commits a bundle leaves that bundle's flags |
| Greedy.ScanEmptyFlags | app/algorithm.py:307-309 | a turn whose offered bundles are all empty leaves the flags as they were |
| Greedy.ScanEvaluatedFlags | app/algorithm.py:393-407 | a turn that commits nothing leaves the flags of the last non-empty bundle offered |
| Greedy.GreedyChoice | app/algorithm.py:280-391 | in a round, each short student's turn commits the first of its offers that fits the spaces the earlier turns left, and nothing exactly when none fits |
| Greedy.GreedyExcess | app/algorithm.py:342-346 | in a round, a short student's turn raises by one exactly the counters of the modules it requested, and leaves the others |
| Greedy.GreedyTrace | app/algorithm.py:393-407 | in a round, a short student given nothing is traced with the flags of the last non-empty bundle offered to them |
| Assigner.TakeBundle | app/algorithm.py:379-388 | the commit loop leaves the row holding each member's credits and each member with one space fewer |
| Assigner.TryGroup | app/algorithm.py:295-388 | the loop over a group's modules is the scan over that group's offers (`Offers.Run`): it takes the offer that scan commits, which by `Offers.RunFirst` is the first that passes every check and has space, and charges exactly the modules that scan charges, at most once per student |
| Assigner.TryModule | app/algorithm.py:297-388 | one module of a group is one scan step (`Offers.Step`): taken only when its bundle passed every check and had space, its flags recorded, its leftover member charged when the bundle lacks space |
| Assigner.Serve | app/algorithm.py:289-391 | a turn is the scan over all its offers, groups in deficit order and each group's modules in rank order: the bundle taken, the flags left and the counters charged are that scan's; at most one bundle, which passed every check and had space |
| Assigner.Turn | app/algorithm.py:280-407 | one turn keeps the loop's promise for the students so far and leads from one state of the greedy chain to the next (`Greedy.TurnOk`), recording the scan's choice; it fails only when a short student's scan leaves no flags |
| Assigner.ServeTurn | app/algorithm.py:283-407 | the turn of a short student: the loop's promise and the greedy chain step, or a failure when the scan leaves no flags |
| Assigner.ScanTurn | app/algorithm.py:289-407 | serving a short student from their row at the start of the round is the turn's scan (`Greedy.TurnScan`), and the trace entry is added exactly when nothing is committed |
| Assigner.Round | app/algorithm.py:263-409 | the loop over the students does everything `Rounds.FinishDone` describes, or fails and changes nothing; and it is, turn by turn, the greedy round `Greedy.RoundTurns`: each short student's turn commits the first fitting offer (`Greedy.GreedyChoice`) |
| Assigner.ModuleAssigner.constructor | app/algorithm.py:45-73 | a new assigner holds no credits, each module's spaces as loaded and no excess requests |
| Assigner.ModuleAssigner.RunAssignmentRound | app/algorithm.py:248-409 | the new state and the trace are what a round promises (`Rounds.RoundDone`) from the old state, and the round is the greedy first-fit round `Greedy.RoundTurns` |
| Assigner.ModuleAssigner.SetLoadedModuleAssignments | app/algorithm.py:75-88 | fails exactly when Python would raise; otherwise the rows are the loaded rows; spaces and excess requests are unchanged |
| PriorLoad.FirstRow | app/algorithm.py:84-87 | the first row whose `student_id` cell is the id, if any: it carries the id and no earlier row does; none exactly when no row does |
| PriorLoad.LoadedRow | app/algorithm.py:85-88 | a student's row after a load: one cell per module |
| PriorLoad.Loaded | app/algorithm.py:83-88 | the rows after a load that does not raise: one row per student, one cell per module |
| PriorLoad.GroupOf | app/algorithm.py:85-86 | each module lies in exactly one group block, the one the loop reaches it in |
| PriorLoad.LoadRow | app/algorithm.py:84-88 | one student's loop over the group blocks: fails exactly when some module's cell raises (no column, no row for the student, a text entry); otherwise each module whose entry is above 0 gets its credits and every other cell is kept |
| PriorLoad.LoadRows | app/algorithm.py:83-88 | the loop over the students fails exactly when the load raises (including a table without a `student_id` column when there are students); otherwise it returns the loaded rows |
| PriorLoad.LoadedCellsOk | app/algorithm.py:88 | a load keeps every cell either empty or holding its module's credits |
| PriorLoad.LoadedHeld | app/algorithm.py:87-88 | after a load, a module whose entry is above 0 is held exactly when it carries credits, and every other module is held as before |
| PriorLoad.LoadedIdempotent | app/algorithm.py:83-88 | loading the same table twice is loading it once |
| Reports.Ids | app/algorithm.py:48 | `_student_ids`: one id per student, in order |
| Reports.AssignedCreditsTotals | app/algorithm.py:123-130 | one total per student |
| Reports.AssignedCreditsTotalsMeaning | app/algorithm.py:123-130 | each student's total is the sum of their whole row: adding up the group totals counts every module once |
| Reports.GroupHeld | app/algorithm.py:145 | `np.nonzero` of one group's block: exactly the group's modules the student holds, in increasing order |
| Reports.ListingMeaning | app/algorithm.py:144-146 | a module is listed exactly when it belongs to one of the groups walked so far and is held, and no module is listed twice |
| Reports.AssignedModules | app/algorithm.py:132-147 | fails (`ValueError` from `.index`) exactly when no student has the id |
| Reports.AssignedModulesMeaning | app/algorithm.py:132-147 | the list holds, once each, exactly the modules held by the first student with the id |
| Reports.AssignedModulesOwnRow | app/algorithm.py:142 | with distinct ids, a student's own row is the one read |
| Reports.AllAssignedModules | app/algorithm.py:149-162 | one row per student and one column per module |
| Reports.AllAssignedModulesMeaning | app/algorithm.py:157-160 | with distinct ids, a cell shows the student's rank of the module exactly where the student holds it, and 0 elsewhere |
| Reports.ModuleStudents | app/algorithm.py:167-172 | each module's student list is in student order without repeats, and names only students considered |
| Reports.ModuleStudentsMeaning | app/algorithm.py:164-178 | with distinct ids, a module's list holds exactly the students whose row holds the module |
| Reports.MinimumPerGroup | app/algorithm.py:230-235 | one flag per student and group |
| Reports.GroupMinimaBoundTotal | app/algorithm.py:230-235 | a student who meets every group minimum holds at least the sum of the group minima |
| Reports.MinimumPerSemesterAsWritten | app/algorithm.py:237-243 | as written: raises exactly when there is no semester, no group, or a group with no module in some semester; otherwise it agrees with the intended check |
| Reports.MinimumPerSemester | app/algorithm.py:237-243 | corrected: one flag per student and semester, where a group with no module in a semester adds nothing to it |
| Reports.MinimumPerSemesterMeaning | app/algorithm.py:237-243 | a student meets a semester's minimum exactly when the credits they hold in that semester reach it (rows whose cells are empty or hold their module's credits) |
| Reports.SemesterCheckRaises | app/algorithm.py:242 | two groups, each with modules in a different semester: the check as written raises, while the intended check passes |
| Reports.HeldRowAsWrittenOwn | app/algorithm.py:297 | with distinct ids, the row the round reads is the student's own |
| Reports.SharedIdBreaksSemesterCap | app/algorithm.py:297-336 | two students with one id: the round as written reads the first student's row, lets a bundle through the semester check, and leaves the second student above the semester cap |
| Reports.ExcessRequests | app/algorithm.py:223-228 | fails (`ZeroDivisionError`) exactly when some module has no capacity; otherwise one line per module, holding its id, name, excess requests and their proportion of its capacity |
| Scoring.GeNaN | app/app.py:880 | a NumPy `>=` is false whenever either side is NaN, and any two values that are not NaN are comparable |
| Scoring.RangeSumLow | app/algorithm.py:214-215 | `np.sum(np.arange(lo, hi) + 1)` is its first term plus the rest |
| Scoring.RangeSumClosed | app/algorithm.py:214-215 | twice the range sum is the count times the sum of the two ends |
| Scoring.Positive | app/algorithm.py:221 | a product of two positive integers is positive |
| Scoring.Spread | app/algorithm.py:214-221 | for `k` of `m` modules, the worst total minus the best total is `k(m - k)`, which is positive when `0 < k < m` |
| Scoring.GroupScoreReal | app/algorithm.py:221 | with finite ranks and `0 < k < m`, the score divides the excess over the best total by the spread |
| Scoring.GroupScoreFormula | app/algorithm.py:214-221 | with finite ranks and `0 < k < m`, the score is `1 - (total - k(k+1)/2) / (k(m - k))` |
| Scoring.ZeroSpread | app/algorithm.py:221 | when the best and worst totals coincide, the formula divides by zero |
| Scoring.GroupScoreNoneHeld | app/algorithm.py:214-221 | a group in which nothing is held scores NaN (0 / 0) |
| Scoring.GroupScoreAllHeld | app/algorithm.py:214-221 | a group in which every module is held has no real score |
| Scoring.GroupScoreBest | app/algorithm.py:182-185 | holding the best-ranked `k` modules scores 1 |
| Scoring.GroupScoreWorst | app/algorithm.py:182-185 | holding the worst-ranked `k` modules scores 0 |
| Scoring.GroupScoreBounds | app/algorithm.py:182-185 | a total between the best and the worst gives a real score between 0 and 1 |
| Scoring.UnitQuotient | app/algorithm.py:221 | a quotient of a non-negative number by a larger positive one lies in [0, 1] |
| Scoring.DistinctSumBounds | app/algorithm.py:214-215 | `k` distinct ranks out of `1..top` add up to at least `1 + .. + k` and at most the sum of the `k` largest |
| Scoring.SumInEmpty | app/algorithm.py:209-210 | no ranks add up to 0, and count 0 |
| Scoring.SumInAdd | app/algorithm.py:209-210 | adding a new rank adds it to the sum and one to the count, when it is in range |
| Scoring.HeldRanks | app/algorithm.py:209 | one entry per module |
| Scoring.HeldOnes | app/algorithm.py:210 | one entry per module |
| Scoring.Scores | app/algorithm.py:180-221 | raises exactly when there is no student (`np.stack` of an empty list); otherwise one score per student and group, from the student's rank total and held count in that group |
| Scoring.SumOverPositive | app/algorithm.py:210 | a group in which some module counts positively has a positive sum |
| Scoring.StudentScoreNoneHeld | app/algorithm.py:180-221 | a student who holds no module of a group scores NaN there |
| Scoring.StudentScoreAllHeld | app/algorithm.py:180-221 | a student who holds every module of a group has no real score there |
| Scoring.RankSetSums | app/algorithm.py:207-210 | with distinct ranks, the rank total and the held count are the sum and the size of the set of held ranks |
| Scoring.StudentScoreInUnitRange | app/algorithm.py:182-185 | when a group's ranks are `1..m` in some order and the student holds some but not all of its modules, the score is a number between 0 and 1 |
| Scoring.Flatten | app/app.py:875-876 | every score of every student is among the values reduced |
| Scoring.TotalNaN | app/app.py:875-876 | a sum is NaN exactly when an entry is NaN or both infinities occur, and is an infinity exactly when only that infinity occurs |
| Scoring.Defined | app/app.py:875-876 | the entries kept are exactly those that are not NaN |
| Scoring.MeanNaN | app.py:701-702 | one NaN makes `np.mean` NaN |
| Scoring.NanMeanNaN | app/app.py:875-876 | `np.nanmean` is NaN exactly when every entry is NaN or both infinities occur |
| Scoring.Min | app.py:703-704 | `np.min` raises exactly on an empty array |
| Scoring.MinOfMeaning | app.py:703-704 | the minimum is NaN when an entry is; otherwise it is an entry and no entry is below it |
| Search.ProductZero | app/app.py:825 | a product is 0 exactly when a factor is |
| Search.SeedV2Collide | app/app.py:825 | two repetitions share a seed exactly when they are the same repetition or the user's seed is 0 |
| Search.SeedV1Distinct | app.py:660 | every repetition uses its own seed |
| Search.ZeroRows | app/algorithm.py:63 | the starting credit rows: one row per student, one cell per module |
| Search.Start | app/app.py:785-832 | the assigner as built and seeded has one row per student and one entry per module |
| Search.RoundsFromSnoc | app/app.py:835-836 | one more round that did not raise extends the history of a repetition |
| Search.GreedyRoundsSnoc | app/app.py:835-836 | one more greedy round extends the greedy history of a repetition |
| Search.NextRound | app/app.py:835-836 | a round that does not raise appends its state to both histories of the repetition |
| Search.RunRounds | app/app.py:785-836 | fails for a seed `RandomState` refuses and for a table that cannot be loaded; otherwise the states run from the seeded assigner through `halt` rounds, each a round as `Rounds.RoundDone` describes and each the greedy round of its own student order (`GreedyRounds`) |
| Search.RunKeepsSpaces | app/app.py:835-836 | spaces that start at zero or more stay so through every round of a repetition |
| Search.RunKeepsCells | app/app.py:835-836 | every cell stays empty or holding its module's credits through a repetition |
| Search.RunKeepsCaps | app/app.py:835-836 | a student within the caps at some round stays within them, and one who received a bundle is within them from then on |
| Search.StartMeaning | app/algorithm.py:63-69 | the assigner starts with each module's available spaces, no excess requests, and cells that are empty or hold their module's credits |
| Search.AcceptedMeaning | app/app.py:839-855 | an assignment accepted under checking gives every student exactly the required credits and at least the minimum of every group and semester |
| Search.Proportions | app/app.py:872-873 | one proportion per module |
| Search.KeepBestV2 | app/app.py:862-884 | raises exactly when there is no student or some module has no capacity; otherwise the result is the best so far or the current assignment |
| Search.KeepBestV2ByScore | app/app.py:878-884 | the over-request test cannot change the outcome: the current assignment wins exactly when its mean score is not below the best's |
| Search.KeepBestV1 | app.py:696-711 | raises exactly when there is no student or no group; otherwise the result is the best so far or the current assignment |
| Search.FlattenSize | app.py:701-704 | a table of `n` rows of width `w` flattens to `n * w` values |
| Search.KeepBestV1Undefined | app.py:701-711 | under the plain mean, a student who holds no module of some group makes the current assignment lose, so the best so far is kept |
| Search.NextBestV2 | app/app.py:839-887 | the semester check runs first and raises for a catalogue it cannot stack, checking on or off; otherwise an unaccepted assignment leaves the best as it was, the first accepted one becomes the best, and the result is always the old best or the current one |
| Search.NextBestV2Kept | app/app.py:850-887 | a repetition keeps the best an accepted assignment, and leaves no best exactly when there was none and the current assignment is not accepted |
| Search.NextBestV1 | app.py:673-719 | the semester check runs first and raises for a catalogue it cannot stack; otherwise every assignment is accepted: the first becomes the best, and afterwards the best is the old best or the current one |
| Search.FoldV2 | app/app.py:622-635 | the best after the repetitions is one of the runs; a catalogue the semester check cannot stack makes any repetition raise |
| Search.FoldV2Snoc | app/app.py:623-634 | one more repetition is one more `NextBestV2` step |
| Search.FoldV2Best | app/app.py:622-652 | the best is a run that was accepted, and there is none exactly when no run was accepted |
| Search.FoldV1 | app.py:533-546 | the best after the repetitions is one of the runs; a catalogue the semester check cannot stack makes any repetition raise |
| Search.FoldV1Snoc | app.py:534-545 | one more repetition is one more `NextBestV1` step |
| Search.FoldV1Best | app.py:533-563 | without checking, there is a best after any repetition, and it is one of the runs |
| Search.RunAssignmentsV2 | app/app.py:773-887 | fails when the repetition's seed is out of range or the semester check cannot stack the catalogue; otherwise the best is updated by `NextBestV2` from the assignment the repetition produced |
| Search.RunAssignmentsV1 | app.py:608-719 | fails when the repetition's seed is out of range or the semester check cannot stack the catalogue; otherwise the best is updated by `NextBestV1` from the assignment the repetition produced |
| Search.ShowMessageV2 | app/app.py:614-652 | raises when there is a repetition and the semester check cannot stack the catalogue; otherwise one run per repetition, and the outcome is `FoldV2` of the runs, so by `FoldV2Best` there is no result exactly when no run was accepted |
| Search.ShowMessageV1 | app.py:525-563 | raises when there is a repetition and the semester check cannot stack the catalogue; otherwise one run per repetition, and the outcome is `FoldV1` of the runs, so by `FoldV1Best` there is always a result when the loop ran at least once |

## Left out

- Reading files (`pd.read_csv`, `pd.read_excel`), the Shiny user interface, `print`, `log`, progress bars, modals and downloads are I/O. The loaders start from a `Table` value, a data frame that has already been read.
- Spaces.ColumnSum: pandas puts 0 in place of NA cells before adding, so a column of text with a blank raises; the model follows that. The comparison of a text request with a capacity at `app/app.py:369-370`, which raises in Python, is not part of this model.
- Table cells are NA, text or integers. Floating-point cells, and pandas' dtype inference that turns an integer column with NA into floats, are not modelled.
- `Text.Lower` folds ASCII letters only. Python's `str.lower` also folds the rest of Unicode.
- StudentLoading.RankOf: a rank is kept as the cell it was read from. A text or fractional rank is not converted, and NumPy would compare it differently in `argsort`.
- StudentLoading.IdTexts: `str()` of a number cell is `Text.IntToString`, so a float id such as `7.0` prints differently in Python.
- Engine: the `int16` dtype of the credit matrices is not modelled. Credits are unbounded integers, so a total above 32767 does not wrap as it would in NumPy.
- Engine: the assigner's dict-keyed inputs (ranks, group preferences and caps keyed by id) are resolved to positions before the model starts. A missing key, which raises `KeyError` in `__init__`, is a precondition (`ValidConfig`) rather than an error result.
- Engine.ValidConfig: a requirement in a different group is ruled out by a precondition. The source raises `ValueError` from `.index` at `app/algorithm.py:339` in that case.
- Engine: `_unique_module_groups` and `_unique_semesters` come from `list(set(...))`, whose order Python does not fix. The model takes them as given sequences without repeats.
- `RandomState.permutation` and `np.argsort` are oracles. Any permutation, and any order sorted by the key, is allowed.
- `np.argsort` is also an oracle where a group's ranks hold infinities or ties.
- The module whose excess counter a bundle without space charges is the last element of a set iteration in Python. It is an oracle (`pick`) that returns some member of the bundle.
- Assigner.ModuleAssigner.RunAssignmentRound: the round reads each student's own row. The source reads the row of the first student with the same id; see Findings.
- The round's trace keeps the flags as booleans. The dict formatting of the trace is not modelled.
- The round's failure message is a short stand-in for Python's `UnboundLocalError` text.
- PriorLoad: the order in which the errors of `set_loaded_module_assignments` arise, and the rows already written before one arises, are not modelled. On failure the model leaves the assigner unchanged, where Python keeps the rows written so far.
- Assigner.ModuleAssigner.SetLoadedModuleAssignments: error texts are short stand-ins for pandas' messages.
- `get_module_dataframe` is not modelled. It formats the assigner's modules into a table and decides nothing.
- Reports.AllAssignedModules: the pandas concatenation with the name, id and preference columns is not modelled. Only the allocation columns are.
- Reports.ModuleStudents: only the student positions are modelled, not the data frames of names and ids built from them.
- Scoring: the scores read each student's own row. The source reads the first row with the same id, which is the same row when ids are distinct.
- Scoring: NumPy floats are modelled as exact reals with infinities and NaN. Rounding is not modelled.
- Engine.ValidConfig admits groups and semesters that no module has. The source derives both lists from the modules, so in the source every listed group and semester has a module.
- Search.KeepBestV2: pandas' `Series.mean` skips NaN. Proportions here are always defined because a zero capacity raises first, so `Mean` is used.
- Search: `app/app.py:839-842` unpacks two values from each minimum check, but `app/algorithm.py` returns one array. The model follows `app/algorithm.py`, so it does not model the unpacking error.
- Search.NextBestV2: of the three acceptance checks, only the semester check can raise; the group check and the total check are modelled as the values they compute.
- Search: the best assignment is carried as a snapshot of the assigner's fields, not as a reference to the assigner object. No code changes an assigner after its repetition.
- Search.RunRounds: `RandomState` rejects a seed in the constructor. The model checks the seed at the start of the run instead, which gives the same outcome.
- Search.RunRounds: a round that raises stops the run with a failure. The contract does not say which round raised.
- Search.RunRounds: a load that fails and a seed out of range are the only failures the contract characterises, and only in one direction.
- `show_message`'s branch for missing uploads (the modal listing the missing data) is user interface and is not modelled.

## Findings

| source | as written | input that shows it | evidently intended | confidence | as-written member | corrected member |
|---|---|---|---|---|---|---|
| app/data_loading.py:134-136 | the duplicate-id check runs outside the guard that the `student_id` column exists, so a group-preference table without that column raises `KeyError` | a table with only a `student_name` column and no rows | report "Column 'student_id' was not found", as the rankings validator does | not executed | Validation.ValidateModuleGroupPreferencesDataAsWritten, Validation.GroupPreferencesWithoutIdColumn | Validation.ValidateModuleGroupPreferencesData |
| app/algorithm.py:241-243 | the innermost `np.stack` receives an empty list for a group with no module in some semester, and raises | two groups A and B, A's modules all in semester 1 and B's all in semester 2 (`Reports.SplitSemesters`) | a group with no module in a semester adds 0 credits to it | not executed | Reports.MinimumPerSemesterAsWritten, Reports.SemesterCheckRaises | Reports.MinimumPerSemester, Reports.MinimumPerSemesterMeaning |
| app/algorithm.py:297-301 | the round reads a student's held modules through `get_assigned_modules(id)`, which finds the first student with that id | two students with id "7", both ranking a 10-credit semester-1 module Y first; the second already holds a 10-credit semester-1 module; the semester cap is 10 (`Reports.SharedId`) | each student's own row is read, so the semester cap holds after every commit | not executed | Reports.HeldRowAsWritten, Reports.SharedIdBreaksSemesterCap | Engine.TakeKeepsCaps, Rounds.RoundKeepsCaps |
