# KineViz core, modelled in Dafny

KineViz is a desktop application for kinesiology studies. A study has
subjects, a number of attempts per subject and independent variables (VIs),
each with a list of descriptors. Raw motion-capture exports are named
`<subject> <descriptor or Nulo per VI> <attempt>.txt`. They are validated
against the study, split into processed files per data type (kinematic,
kinetic) and later grouped by their descriptor combination for discrete
analyses. The application also keeps its settings in an INI file, and
keeps rolling backups of its data with an alias table beside them.

This project models the logic of that core, module by module, one module
per source file:

- `Validators`: the study-form validator, the file-name grammar and the
  per-subject VI rules.
- `FileService`: the study file listing with filters and pages, the
  subject and attempt bookkeeping, and the checks a batch of new files
  passes before processing.
- `StudyService`: reading back the stored VIs and aliases, the pin toggle
  with its cap, comment updates and the page offset. The studies table is
  a class `StudyStore`.
- `StudyDialog`: what the save button of the study dialog does.
- `AnalysisService`: group keys, study groups, the contributing keys of a
  partial selection, and the 1-VI and 2-VI group lists. It also covers the
  individual-analysis configuration check, the column names of a processed
  file and the statistics lines at its end.
- `DiscreteAnalysisView`: reading a summary table's file name back and
  mapping an aliased descriptor back. The class `TableBrowser` holds the
  table list's filter, page and sort state.
- `Processors` and `FileHandlers`: the row and header helpers, the kind of
  data of a section, the processed file's name and path, and the
  statistics lines written at the end of a processed file.
- `Settings`: the typed getters and setters over the `SETTINGS` section,
  the validation of a loaded file and the fall-back to defaults. The
  settings object is a class `AppSettings`.
- `BackupManager`: when a backup is refused or skipped, rolling retention,
  the alias table and the listing. The backups directory is a class
  `BackupStore`.

Three helper modules model the Python built-ins the core relies on:

- `Text`: `str.split`, `rsplit`, `strip`, `replace`, `upper`, `lower`,
  `int()`, `str()` and `readlines`.
- `Ordering`: `sorted` on strings and a stable `sorted(key=...)`.
- `Wrappers`: `Option`.

Directory scans, the database, the clock and the file contents are
parameters of the model. Loops in the source are methods proved against
specification functions. Objects whose state the source updates in place
are classes.

## Model

| member | source | states |
|---|---|---|
| Validators.CountError | kineviz/ui/utils/validators.py:24-42 | No error exactly when the count text is a positive integer. Otherwise the error is, in order, missing, not an integer or not positive. |
| Validators.EntryError | kineviz/ui/utils/validators.py:76-93 | No error exactly when the entry is text whose stripped form is non-empty, has no space, is not "nulo" in any case and was not seen before. Any error names one of those defects. |
| Validators.CheckDescriptors | kineviz/ui/utils/validators.py:69-93 | Accepts exactly a valid descriptor list; an error names the list's first defect. |
| Validators.ScanEntries | kineviz/ui/utils/validators.py:75-93 | The entry loop accepts exactly when every entry is a non-empty text that is new once cleaned; otherwise it reports the first bad entry. |
| Validators.CheckVariable | kineviz/ui/utils/validators.py:56-106 | Accepts exactly a valid VI whose name is new; an error names its first defect (name, descriptors, then flags). |
| Validators.DescriptorErrorOfVariable | kineviz/ui/utils/validators.py:56-93 | Once the name is fresh, a defect of the descriptor list is the VI's defect. |
| Validators.ValidateStudyIvData | kineviz/ui/utils/validators.py:9-109 | Accepts exactly a well-formed study. It reports the first defect in field order (name, subjects, attempts, VI list), and every VI before a reported VI error is valid. |
| Validators.FileNameIdentityProperties | kineviz/ui/utils/validators.py:113-213 | An accepted name has a letters-then-digits subject, a positive attempt and one slot per VI. Each slot is "Nulo" or a descriptor of its VI, and not all are "Nulo". A name with the wrong word count is refused. |
| Validators.ReadSlots | kineviz/ui/utils/validators.py:189-209 | The slot loop gives the slots the grammar defines, and tells whether any slot holds a value. |
| Validators.ParseFileName | kineviz/ui/utils/validators.py:113-213 | The parser returns the identity the naming convention defines. |
| Validators.BaseNameOfStem | kineviz/ui/utils/validators.py:137-143 | A stem without a data-type suffix is its own base name. |
| Validators.BaseNameRaw | kineviz/ui/utils/validators.py:137-143 | A raw name ending in a digit before its extension keeps its whole stem. |
| Validators.BaseNameProcessed | kineviz/ui/utils/validators.py:137-143 | The `_Cinematica`, `_Cinetica` or `_Electromiografica` suffix of a processed name is dropped. |
| Validators.ParseComposedName | kineviz/ui/utils/validators.py:113-213 | A name written from a writable identity reads back as that identity, raw or with any data-type suffix. |
| Validators.NameWordsRead | kineviz/ui/utils/validators.py:147-213 | The joined words of an identity end in a digit and read back as the identity. |
| Validators.MergeBatchKeys | kineviz/ui/utils/validators.py:242-258 | Adding a batch adds exactly the batch's subjects to the stored ones. |
| Validators.MergeBatchContents | kineviz/ui/utils/validators.py:242-258 | Each subject keeps its stored files, followed by the batch's files for it, in batch order. |
| Validators.RuleCheck | kineviz/ui/utils/validators.py:261-304 | An error reports the VI index, the VI name and the subject it was checked for. |
| Validators.RuleCheckMeaning | kineviz/ui/utils/validators.py:280-304 | The fixed-value rule fails exactly when a subject's files use two or more values of a VI that does not allow combination. The mandatory rule fails exactly when a defined descriptor of a mandatory combinable VI is unused. Each error lists those values sorted, each once. |
| Validators.CheckRule | kineviz/ui/utils/validators.py:261-304 | The checking code gives the error the rule defines. |
| Validators.CollectUsed | kineviz/ui/utils/validators.py:273-276 | Collects exactly the non-"Nulo" values the files give for the VI. |
| Validators.CheckSubjects | kineviz/ui/utils/validators.py:261-304 | Reports every subject that breaks the VI's rule, and only those, in increasing subject order. |
| Validators.ValidateFilesForViRules | kineviz/ui/utils/validators.py:221-308 | With the batch added, every broken (VI, subject) rule is reported once, ordered by VI and then by subject. Nothing else is reported, and a study without VIs gets no error. |
| Validators.MergeFiles | kineviz/ui/utils/validators.py:241-258 | Adding the batch file by file gives the merged files of every subject. |
| FileService.FilterFiles | kineviz/core/services/file_service.py:94-105 | Keeps exactly the scanned files that pass the search, type and frequency filters. |
| FileService.FilterFilesOff | kineviz/core/services/file_service.py:94-105 | With no search text and no filters, every file is kept in order. |
| FileService.PageOfWindow | kineviz/core/services/file_service.py:107-112 | A page is the window `[(p-1)*n, p*n)` of the filtered list, cut at its end. A page below 1 is the first page. |
| FileService.PageStart | kineviz/core/services/file_service.py:107-112 | A page starts at a non-negative offset for a non-negative page size, and at 0 for a page below 2. |
| FileService.GetStudyFiles | kineviz/core/services/file_service.py:48-114 | The total is the number of filtered files, and every file on the page passes the filters. |
| FileService.ValidParsedSound | kineviz/core/services/file_service.py:507-514 | Every read name is a listed name, and its identity is what the grammar reads in it. |
| FileService.ValidParsedComplete | kineviz/core/services/file_service.py:507-514 | Every listed name that follows the grammar is read. |
| FileService.AttemptsAfterMeaning | kineviz/core/services/file_service.py:366-373 | A subject's attempts afterwards are its old attempts together with those of its new files, as sets of distinct numbers. |
| FileService.StudyFileDetails | kineviz/core/services/file_service.py:487-538 | Gives each subject's attempt set, the number of subjects, and the size of the largest attempt set (0 when there is none). |
| FileService.ReadAttempts | kineviz/core/services/file_service.py:514-529 | The scan gives each subject the attempt numbers of its readable processed files. |
| FileService.MostAttempts | kineviz/core/services/file_service.py:532-535 | The result bounds every subject's attempt count and is reached by one of them, or is 0 without subjects. |
| FileService.StudyFilesDescriptors | kineviz/core/services/file_service.py:540-576 | Gives each subject's descriptor slots, one list per file that follows the grammar, in scan order. |
| FileService.NameErrorsMeaning | kineviz/core/services/file_service.py:349-361 | One `InvalidName` error for each batch name the grammar refuses, and no other error. |
| FileService.AttemptLimitErrors | kineviz/core/services/file_service.py:383-390 | Exactly one error per subject whose attempt count exceeds the limit, carrying that count. |
| FileService.ReadBatch | kineviz/core/services/file_service.py:342-371 | The read files, the name errors and the simulated attempts are those the specification functions define. |
| FileService.CountErrors | kineviz/core/services/file_service.py:374-393 | The name errors come first. The subject-limit error occurs exactly when the subject limit is exceeded, and the attempt errors are exactly the subjects over the limit. No error exactly when all three checks pass. |
| FileService.SubjectLimitErrors | kineviz/core/services/file_service.py:392-398 | One subject-limit error exactly when the simulated subjects exceed the limit. |
| FileService.ReportEmpty | kineviz/core/services/file_service.py:374-410 | The limit report is empty exactly when no name is refused and neither limit is exceeded. |
| FileService.CountStage | kineviz/core/services/file_service.py:337-398 | The same guarantees stated on the batch and the study's processed files: no error exactly when the names and both limits pass. |
| FileService.ViRuleStage | kineviz/core/services/file_service.py:401-427 | Reports a violation exactly when some VI rule is broken with the batch added. |
| FileService.AddFilesToStudy | kineviz/core/services/file_service.py:308-438 | Files are processed only when there is no error. The name errors come first. The limit errors are exactly the exceeded limits. The VI-rule error occurs exactly when the counts pass and the rules are broken. |
| StudyService.NormaliseViProperties | kineviz/core/services/study_service.py:91-115 | Normalising gives both flags and never a mandatory VI without combination. It keeps the name, the descriptors and a given combination flag, and is idempotent. |
| StudyService.NormaliseVis | kineviz/core/services/study_service.py:91-115 | Every entry is normalised in place of the stored one. |
| StudyService.ReadVariables | kineviz/core/services/study_service.py:91-115 | A stored list reads back entry by entry, normalised. Anything else reads as no VIs. |
| StudyService.ReadAliases | kineviz/core/services/study_service.py:117-128 | A stored dictionary reads back unchanged. Anything else reads as no aliases. |
| StudyService.PageOffsetConsecutive | kineviz/core/services/study_service.py:304-306 | Consecutive pages start one page size apart, so pages tile the rows. |
| StudyService.FolderRenameTarget | kineviz/core/services/study_service.py:373-386 | The folder is renamed exactly when the stripped new name is non-empty and differs from the old name, and it is renamed to that stripped name. |
| StudyService.StudyStore.constructor | kineviz/database/repositories.py:383-392 | The store holds the given study rows. |
| StudyService.StudyStore.PinnedCount | kineviz/database/repositories.py:383-392 | The pinned count never exceeds the number of studies. |
| StudyService.StudyStore.HasStudies | kineviz/core/services/study_service.py:286-293 | True exactly when some study exists. |
| StudyService.StudyStore.TogglePin | kineviz/core/services/study_service.py:440-470 | A missing study changes nothing. Pinning is refused, changing nothing, once 5 studies are pinned. Otherwise only that study's flag flips. The cap of 5 is preserved. |
| StudyService.StudyStore.UpdateComment | kineviz/core/services/study_service.py:188-212 | A comment over 150 characters is refused before the lookup. A missing study changes nothing. Otherwise only that study's comment changes. |
| StudyService.PinnedIdsAfterToggle | kineviz/core/services/study_service.py:451-462 | Pinning adds exactly that study to the pinned set, raising the count by one. Unpinning removes it. |
| StudyDialog.StrippedDescriptorsMeaning | kineviz/ui/dialogs/study_dialog.py:610-612 | The kept descriptors are exactly the non-empty stripped entries. |
| StudyDialog.CollectedMeaning | kineviz/ui/dialogs/study_dialog.py:604-630 | The VIs collected are exactly those of blocks with a name and a descriptor. Each is mandatory only when it allows combination. |
| StudyDialog.CollectCreate | kineviz/ui/dialogs/study_dialog.py:604-630 | The collecting loop gives the collected VIs. |
| StudyDialog.RebuildEdit | kineviz/ui/dialogs/study_dialog.py:578-599 | On success each VI is the edited name with the stored descriptors and flags. On failure the position is the first VI that cannot be rebuilt. |
| StudyDialog.FormOf | kineviz/ui/dialogs/study_dialog.py:630-634 | The validator sees the name, both counts and every VI with its descriptors and flags, in order. |
| StudyDialog.DigitsOrZero | kineviz/ui/dialogs/study_dialog.py:644-645 | A digit string gives its integer value; anything else gives 0. |
| StudyDialog.Save | kineviz/ui/dialogs/study_dialog.py:555-690 | On create, the form is saved exactly when the validator accepts it. On edit, saving is refused when the VI count changed or a VI cannot be rebuilt; a rejection by the validator means every VI was rebuilt and the rebuilt form is not well formed; a count below what the stored files use is reported only for a form the validator accepted. A rebuilt, accepted form whose counts cover the stored files is always saved. A saved edit is the stripped name and counts, each VI rebuilt by position, and the stored aliases. |
| StudyDialog.SaveCreate | kineviz/ui/dialogs/study_dialog.py:603-639 | On create, the collected form is saved exactly when the validator accepts it, with no aliases. |
| StudyDialog.SaveEdit | kineviz/ui/dialogs/study_dialog.py:564-686 | On edit, a changed VI count or an unrebuildable VI is refused with that reason. Invalid means all VIs were rebuilt and the validator rejects the rebuilt form. The count refusals happen only after the validator accepted the form, subjects before attempts. Every rebuilt, accepted form whose counts cover the stored files is saved. The saved data is the validated form itself (name, both counts, the rebuilt VIs) with the stored aliases. |
| AnalysisService.BuildGroupKey | kineviz/core/services/analysis_service.py:1960-1966 | The part-by-part loop gives the group key of the slots. |
| AnalysisService.GroupKeySplit | kineviz/core/services/analysis_service.py:1961-1966 | Splitting a key on `;` gives back its parts. |
| AnalysisService.GroupPartRead | kineviz/core/services/analysis_service.py:1961-1966 | A part splits at its first `=` into the VI name and its slot text. |
| AnalysisService.GroupKeyInjective | kineviz/core/services/analysis_service.py:1961-1966 | Files with different readable slots fall into different groups. |
| AnalysisService.IdentifyStudyGroups | kineviz/core/services/analysis_service.py:1911-1979 | The base-name map and the key set are those of the listed processed files that follow the grammar, read in order. |
| AnalysisService.GroupsByBaseKeys | kineviz/core/services/analysis_service.py:1969-1972 | The map has an entry for exactly the base names of keyed files. |
| AnalysisService.GroupsByBaseValues | kineviz/core/services/analysis_service.py:1969-1972 | Every entry of the map is one of the keys. |
| AnalysisService.FullSlotsKey | kineviz/core/services/analysis_service.py:1952-1975 | A study with VIs never gives a file the key `SinGrupo`. |
| AnalysisService.ParsedFileKey | kineviz/core/services/analysis_service.py:1952-1975 | A file that follows the grammar always has a key. The key is `SinGrupo` exactly when the study has no VIs. |
| AnalysisService.StudyGroupKeysMeaning | kineviz/core/services/analysis_service.py:1911-1979 | A key belongs to the study exactly when some listed processed file that follows the grammar has it. |
| AnalysisService.ContributingFullKeys | kineviz/core/services/analysis_service.py:1407-1432 | Empty for an empty requirement. Otherwise exactly the study's keys holding every required part, sorted, each once. |
| AnalysisService.GroupDisplaySome | kineviz/core/services/analysis_service.py:2001-2012 | A key can be shown exactly when it is `SinGrupo` or every part has a `=`. |
| AnalysisService.NumberedKeys | kineviz/core/services/analysis_service.py:2001-2012 | The numbered pairs carry the sorted keys one by one, in order. |
| AnalysisService.NumberedGroupsSome | kineviz/core/services/analysis_service.py:2001-2012 | Numbering fails exactly when some key cannot be shown. |
| AnalysisService.NumberedDisplays | kineviz/core/services/analysis_service.py:2003-2013 | Every numbered pair shows its key as "Grupo n - ..." where n - 1 is the key's place among the sorted keys. |
| AnalysisService.GroupsOfSorted | kineviz/core/services/analysis_service.py:2001-2016 | For keys in increasing order: the pairs are sorted, one per key, each showing its key under the number of the key's place; nothing when some key cannot be shown. |
| AnalysisService.DiscreteGroups | kineviz/core/services/analysis_service.py:1986-2020 | The groups are sorted, with one group per key. Each group's display is "Grupo n - VI: alias, ..." (or "Grupo General"), where n - 1 is the key's place in increasing key order. A key that cannot be shown gives no groups at all. |
| AnalysisService.FirstWithPrefix | kineviz/core/services/analysis_service.py:2054-2068 | Finds a part with the prefix, or says that none has it. |
| AnalysisService.FindPrefixed | kineviz/core/services/analysis_service.py:2054-2068 | The scan that stops at the first match gives the first part with the prefix. |
| AnalysisService.OneViGroups | kineviz/core/services/analysis_service.py:2048-2071 | The 1-VI loop gives the entries the specification function defines. |
| AnalysisService.OneViDistinct | kineviz/core/services/analysis_service.py:2048-2071 | No display appears twice among the 1-VI entries. |
| AnalysisService.OneViSource | kineviz/core/services/analysis_service.py:2048-2071 | Each entry is the primary part and display of some key, and no earlier key shows the same way. |
| AnalysisService.OneViShown | kineviz/core/services/analysis_service.py:2048-2071 | The display of every key with a primary part is offered. |
| AnalysisService.OtherParts | kineviz/core/services/analysis_service.py:2077-2094 | Keeps exactly the parts that differ from the fixed pair. |
| AnalysisService.TwoViDisplay | kineviz/core/services/analysis_service.py:2077-2094 | A displayed key holds the fixed pair and one other part. That part splits on `=` into two pieces, shown as `VI: alias`. |
| AnalysisService.TwoViGroups | kineviz/core/services/analysis_service.py:2074-2096 | The 2-VI loop gives the entries the specification function defines. |
| AnalysisService.TwoViEntriesMeaning | kineviz/core/services/analysis_service.py:2074-2096 | The entries are exactly the keys that have a 2-VI display, each with that display. |
| AnalysisService.SortByDisplay | kineviz/core/services/analysis_service.py:2101 | The result is a permutation of the entries, sorted by display. |
| Ordering.SortByStable | kineviz/core/services/analysis_service.py:2101 | Sorting by a key is stable: the elements whose keys compare equal come out in their input order. |
| Ordering.SortByDistinct | kineviz/core/backup_manager.py:563 | Sorting a list without repeats gives a list without repeats. |
| AnalysisService.FilteredDiscreteGroups | kineviz/core/services/analysis_service.py:2023-2101 | Gives the 1-VI entries in 1-VI mode with a primary VI, the 2-VI entries in 2-VI mode with a fixed VI and value, and nothing otherwise. The result is always sorted stably by display. |
| AnalysisService.CheckIndividualConfig | kineviz/core/services/analysis_service.py:2215-2228 | Accepts exactly a configuration with the required keys, two or more groups and a non-empty name free of forbidden characters. The first failing check decides the error. |
| AnalysisService.CleanColumnName | kineviz/core/services/analysis_service.py:257-271 | A cleaned column name is never empty. |
| AnalysisService.NumberColumn | kineviz/core/services/analysis_service.py:274-281 | One step names column `i` as its repeat name, and leaves the counts as the loop defines them after that column. |
| AnalysisService.CountsOfMatch | kineviz/core/services/analysis_service.py:275-280 | The counts map holds exactly the names seen, each with one less than its number of occurrences. |
| AnalysisService.RepeatStep | kineviz/core/services/analysis_service.py:274-281 | A name seen before gets its raised count as a suffix, and a new one is kept as it is. |
| AnalysisService.NumberColumns | kineviz/core/services/analysis_service.py:254-281 | The header loop names each column by its cleaned name and its repeat number. |
| AnalysisService.FitColumns | kineviz/core/services/analysis_service.py:286-291 | Exactly `width` names: the given ones, then `Data_Col_i` for each missing column. |
| AnalysisService.ColumnNames | kineviz/core/services/analysis_service.py:241-291 | One non-empty name per data column. |
| AnalysisService.SanitiseColumns | kineviz/core/services/analysis_service.py:241-291 | The names handed to the CSV reader are the specified column names. |
| AnalysisService.LastStartingWith | kineviz/core/services/analysis_service.py:1590-1609 | Finds the last line with the prefix, or says that none has it. |
| AnalysisService.ExtractStats | kineviz/core/services/analysis_service.py:1590-1609 | Files under three lines give nothing. Otherwise the values come from the last of the final three lines that carries the calculation's prefix, if any does. |
| DiscreteAnalysisView.SubValueOf | kineviz/ui/views/discrete_analysis_view.py:431-488 | The first study VI that prefixes the part gives `VI=rest`. There is no match exactly when no VI prefixes it. |
| DiscreteAnalysisView.MatchVi | kineviz/ui/views/discrete_analysis_view.py:431-488 | The inner loop gives the sub-value the specification function defines. |
| DiscreteAnalysisView.DecodeAll | kineviz/ui/views/discrete_analysis_view.py:431-488 | The loop over the encoded parts decodes each one in order. |
| DiscreteAnalysisView.ParseTableFileName | kineviz/ui/views/discrete_analysis_view.py:431-488 | The parser returns the table fields the specification function defines. |
| DiscreteAnalysisView.TableNameRoundTrip | kineviz/ui/views/discrete_analysis_view.py:431-488 | The calculation, the data type and the group key's `VI=value` parts come back from the table file name the analysis service writes (analysis_service.py lines 1733 and 1794). |
| DiscreteAnalysisView.PlainKeyTableName | kineviz/ui/views/discrete_analysis_view.py:431-488 | A key without `_`, `=` or `;` reads back as the single sub-value. |
| DiscreteAnalysisView.NoGroupTableName | kineviz/ui/views/discrete_analysis_view.py:431-488 | A table of a study without groups reads back with `SinGrupo`. |
| DiscreteAnalysisView.ShortTableName | kineviz/ui/views/discrete_analysis_view.py:431-488 | A name with no `_` before its extension reads as unknown. |
| DiscreteAnalysisView.OriginalValue | kineviz/ui/views/discrete_analysis_view.py:820-826 | The result is the text itself, or a descriptor `D` such that the text is `D (alias of D)`. Empty text stays empty. |
| DiscreteAnalysisView.OriginalOfDisplay | kineviz/ui/views/discrete_analysis_view.py:787-790 | A descriptor shown with its alias maps back to the descriptor. |
| DiscreteAnalysisView.OriginalOfPlain | kineviz/ui/views/discrete_analysis_view.py:820-826 | A descriptor shown without an alias maps back to itself. |
| DiscreteAnalysisView.FilterTarget | kineviz/ui/views/discrete_analysis_view.py:641-642 | A VI filter is active exactly when both the VI and the descriptor are chosen. |
| DiscreteAnalysisView.FilteredTablesMeaning | kineviz/ui/views/discrete_analysis_view.py:644-676 | The filtered list holds exactly the listed tables that pass all three filters. |
| DiscreteAnalysisView.PageCount | kineviz/ui/views/discrete_analysis_view.py:680-681 | At least one page. The pages just cover the tables when the page size is positive. |
| DiscreteAnalysisView.TableLePreorder | kineviz/ui/views/discrete_analysis_view.py:725-729 | The column order is a total preorder, so sorting by it is defined. |
| DiscreteAnalysisView.SortTables | kineviz/ui/views/discrete_analysis_view.py:725-729 | The result is a permutation of the tables, sorted by the column. |
| DiscreteAnalysisView.TableBrowser.constructor | kineviz/ui/views/discrete_analysis_view.py:23-39 | A new browser holds the tables, nothing filtered, and page 1 of 1. |
| DiscreteAnalysisView.TableBrowser.ApplyFilters | kineviz/ui/views/discrete_analysis_view.py:625-684 | The filtered list is exactly the tables passing the search, calculation and VI filters. The count and the page count follow it, and the view returns to page 1. |
| DiscreteAnalysisView.FilterTables | kineviz/ui/views/discrete_analysis_view.py:644-676 | The loop keeps exactly the tables that pass the filter, in order. |
| DiscreteAnalysisView.TableBrowser.GoToPage | kineviz/ui/views/discrete_analysis_view.py:615-621 | A page within range is shown. A page out of range changes nothing. |
| DiscreteAnalysisView.TableBrowser.SortColumn | kineviz/ui/views/discrete_analysis_view.py:716-733 | An empty key changes nothing. Otherwise the filtered tables are sorted on the column and page 1 is shown. |
| Processors.InsertIndex | kineviz/core/data_processing/processors.py:41-47 | The insertion index stays within the row and equals the position when the position is inside it. |
| Processors.InsertAt | kineviz/core/data_processing/processors.py:41-47 | One insert adds exactly that column to the row. |
| Processors.InsertColumns | kineviz/core/data_processing/processors.py:41-47 | The row gains exactly the new columns. At a position inside the row they sit there in reverse order, with the row around them unchanged. |
| Processors.InsertedStep | kineviz/core/data_processing/processors.py:41-47 | Each further insert goes in front of the columns inserted before it. |
| Processors.AdjustItem | kineviz/core/data_processing/processors.py:49-60 | A blank item becomes empty, and any other item is kept. |
| Processors.AdjustRow | kineviz/core/data_processing/processors.py:49-60 | The line is the adjusted items joined by `;`. |
| Processors.AdjustRowFields | kineviz/core/data_processing/processors.py:49-60 | Splitting the line on `;` gives one field per item: the item, or empty for a blank item. |
| Processors.StatsLineRead | kineviz/core/data_processing/processors.py:33-39 | A statistics line read after its prefix gives back the values written. |
| Processors.StatsLinePrefix | kineviz/core/data_processing/processors.py:33-39 | A statistics line carries the prefix of a heading exactly when it was written under that heading. |
| Processors.ExportedLines | kineviz/core/data_processing/processors.py:33-39 | The exported text is read as the earlier lines, then the maximum, minimum and range lines. |
| Processors.ExtractFromStatsLines | kineviz/core/services/analysis_service.py:1590-1609 | Lines ending with the three statistics lines give back the values of the calculation asked for. |
| Processors.ExportExtractRoundTrip | kineviz/core/data_processing/processors.py:33-39 | The analysis service reads back, from the file the processors wrote, the values of the calculation asked for. |
| FileHandlers.FrequencyByContent | kineviz/core/data_processing/file_handlers.py:15-26 | "Model Outputs" means kinematic and takes precedence. Otherwise "Force Plate" means kinetic, and anything else is unknown. Each outcome is stated in both directions. |
| FileHandlers.ProcessedPath | kineviz/core/data_processing/file_handlers.py:53-54 | The processed file sits in a data-type folder beside the raw file. |
| FileHandlers.ProcessedNameOfPlain | kineviz/core/data_processing/file_handlers.py:53-54 | `<stem>.txt` and `<stem>.csv` become `<stem>_<kind>.<ext>`. |
| FileHandlers.ProcessedNameIdentity | kineviz/core/data_processing/file_handlers.py:53-54 | A processed file names the same subject, descriptors and attempt as its raw file. |
| FileHandlers.AdjustListLength | kineviz/core/data_processing/file_handlers.py:71-77 | Exactly `target` items: the given ones, then the default. |
| FileHandlers.TimedColumns | kineviz/core/data_processing/file_handlers.py:41-82 | The header gains `Tiempo` at index 2, or at the end when there are fewer columns, and loses nothing. |
| FileHandlers.PrepareHeaders | kineviz/core/data_processing/file_handlers.py:41-82 | All three header lines get the time column and the width of the column line plus one. |
| FileHandlers.PatientName | kineviz/core/data_processing/file_handlers.py:127-130 | The text before the first space. |
| FileHandlers.PatientOfComposedName | kineviz/core/data_processing/file_handlers.py:127-130 | The patient of a file named after an identity is its subject. |
| Settings.Lookup | kineviz/config/settings.py:312-317 | Some text exactly when the section and the key exist, and then the stored text. |
| Text.GroupedDigitsRead | kineviz/config/settings.py:325 | `int()` reads digits with one `_` between two groups as the digits without it. |
| Text.DoubledUnderscoreRefused | kineviz/config/settings.py:325 | `int()` refuses two underscores in a row. |
| Text.EdgeUnderscoreRefused | kineviz/config/settings.py:325 | `int()` refuses an underscore before the first or after the last digit. |
| Text.ParseIntToString | kineviz/config/settings.py:325 | `int(str(i)) == i` for every integer. |
| Settings.IntSetting | kineviz/config/settings.py:319-328 | The stored integer, or the fallback when the key is missing or not an integer. |
| Settings.ParseBool | kineviz/config/settings.py:330-340 | True and false words in any case, each stated in both directions. Any other text is not a boolean. |
| Settings.BoolSetting | kineviz/config/settings.py:330-340 | The stored boolean word, or the fallback. |
| Settings.WithSetting | kineviz/config/settings.py:342-347 | The key takes the text, and every other key and section is unchanged. |
| Settings.IntSettingWritten | kineviz/config/settings.py:319-347 | A written integer reads back as itself. |
| Settings.BoolSettingWritten | kineviz/config/settings.py:330-347 | A written boolean reads back as itself. |
| Settings.ParseBoolText | kineviz/config/settings.py:330-340 | `str(b)` parses as `b`. |
| Settings.BoundedIntSetting | kineviz/config/settings.py:445-452 | Never below the bound. It is the stored value when that is in range, and the default otherwise. |
| Settings.BoundedText | kineviz/config/settings.py:454-460 | Writes the value raised to the bound. |
| Settings.BoundedRoundTrip | kineviz/config/settings.py:445-460 | A bounded setter's value, raised to the bound, is what the getter reads back. |
| Settings.AutomaticBackupCooldown | kineviz/config/settings.py:445-452 | Never negative. |
| Settings.MaxPreRestoreBackups | kineviz/config/settings.py:512-519 | At least 1. |
| Settings.PreRestoreCooldown | kineviz/config/settings.py:529-536 | Never negative. |
| Settings.UndoCacheTimeout | kineviz/config/settings.py:555-562 | Never negative. |
| Settings.LogLevel | kineviz/config/settings.py:572-579 | Always one of the four levels: the stored level upper-cased, or WARNING. |
| Settings.LogLevelRoundTrip | kineviz/config/settings.py:581-588 | A valid level written upper-cased reads back. |
| Settings.ValidConfigKeys | kineviz/config/settings.py:119-133 | A file passes only with exactly the default keys. |
| Settings.ValidConfigGetters | kineviz/config/settings.py:135-248 | In a file that passed, the bounded getters and the log level read the stored values, never the fallbacks. |
| Settings.DefaultsValid | kineviz/config/settings.py:64-90 | The defaults pass the loading check. |
| Settings.AppSettings.Load | kineviz/config/settings.py:267-298 | A file that parses and passes the check is kept. Anything else is replaced by the defaults. |
| Settings.AppSettings.ResetToDefaults | kineviz/config/settings.py:591-600 | The configuration becomes the defaults. |
| Settings.AppSettings.SetSetting | kineviz/config/settings.py:342-347 | Only that key changes, to the text. |
| Settings.AppSettings.SetAutomaticBackupCooldown | kineviz/config/settings.py:454-460 | A negative value is stored as 0, and the getter then reads the stored value. |
| Settings.AppSettings.SetMaxPreRestoreBackups | kineviz/config/settings.py:521-527 | A value below 1 is stored as 1, and the getter then reads the stored value. |
| Settings.AppSettings.SetPreRestoreCooldown | kineviz/config/settings.py:538-544 | A negative value is stored as 0, and the getter then reads the stored value. |
| Settings.AppSettings.SetUndoCacheTimeout | kineviz/config/settings.py:564-570 | A negative value is stored as 0, and the getter then reads the stored value. |
| Settings.AppSettings.SetLogLevel | kineviz/config/settings.py:581-588 | A valid level is stored upper-cased and read back. Anything else changes nothing. |
| BackupManager.ParseFormat | kineviz/core/backup_manager.py:255 | Parsing a formatted moment gives the moment back. |
| BackupManager.FormatParse | kineviz/core/backup_manager.py:543-544 | A text that parses is the formatted form of its moment. |
| BackupManager.FormatOrder | kineviz/core/backup_manager.py:543-544 | Formatted moments compare as the moments do. |
| BackupManager.StampOfBackupName | kineviz/core/backup_manager.py:254-256 | A backup's name records the moment it was made. |
| BackupManager.BackupNameOfStamp | kineviz/core/backup_manager.py:536-544 | A name that records a moment is that moment's name. |
| BackupManager.NameOrderIsTimeOrder | kineviz/core/backup_manager.py:254-256 | Backup names compare as their moments. |
| BackupManager.DeleteCount | kineviz/core/backup_manager.py:126-136 | Retention never deletes more backups than exist. |
| BackupManager.RetainedInOrder | kineviz/core/backup_manager.py:117-136 | The kept backups are the last ones in name order. |
| BackupManager.RetentionCount | kineviz/core/backup_manager.py:183-199 | `max - 1` are kept when there were at least `max > 0`, none when `max` is 0, and all otherwise. Other files are untouched. |
| BackupManager.RetentionKeepsLast | kineviz/core/backup_manager.py:117-136 | Every deleted backup sorts before every kept one. |
| BackupManager.RetentionKeepsNewest | kineviz/core/backup_manager.py:117-136 | Every deleted backup was made before every kept one. |
| BackupManager.RollingBound | kineviz/core/backup_manager.py:117-136 | After retention and one new backup, at most `max` remain. |
| BackupManager.WithoutAliases | kineviz/core/backup_manager.py:463-473 | Exactly the keys of the removed names go. The rest keep their aliases, and a table that could not be loaded stays as it was. |
| BackupManager.AliasKeyInjective | kineviz/core/backup_manager.py:455-465 | Different backups have different alias keys. |
| BackupManager.AliasSetThenRemoved | kineviz/core/backup_manager.py:445-473 | A set alias is listed, and removing it restores the loaded table without that key. |
| BackupManager.EntriesOfMembers | kineviz/core/backup_manager.py:533-560 | A backup is listed exactly when its file is there and the entry describes it. |
| BackupManager.EntriesOfDistinct | kineviz/core/backup_manager.py:533-560 | Distinct file names of one kind give distinct entries. |
| BackupManager.UnsupportedRefused | kineviz/core/backup_manager.py:80-82 | A kind outside the three supported kinds is always refused. |
| BackupManager.ManualAdmission | kineviz/core/backup_manager.py:209-236 | A manual backup goes ahead exactly when manual backups are enabled and the limit is negative or above the existing count. |
| BackupManager.GuardedKindsSkipped | kineviz/core/backup_manager.py:104-113 | An automatic or pre-restore backup outside test mode is skipped while the lock is held or during the cooldown (pre-restore check at lines 171-179). |
| BackupManager.ManualBound | kineviz/core/backup_manager.py:224-231 | A manual backup never takes the count above a positive limit. |
| BackupManager.BackupStore.constructor | kineviz/core/backup_manager.py:16-17 | The store holds the directory and alias table as found, with no backup ended yet. |
| BackupManager.BackupStore.AddBackupAlias | kineviz/core/backup_manager.py:445-461 | Accepted exactly for a backup name and a non-blank alias, which is stored stripped under `<kind>/<file>`. Otherwise nothing changes. |
| BackupManager.BackupStore.RemoveBackupAlias | kineviz/core/backup_manager.py:463-473 | True exactly when the key exists, and then only that key goes. Otherwise nothing changes. |
| BackupManager.BackupStore.Rotate | kineviz/core/backup_manager.py:117-136 | The kind's folder becomes the retained set. The deleted backups' aliases go when requested (pre-restore rotation at lines 183-199). |
| BackupManager.BackupStore.ApplyRetention | kineviz/core/backup_manager.py:117-136 | With a limit, the kind's folder becomes the retained set. Pre-restore aliases of deleted backups go (lines 183-199). Nothing else changes. |
| BackupManager.BackupStore.AdmittedBackup | kineviz/core/backup_manager.py:117-398 | An admitted backup rotates, then adds the new file when written. The end time is recorded for guarded kinds outside test mode. |
| BackupManager.BackupStore.DeleteBackup | kineviz/core/backup_manager.py:126-136 | Only that file goes, with its alias when requested. |
| BackupManager.BackupStore.CreateBackup | kineviz/core/backup_manager.py:56-398 | A refused or skipped backup changes nothing. An admitted one rotates with the kind's limit and adds the new backup when written. It records the end time for guarded kinds, and deletes pre-restore aliases with their backups. |
| BackupManager.BackupStore.DeleteManualBackup | kineviz/core/backup_manager.py:475-489 | False exactly when the file is missing, changing nothing. Otherwise the file and its alias go. |
| BackupManager.BackupStore.ListBackups | kineviz/core/backup_manager.py:521-564 | Every supported kind's backups whose name records a moment are listed with their alias, newest first, each exactly once, and nothing else. |
| BackupManager.ListKind | kineviz/core/backup_manager.py:533-560 | One kind's listing is its backups whose name records a moment, each with its alias. |

## Left out

- Directory scans, file reading and writing, zip archives, SQLite and the
  clock are not modelled. Their results (scanned records, file names, file
  lines, the stored rows, the current time) are parameters. Times are whole
  seconds.
- Writing the processed files after a batch is accepted
  (`_process_and_copy_file`) is not modelled, nor the measurement rows
  that `leer_seccion` reads. Only the header preparation is.
- Deleting studies, files and analyses, the undo cache, the statistical
  analyses themselves (pandas, scipy), reports and plots are not part of
  this model.
- `restore_backup` and `cleanup_bak_files` are not modelled.
- The lock file of a guarded backup is an input (`locked`). When there is
  nothing to back up, `create_backup` returns early (backup_manager.py
  lines 279-281) after creating the lock file and before the block that
  removes it, so the lock stays behind. The model cannot show this.
- A failure of `_ensure_dir_exists`, of an alias-table save and the
  catch-all `except` branches are not modelled.
- An alias table whose JSON is not a dictionary reads as unreadable.
- The listing's `path` field is not modelled.
- Directory order is replaced by sorted order where the source sorts.
  Elsewhere, directory order is the order of the input list.
- `strptime` also accepts one-digit fields. The model parses only the
  two-digit form the application writes; other names are skipped as
  unparsable.
- Case folding is ASCII only.
- Whitespace is ASCII only: `Text.IsSpace` recognises the characters with
  codes 9 to 13 and 28 to 32, as Python does below 128. Python's `split()`,
  `strip()` and `isspace()` also treat other Unicode whitespace (such as
  U+00A0, U+0085, U+2000 to U+200A and U+3000) as whitespace. Likewise
  `int()` and `isdigit()` are modelled as accepting ASCII digits only
  (`int()` with its single `_` between digits).
- FileService.AttemptLimitErrors: the messages come out in some order, one
  per subject over the limit, without modelling the dictionary insertion
  order in which the source emits them, because the simulated attempts are
  modelled as a map, which has no order.
- Floating-point values (`font_scale`, modification times of files, the
  time column values) are not modelled. `font_scale` enters the settings
  check as a boolean input.
- configparser lower-cases keys and has a `DEFAULT` section. The model
  treats the file as a map of sections to maps.
- settings.py declares a first `AppSettings` class at lines 27-60 that the
  second declaration shadows; only the second one is modelled.
- The `sub_values_display` text of a listed table is an input, not computed.
- Stored VI entries that are not dictionaries pass through unchanged.
  Python's dictionary iteration order is the order of the input list.
- StudyService.StudyStore.PinnedCount: the SQL `COUNT(*)` is modelled as
  the size of the pinned set.
- FileHandlers.AdjustListLength: a negative target length is not
  modelled, because the caller always passes a width of at least one.
- AnalysisService.TwoViDisplay: the contract states that the key is the
  fixed pair plus one other part as a set. The source also requires that
  other part to occur only once in the list; the function's body follows
  the source.
