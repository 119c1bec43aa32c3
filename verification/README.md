# Kotobank dictation core, in Dafny

Kotobank (the `riyu` project) is a Japanese word-dictation app. It imports
word lists from Excel workbooks. Each worksheet is stored as its own SQLite
database under a `WordTables` folder, and a JSON index of the sheets is kept
next to them. The app then drills the user one word at a time: it shows
the Chinese meaning, and the user types the Japanese.

This project models the core of that app as pure Dafny functions over
immutable data and proves properties of them:

- **Sheet store** (`DatabaseService`):
  - `FileNames`: how a sheet name becomes a folder name.
  - `SheetStore`: the `WordTables` folder, plus saving, existence checks,
    reading a sheet and the full rescan that rebuilds the index.
  - `IndexCache`: the in-memory listing cache, the index timestamp check,
    the index validation and the delete-all end state.
- **Sheet order** (`SheetOrder`): `SheetNameComparer`. It compares the first
  digit run when both names have one, and otherwise compares ordinally
  ignoring case. The `OrderBy` of the rescan is modelled as a stable
  insertion sort under that comparer.
- **Workbook reading** (`Excel`): the row filter of `ExcelService`.
- **Dictation** (`Dictation`): the state machine of `MainViewModel`. It
  covers next/previous, play/pause, confirm, restart, the page label and
  loading a stored sheet.
- **Import** (`Import`): the file-type check and the import loop with its
  overridden/created tally. A failed save is the error path: it stops the
  loop and leaves the screen unchanged.
- **Converters** (`Converters`): `AndBooleanConverter`,
  `EmptyStateVisibilityConverter` and `IsEmptyConverter`.
- **Service locator** (`ServiceLocator`): the type-keyed registry.

Runtime facts the code takes from .NET are parameters of the model, in one
`Platform.Host` record:

- the invalid file-name characters;
- the white-space set of `string.Trim`;
- the `\d` class of the regular expression;
- the invariant upper- and lower-case maps;
- the directory separators.

Lemmas that need concrete behaviour assume ASCII conventions
(`AsciiConventions`) or use the sample host `SampleHost`.

File-system and database state is a `Store` value. A save returns a new
store, or `None` where the source would throw: a `words.db` that cannot be
opened is the `Unreadable` database. File timestamps are a counter.

Three facts about `SheetNameComparer` shape what the model promises about
the sorted listing:

- **Sort example.** For `sheet10`, `sheet2` and `apple` the comparer orders
  `apple` first. `apple` has no number, so it is compared by text, and
  `a` comes before `s`. The sorted listing is therefore `apple, sheet2,
  sheet10` (`SheetOrder.SortExample`), not the numbered sheets first.
- **Equal numbers.** Two names with equal numbers (`a1` and `b1`) compare as
  equal. There is no tie-break by text (`SheetOrder.CompareByNumbers`).
- **Not a total order.** The comparer is not transitive: `c1 < a2 < b < c1`
  (`SheetOrder.CompareNotTransitive`). So the model promises only what a
  stable sort under it gives: a permutation whose neighbours are in order.

## Model

| member | source | states |
|---|---|---|
| Platform.TrimSlice | riyu/Services/ExcelService.cs:71-73 | `Trim` keeps one contiguous slice of the cell and cuts away only white space before and after it |
| Platform.TrimEnds | riyu/Services/ExcelService.cs:71-73 | a trimmed cell is empty or neither starts nor ends with white space |
| Platform.TrimEmptyIff | riyu/Services/ExcelService.cs:71-77 | a cell trims to "" exactly when it is all white space |
| Platform.TrimShape | riyu/Services/ExcelService.cs:71-73 | `Trim` removes exactly the leading and trailing white-space runs: the result is a middle slice of the input, everything cut away is white space, the result neither starts nor ends with white space, and it is empty exactly when the input is all white space |
| Platform.TrimIdempotent | riyu/Services/ExcelService.cs:71-73 | trimming an already trimmed cell changes nothing |
| Platform.TrimIgnoresPadding | riyu/ViewModels/MainViewModel.cs:265-269 | white space added before and after a string does not change its trimmed form |
| Platform.Trim | riyu/Services/ExcelService.cs:71-73 | `string.Trim` never lengthens a cell and leaves a cell with no white space as it is (its full shape is `Platform.TrimShape`) |
| Platform.EqualsIgnoreCase | riyu/ViewModels/MainViewModel.cs:265-269 | two strings are equal ignoring case exactly when they have the same length and agree character by character after upper-casing |
| Platform.CompareIgnoreCase | riyu/Services/DatabaseService.cs:530 | the case-insensitive ordinal comparison, as a sign, is 0 exactly when the two strings are equal ignoring case |
| Platform.Combine | riyu/Services/DatabaseService.cs:47-55 | `Path.Combine` of a folder and a non-empty name is the folder, one separator and the name; an empty name gives the folder |
| Platform.CompareOrdinalAntisymmetric | riyu/Services/DatabaseService.cs:530 | swapping the two strings negates the ordinal comparison |
| Platform.GetExtension | riyu/ViewModels/MainViewModel.cs:496 | `Path.GetExtension` is empty or a suffix of the name that starts with a dot, has at least one more character, and contains no other dot or directory separator |
| Platform.ExtensionBefore | riyu/ViewModels/MainViewModel.cs:496 | the backward search for the extension finds nothing or a suffix of the name that starts with a dot, has a character after it, and begins before the search position |
| Platform.ExtensionBeforeClean | riyu/ViewModels/MainViewModel.cs:496 | when the search starts after the last dot or separator, the extension it finds has no further dot or separator |
| Platform.GetExtensionOfSuffix | riyu/ViewModels/MainViewModel.cs:496 | the extension of `stem.tail` is `.tail` whenever the tail is non-empty and has no dot or separator, however many dots the stem has |
| FileNames.SanitizeFileName | riyu/Services/DatabaseService.cs:105-118 | the folder name is at most 50 characters and is a prefix of the name's valid pieces joined with `_` |
| FileNames.SplitAllPieces | riyu/Services/DatabaseService.cs:109 | none of the pieces that `Split` cuts at the invalid characters contains an invalid character |
| FileNames.SplitAll | riyu/Services/DatabaseService.cs:109 | `Split` without options always yields at least one piece, even for an empty name |
| FileNames.SanitizeValidChars | riyu/Services/DatabaseService.cs:108-109 | a sanitized name contains no invalid file-name character |
| FileNames.SanitizeAllInvalid | riyu/Services/DatabaseService.cs:109 | a name made only of invalid characters sanitizes to the empty string |
| FileNames.SanitizeClean | riyu/Services/DatabaseService.cs:109-115 | a name with no invalid character is kept, cut to 50 characters |
| FileNames.SanitizeIdempotent | riyu/Services/DatabaseService.cs:105-118 | sanitizing a folder name again gives the same folder name |
| FileNames.SanitizeAt | riyu/Services/DatabaseService.cs:109-115 | an invalid character splits the name: the result is the two sides' pieces glued with `_` (or one side alone when the other is empty), then truncated |
| FileNames.SanitizeDropsLeading | riyu/Services/DatabaseService.cs:109 | a leading invalid character is dropped with no `_` for it |
| FileNames.SanitizeDropsTrailing | riyu/Services/DatabaseService.cs:109 | a trailing invalid character is dropped with no `_` for it |
| FileNames.SanitizeCollapsesRun | riyu/Services/DatabaseService.cs:109 | two invalid characters in a row give one `_`, like one invalid character |
| FileNames.SanitizeCollision | riyu/Services/DatabaseService.cs:109 | names that differ only in which invalid character they hold map to the same folder |
| FileNames.DisplayName | riyu/Services/DatabaseService.cs:203-204 | the display name has the folder name's length, no `_`, and every other character unchanged |
| FileNames.DisplayNameLookup | riyu/Services/DatabaseService.cs:484-486 | looking a scanned sheet up by its display name reaches its folder again exactly when the folder name has no `_` |
| FileNames.DisplayNameLookupMisses | riyu/Services/DatabaseService.cs:203-204 | folder `a_b` is listed as `a b`, and `a b` sanitizes to `a b`, not `a_b`: the lookup misses |
| SheetOrder.ExtractNumber | riyu/Services/DatabaseService.cs:533-542 | a name with no `\d` character has no number; a number found lies in 0..Int32.MaxValue |
| SheetOrder.FirstDigitRun | riyu/Services/DatabaseService.cs:536 | the regular expression `\d+` fails exactly on a name with no `\d` character; a match is a non-empty run of `\d` characters |
| SheetOrder.FirstDigitRunOf | riyu/Services/DatabaseService.cs:536 | the match of `\d+` is the first maximal run: for a digit-free prefix, a run, and a rest not starting with a digit, the match is that run |
| SheetOrder.FirstDigitRunSplit | riyu/Services/DatabaseService.cs:536 | conversely, every match splits the name into a digit-free prefix, the run, and a rest that does not start with a digit |
| SheetOrder.ExtractNumberOf | riyu/Services/DatabaseService.cs:533-542 | the number of a name is the `int.TryParse` of its first maximal `\d` run, wherever in the name that run stands |
| SheetOrder.ExampleChineseName | riyu/Services/DatabaseService.cs:535 | `工作表2` carries the number 2 |
| SheetOrder.ExampleRunInside | riyu/Services/DatabaseService.cs:536-540 | `sheet10abc` carries the number 10: text after the run plays no part |
| SheetOrder.TryParseInt32 | riyu/Services/DatabaseService.cs:537 | parsing succeeds exactly for a non-empty run of ASCII digits whose value fits in an Int32, and gives that value |
| SheetOrder.NumberOfSuffix | riyu/Services/DatabaseService.cs:536-540 | for an ASCII prefix without digits followed by a digit run, the number is the run's decimal value |
| SheetOrder.NoNumber | riyu/Services/DatabaseService.cs:536-541 | an ASCII name without digits has no number |
| SheetOrder.LeadingZeroIgnored | riyu/Services/DatabaseService.cs:537 | a leading `0` does not change a digit run's value, so `sheet01` and `sheet1` carry the same number |
| SheetOrder.Compare | riyu/Services/DatabaseService.cs:514-531 | the sign of the comparer's result, as -1, 0 or 1; null sorts before every name and equals null |
| SheetOrder.CompareNames | riyu/Services/DatabaseService.cs:520-530 | for two names, the sign of the comparer's result is -1, 0 or 1 |
| SheetOrder.CompareReflexive | riyu/Services/DatabaseService.cs:514-531 | every name compares equal to itself |
| SheetOrder.CompareAntisymmetric | riyu/Services/DatabaseService.cs:514-531 | swapping the two names negates the result |
| SheetOrder.CompareByNumbers | riyu/Services/DatabaseService.cs:524-527 | when both names carry a number, the order is exactly the order of the numbers, and equal numbers compare equal |
| SheetOrder.CompareFallsBack | riyu/Services/DatabaseService.cs:529-530 | when either name has no number, the order is the ordinal order of the upper-cased names, and 0 means equal ignoring case |
| SheetOrder.CompareNotTransitive | riyu/Services/DatabaseService.cs:521-530 | `c1 < a2`, `a2 < b` and `b < c1`: the comparer is not a total order |
| SheetOrder.SheetTenNumber | riyu/Services/DatabaseService.cs:533-542 | the number of `sheet10` is 10 |
| SheetOrder.SheetTwoNumber | riyu/Services/DatabaseService.cs:533-542 | the number of `sheet2` is 2 |
| SheetOrder.ExampleNumbered | riyu/Services/DatabaseService.cs:524-527 | `sheet10` sorts after `sheet2` |
| SheetOrder.ExampleAgainstApple | riyu/Services/DatabaseService.cs:529-530 | any name starting with `s` sorts after `apple` |
| SheetOrder.InsertPermutes | riyu/Services/DatabaseService.cs:221 | inserting a record adds exactly that record and loses none |
| SheetOrder.SortByNamePermutes | riyu/Services/DatabaseService.cs:221 | the sorted listing is a permutation of the scanned records |
| SheetOrder.SortByNameAdjacent | riyu/Services/DatabaseService.cs:221 | each record of the sorted listing compares no greater than the next |
| SheetOrder.InsertOrdered | riyu/Services/DatabaseService.cs:221 | inserting into a listing whose neighbours are in order keeps the neighbours in order |
| SheetOrder.SortByNameOrdered | riyu/Services/DatabaseService.cs:221 | the sorted listing is a permutation of the records, and each record compares no greater than the next |
| SheetOrder.SortByName | riyu/Services/DatabaseService.cs:221 | sorting keeps the number of records (permutation and order are `SheetOrder.SortByNameOrdered`) |
| SheetOrder.SortPairSwaps | riyu/Services/DatabaseService.cs:221 | two records that the comparer puts the other way round come out swapped |
| SheetOrder.SortExample | riyu/Services/DatabaseService.cs:221 | `sheet10, sheet2, apple` sort to `apple, sheet2, sheet10` |
| SheetStore.DbFileExistsAt | riyu/Services/DatabaseService.cs:171-172 | the `words.db` of a sheet folder's path exists exactly when that folder holds a database |
| SheetStore.Put | riyu/Services/DatabaseService.cs:45-70 | after a save the folder exists and holds the new database; no other folder changes; a well-formed store stays well formed |
| SheetStore.WriteSheet | riyu/Services/DatabaseService.cs:43-70 | a save fails exactly when the target folder's database cannot be opened; otherwise that folder holds exactly the new words, since old rows are removed, and every other folder is unchanged |
| SheetStore.SheetExists | riyu/Services/DatabaseService.cs:427-439 | a sheet exists exactly when its sanitized folder exists; a name that sanitizes to "" tests `WordTables` itself |
| SheetStore.GetWordsBySheetName | riyu/Services/DatabaseService.cs:480-500 | reading gives the stored words, or an empty list when there is no `words.db` or it cannot be read |
| SheetStore.ReadableFolders | riyu/Services/DatabaseService.cs:191-218 | the rescan keeps exactly the listed folders with a readable database, each once, in listing order |
| SheetStore.Record | riyu/Services/DatabaseService.cs:203-211 | a scanned record's name is the folder name with no `_`, and its count is the number of stored words |
| SheetStore.Scan | riyu/Services/DatabaseService.cs:189-218 | the scan yields one record per kept folder, in directory order |
| SheetStore.WriteIndex | riyu/Services/DatabaseService.cs:229-243 | a writable index is replaced by the records, stamped with the current time; a failing write changes nothing |
| SheetStore.ScanAndCreateIndex | riyu/Services/DatabaseService.cs:179-227 | without `WordTables` the result is empty and nothing is written; otherwise it is the scan sorted by the comparer, and the index is written |
| SheetStore.RescanRecords | riyu/Services/DatabaseService.cs:189-221 | every rescanned record comes from a readable folder, and every readable folder appears exactly once |
| SheetStore.RescanRecordsFromFolders | riyu/Services/DatabaseService.cs:189-221 | every rescanned record is the record of a readable folder |
| SheetStore.RescanRecordsOnce | riyu/Services/DatabaseService.cs:189-221 | every readable folder has exactly one record in the rescan |
| SheetStore.ScanCountsOnce | riyu/Services/DatabaseService.cs:191-218 | each kept folder's record occurs exactly once in the scan |
| SheetStore.RescanValidates | riyu/Services/DatabaseService.cs:167-227 | every record the rescan writes passes the index validation |
| SheetStore.SaveThenRead | riyu/Services/DatabaseService.cs:43-70 | after a save, any name with the same folder reads back exactly the saved words and exists |
| SheetStore.SaveLeavesOthers | riyu/Services/DatabaseService.cs:43-70 | a save does not change what a name with another folder reads |
| SheetStore.SaveOverwritesCollision | riyu/Services/DatabaseService.cs:64-67 | of two names that differ only in an invalid character, the second save replaces the first's words |
| SheetStore.ScannedSheetLookup | riyu/Services/DatabaseService.cs:480-493 | a listed sheet reads back its words through its display name when its folder has no `_`; when it has one, the lookup goes to another folder |
| IndexCache.ClearCache | riyu/Services/DatabaseService.cs:262-266 | clearing drops the cached listing and sets a time no index file can carry |
| IndexCache.IsIndexUpToDate | riyu/Services/DatabaseService.cs:252-260 | the index counts as current only when its file exists, and never while the recorded time is `DateTime.MinValue` |
| IndexCache.ValidateIndex | riyu/Services/DatabaseService.cs:167-177 | the index is valid exactly when every record's folder holds a `words.db` |
| IndexCache.LoadSheetsFromIndex | riyu/Services/DatabaseService.cs:143-165 | the index is used exactly when it exists, parses and validates, and then it gives exactly its records |
| IndexCache.GetAllSheets | riyu/Services/DatabaseService.cs:120-141 | the cache answers exactly when it is filled and the index time matches; otherwise a usable index answers and its time is remembered; otherwise a rescan answers without updating the time; the answer is always cached |
| IndexCache.SaveSheetData | riyu/Services/DatabaseService.cs:43-77 | a save fails exactly when the folder's database cannot be opened; on success the cache is dropped and the name reads back the words and exists |
| IndexCache.SaveSheetDataEffects | riyu/Services/DatabaseService.cs:43-77 | a save puts the words in the sheet's folder, leaves every other folder alone, makes exactly the sheet's folder (and `WordTables`) newly exist, and keeps the store well formed |
| IndexCache.HasAnySheets | riyu/Services/DatabaseService.cs:444-448 | there are sheets exactly when the listing `GetAllSheets` gives is non-empty |
| IndexCache.DeleteAllSheets | riyu/Services/DatabaseService.cs:271-425 | an exception from listing the folders is rethrown before the cache is cleared; otherwise the cache is cleared, a folder survives only when its deletion failed and keeps its `words.db` only when that file's deletion failed too, and the index is gone unless its deletion failed; nothing happens to a missing `WordTables` but the cache clearing |
| IndexCache.ClearCacheForcesMiss | riyu/Services/DatabaseService.cs:252-266 | after `ClearCache` the next listing never comes from the cache |
| IndexCache.SaveKeepsDbFiles | riyu/Services/DatabaseService.cs:43-70 | a save never removes an existing `words.db` |
| IndexCache.RescanThenLoad | riyu/Services/DatabaseService.cs:143-243 | the index a rescan writes loads back as exactly the rescanned records |
| IndexCache.ListingStable | riyu/Services/DatabaseService.cs:120-141 | asking for the listing twice gives the same sheets |
| IndexCache.SaveThenList | riyu/Services/DatabaseService.cs:43-77 | after a save with a writable index, the listing comes from the index and holds the saved sheet's record exactly once |
| IndexCache.SaveWithUnwritableIndexIsStale | riyu/Services/DatabaseService.cs:239-242 | when the index cannot be written, a save leaves the listing at the old index records |
| IndexCache.NoSheetsWhenEmpty | riyu/Services/DatabaseService.cs:444-448 | with no readable sheet, no index and no cache, there are no sheets |
| IndexCache.HasSheetsAfterSave | riyu/Services/DatabaseService.cs:444-448 | after a save to a named folder with a writable index, there are sheets |
| IndexCache.DeleteAllLeavesNone | riyu/Services/DatabaseService.cs:271-425 | after a delete-all in which every deletion succeeds, there are no sheets |
| IndexCache.DeleteLeavesEmptyFolder | riyu/Services/DatabaseService.cs:341-390 | a folder whose `words.db` was deleted but which could not be removed itself is still a sheet folder, now with no words |
| IndexCache.DeleteRethrowKeepsCache | riyu/Services/DatabaseService.cs:297-424 | when listing the folders throws, the cache is not cleared, so the next listing still comes from the cache |
| Excel.Candidates | riyu/Services/ExcelService.cs:67-73 | the rows read are rows 2 to the last used row (none when only the header is used), each as its three trimmed cells |
| Excel.KeptRows | riyu/Services/ExcelService.cs:75-77 | every kept row is a candidate row that is not blank in both Japanese and Chinese |
| Excel.KeptRowsOrdered | riyu/Services/ExcelService.cs:67-77 | the kept rows are in strictly increasing row order |
| Excel.KeptRowsComplete | riyu/Services/ExcelService.cs:75-77 | every candidate row that is not blank on both sides is kept |
| Excel.ExtractWordsFromSheet | riyu/Services/ExcelService.cs:62-90 | the loop yields exactly the sheet's words: the kept rows' trimmed cells, in row order |
| Excel.SheetWords | riyu/Services/ExcelService.cs:62-90 | a sheet gives at most one word per data row read (which words, in which order, is `Excel.SheetWordsShape`) |
| Excel.ReadExcelFile | riyu/Services/ExcelService.cs:46-55 | one entry per worksheet in workbook order, with the worksheet's name and words |
| Excel.SheetWordsShape | riyu/Services/ExcelService.cs:67-86 | the header and the rows past the last used one are never read; a data row is dropped exactly when its Japanese and Chinese both trim to ""; the words keep row order |
| Excel.SheetWordsRows | riyu/Services/ExcelService.cs:67-86 | the i-th word is the trimmed row of the i-th kept row, and that row lies between the first data row and the last used row |
| Excel.SheetRowsKept | riyu/Services/ExcelService.cs:67-77 | a data row is kept exactly when its Japanese or its Chinese cell is not blank after trimming |
| Excel.SheetWordsTrimmed | riyu/Services/ExcelService.cs:71-84 | no word is blank on both sides, and all three fields are already trimmed |
| Excel.EmptySheetNoWords | riyu/Services/ExcelService.cs:67 | a worksheet with no used row gives no words |
| Dictation.NatText | riyu/ViewModels/MainViewModel.cs:416 | a count prints as decimal digits with no leading zero, whose value is the count |
| Dictation.PageTextInjective | riyu/ViewModels/MainViewModel.cs:416 | the page label determines both the index and the count |
| Dictation.PageText | riyu/ViewModels/MainViewModel.cs:416 | the label of two counts is digits around a `/`; a negative index would print with a leading `-` |
| Dictation.Valid | riyu/ViewModels/MainViewModel.cs:60-65 | the session invariant keeps the index within the word list |
| Dictation.UpdatePageDisplay | riyu/ViewModels/MainViewModel.cs:401-417 | only the label changes, and it then shows the index and count, so a session whose counters are consistent becomes valid |
| Dictation.InitialValid | riyu/ViewModels/MainViewModel.cs:60-65 | the view model starts at index 0 of 0 words, with the label `0/0` |
| Dictation.WordTypeText | riyu/ViewModels/MainViewModel.cs:370 | the shown part of speech is never empty: a missing one shows as `未知` |
| Dictation.UpdateCurrentWordDisplay | riyu/ViewModels/MainViewModel.cs:350-377 | with no words nothing changes; otherwise the session is completed exactly when the index reaches the count, and shows either the completion text or the current word's meaning and part of speech |
| Dictation.NavigateToNextWord | riyu/ViewModels/MainViewModel.cs:330-347 | at or past the count nothing changes; otherwise the index moves one forward, the input is cleared and the label follows |
| Dictation.NavigateToPreviousWord | riyu/ViewModels/MainViewModel.cs:309-326 | at index 0 nothing changes; otherwise the index moves one back, the input is cleared and the label follows |
| Dictation.TogglePlay | riyu/ViewModels/MainViewModel.cs:226-241 | play/pause flips and the meaning's colour resets; nothing else changes |
| Dictation.RestartDictation | riyu/ViewModels/MainViewModel.cs:293-305 | back to index 0 with the input cleared and the label `0/count`; it stays completed only for words with a count of 0 |
| Dictation.ConfirmAnswer | riyu/ViewModels/MainViewModel.cs:245-290 | confirming keeps the session consistent and never changes the words, the count or play/pause |
| Dictation.NavigationStep | riyu/ViewModels/MainViewModel.cs:309-347 | each navigation moves the index by at most one and keeps it within 0..count |
| Dictation.NextThenPrevious | riyu/ViewModels/MainViewModel.cs:309-347 | before the end, next then previous returns to the same index and label |
| Dictation.CompletionAtEnd | riyu/ViewModels/MainViewModel.cs:355-361 | stepping past the last word completes the dictation, shows the completion text and the label `count/count` |
| Dictation.ToggleTwice | riyu/ViewModels/MainViewModel.cs:226-241 | toggling twice restores play/pause and only resets the colour |
| Dictation.IsCorrectEquivalence | riyu/ViewModels/MainViewModel.cs:265-269 | answer checking is reflexive, symmetric and transitive |
| Dictation.IsCorrect | riyu/ViewModels/MainViewModel.cs:265-269 | an answer equal to the word after trimming is correct, and a correct answer has the word's trimmed length |
| Dictation.IsCorrectIgnoresPadding | riyu/ViewModels/MainViewModel.cs:265-269 | white space around the typed answer never changes whether it is correct |
| Dictation.ConfirmWhilePaused | riyu/ViewModels/MainViewModel.cs:282-289 | when paused, a correct answer moves to the next word, and a wrong one only clears the input; the view's text wins over the bound input |
| Dictation.ConfirmWhilePlaying | riyu/ViewModels/MainViewModel.cs:271-279 | when playing, the index stays, the input is cleared, and the mark is green exactly for a correct answer |
| Dictation.ConfirmWhenCompleted | riyu/ViewModels/MainViewModel.cs:248-258 | a completed, paused session restarts from index 0; a playing session past the words is left alone |
| Dictation.LoadSheetWords | riyu/ViewModels/MainViewModel.cs:830-879 | loading a sheet keeps the session consistent and starts at index 0 |
| Dictation.LoadFreshSheet | riyu/ViewModels/MainViewModel.cs:837-857 | a sheet with words replaces the list, sets the count and the label `0/count`, clears completion and shows the first word |
| Dictation.LoadEmptySheet | riyu/ViewModels/MainViewModel.cs:859-872 | an empty sheet sets the count to 0 and the label to `0/0`, but keeps the old words and the completion flag |
| Import.IsExcelFileName | riyu/ViewModels/MainViewModel.cs:496-501 | only a name ending in a dot and four more characters can pass the extension check |
| Import.AcceptedNameShape | riyu/ViewModels/MainViewModel.cs:496-501 | an accepted file name ends with a dot and four characters that lower-case to `xlsx` or `xlsm` |
| Import.ShapedNameAccepted | riyu/ViewModels/MainViewModel.cs:496-501 | every name ending in `.xlsx` or `.xlsm`, in any case, is accepted |
| Import.UpperCaseAccepted | riyu/ViewModels/MainViewModel.cs:496-497 | `Book1.XLSM` is accepted |
| Import.DottedStemAccepted | riyu/ViewModels/MainViewModel.cs:496-497 | `n5.words.xlsx` is accepted: only the last extension counts |
| Import.BackupRefused | riyu/ViewModels/MainViewModel.cs:496-497 | `words.xlsx.bak` is refused |
| Import.BareNameRefused | riyu/ViewModels/MainViewModel.cs:496-497 | `xlsx`, with no dot, is refused |
| Import.AfterImport | riyu/ViewModels/MainViewModel.cs:594-617 | after an import the screen shows the first worksheet's words from index 0 with the label `0/count`; the completion flag, the typed input and play/pause are left as they were |
| Import.ProcessExcelFile | riyu/ViewModels/MainViewModel.cs:530-641 | no worksheets: nothing changes. A failed save: the earlier sheets stay saved and the screen is unchanged. Otherwise: overridden plus created is the number of non-empty worksheets, every saved sheet exists, the last save to each folder reads back, and the first worksheet is shown |
| Import.SaveSheets | riyu/ViewModels/MainViewModel.cs:562-592 | the loop's store, cache and tally are those of the import fold, and the word total is the sum over all worksheets |
| Import.SaveAllSnoc | riyu/ViewModels/MainViewModel.cs:562-592 | the import fold over one more worksheet is one more turn of the saving loop |
| Import.SaveAllStopsAtFailure | riyu/ViewModels/MainViewModel.cs:578 | once a save throws, the later worksheets are not processed |
| Import.SaveAllTally | riyu/ViewModels/MainViewModel.cs:564-568 | overridden plus created counts each non-empty worksheet once |
| Import.SaveAllKeepsUnreadable | riyu/ViewModels/MainViewModel.cs:578 | an import neither repairs nor creates an unreadable database |
| Import.SaveAllFailure | riyu/ViewModels/MainViewModel.cs:578 | an import fails exactly at a non-empty worksheet whose folder's database cannot be opened, and never when there is none |
| Import.SaveAllKeepsSheets | riyu/ViewModels/MainViewModel.cs:566-578 | an import never removes a sheet |
| Import.SaveAllCreates | riyu/ViewModels/MainViewModel.cs:578 | after a successful import every non-empty worksheet exists as a sheet |
| Import.LastSaveDb | riyu/ViewModels/MainViewModel.cs:566-578 | after a successful import, a non-empty last worksheet's folder holds exactly its words, and every other folder holds what it held before that worksheet |
| Import.ReadBackStep | riyu/ViewModels/MainViewModel.cs:566-578 | the last worksheet reads back, and an earlier worksheet that read back still does unless the last one shares its folder |
| Import.SaveAllReadBack | riyu/ViewModels/MainViewModel.cs:578 | after a successful import, the worksheet saved last to each folder reads back its words |
| Import.SaveAllNothingToSave | riyu/ViewModels/MainViewModel.cs:581-591 | a workbook of empty worksheets changes neither the store nor the cache, and tallies nothing |
| Import.SaveAllDropsCache | riyu/ViewModels/MainViewModel.cs:578 | an import keeps the index time and, once anything is saved, drops the cached listing |
| Import.SaveAllWellFormed | riyu/ViewModels/MainViewModel.cs:578 | an import keeps the store well formed |
| Import.SaveAllExisting | riyu/ViewModels/MainViewModel.cs:566-568 | re-importing sheets that all exist creates none |
| Import.SaveAllNewPrefix | riyu/ViewModels/MainViewModel.cs:566-568 | while importing new sheets with distinct folders, nothing counts as overridden and the later sheets do not exist yet |
| Import.SaveAllNew | riyu/ViewModels/MainViewModel.cs:566-568 | importing new sheets with distinct folders overrides none |
| Import.ImportedSheetsReadBack | riyu/ViewModels/MainViewModel.cs:578 | when the folders are distinct, every saved worksheet is the last save to its folder, so every one reads back |
| Import.ImportKeepsCompletion | riyu/ViewModels/MainViewModel.cs:609-617 | an import does not reset completion, so the next confirm while paused restarts the new list instead of checking the answer |
| Converters.AndBoolean | riyu/Converters/AndBooleanConverter.cs:11-18 | the result is a bool, and false for a null or empty list |
| Converters.AllTrueEvery | riyu/Converters/AndBooleanConverter.cs:17 | the recursive test is true exactly when every value is a boxed true |
| Converters.AndBooleanMeaning | riyu/Converters/AndBooleanConverter.cs:13-17 | the converter gives true exactly for a non-empty list of boxed trues |
| Converters.AndBooleanPermutation | riyu/Converters/AndBooleanConverter.cs:17 | the order of the bindings does not matter |
| Converters.AndBooleanAppend | riyu/Converters/AndBooleanConverter.cs:17 | joining two non-empty lists gives the conjunction of both results |
| Converters.EmptyStateVisibility | riyu/Converters/EmptyStateVisibilityConverter.cs:10-22 | the result is a bool, and false for fewer than two values |
| Converters.EmptyStateMeaning | riyu/Converters/EmptyStateVisibilityConverter.cs:12-21 | the empty state shows exactly when there are two values, the first is not a boxed true, and the second is a boxed 0 or not an int |
| Converters.EmptyStateOfSheetList | riyu/Converters/EmptyStateVisibilityConverter.cs:17-21 | bound to the loading flag and the sheet count, it shows exactly for a finished load of no sheets |
| Converters.EmptyStateIgnoresExtras | riyu/Converters/EmptyStateVisibilityConverter.cs:12-21 | values after the first two change nothing |
| Converters.IsEmpty | riyu/Converters/IsEmptyConverter.cs:11-28 | a non-string gives false; a string gives whether it is empty, or with a parameter, the parameter for "" and `DoNothing` otherwise |
| Converters.IsEmptyWithoutParameter | riyu/Converters/IsEmptyConverter.cs:13-27 | without a parameter the result is a bool, and true exactly for the empty string |
| Converters.IsEmptyWithParameter | riyu/Converters/IsEmptyConverter.cs:16-20 | with a parameter the target is left alone exactly for a non-empty string |
| ServiceLocator.Register | riyu/Services/Keyboard/ServiceLocator.cs:13-16 | registering stores the instance under its type, replaces an earlier one, leaves every other type alone and keeps the registry well typed |
| ServiceLocator.Resolve | riyu/Services/Keyboard/ServiceLocator.cs:18-25 | a resolved instance is the one stored under the type and is of that type; an unregistered type gives null |
| ServiceLocator.ResolveStored | riyu/Services/Keyboard/ServiceLocator.cs:20-23 | in a well-typed registry the `as T` cast never fails |
| ServiceLocator.ResolveAfterRegister | riyu/Services/Keyboard/ServiceLocator.cs:13-23 | resolving right after registering gives that instance back, null included |
| ServiceLocator.RegisterLeavesOthers | riyu/Services/Keyboard/ServiceLocator.cs:13-23 | registering one type never changes what another type resolves to |
| ServiceLocator.RegisterReplaces | riyu/Services/Keyboard/ServiceLocator.cs:13-16 | a later registration under the same type wins |
| ServiceLocator.ResolveUnregistered | riyu/Services/Keyboard/ServiceLocator.cs:18-24 | lookup is by the exact type: an instance registered under another of its types does not resolve |
| ServiceLocator.RegistrationsWellTyped | riyu/Services/Keyboard/ServiceLocator.cs:13-16 | any sequence of registrations from the empty registry gives a well-typed registry |

## Left out

- `UpdateProgress` (MainViewModel.cs 380-398) is never called, so it is not modelled. The label is always written by `UpdatePageDisplay`, and `StudyIndex` stays at -1.
- The progress bar value is a `double` and is not modelled. Neither are the brushes: only the green/red/neutral mark of the Chinese meaning is kept, as `Mark`.
- `async`, `Task.Run`, `Dispatcher` and `Task.Delay` are not modelled. Each operation is one atomic step. `_isDeleting` and the delete dialog are left out.
- The import status and error texts, the progress percentages and the dialog animation are not modelled. The file picker is left out too: the selected file's name is a parameter.
- `ReadExcelFileAsync` opens a stream and ClosedXML parses the workbook. The model starts from the parsed worksheets: their names, their cells as text and the last used row.
- `InitializeAsync` (MainViewModel.cs 117) and `GetFirstWordAsync` (DatabaseService.cs 453-475) are outside the modelled core. They are not modelled.
- The JSON text of the index is abstracted to "the records" or "garbled". The serializer's round trip is taken as given.
- File timestamps are a counter that every index write advances. `DateTime.MinValue` is -1, which no write produces.
- Paths are compared as strings. Paths outside `WordTables` always count as missing. Path normalisation and case-insensitive file systems are not modelled.
- A SQLite table is the list of its rows in insertion order. The `Id` column is not modelled.
- `DeleteAllSheets` is modelled by its end state only. Which deletions fail is a parameter (`DeleteFailures`: the folder listing, each folder, each `words.db`, the index file), standing in for the I/O errors it logs and swallows or rethrows. The `-wal` and `-shm` files, other files in a folder, the pool clearing, the garbage collection, the two-second wait and the delayed deletion through `MoveFileEx` are not modelled.
- SheetOrder.Compare: returns only the sign of the comparer's result. For names without numbers the source returns `string.Compare`'s difference, which may be any int; `OrderBy` uses only its sign.
- FileNames.SanitizeFileName: a `char` here is a Unicode scalar value, so the 50-character cut counts scalar values. .NET counts UTF-16 code units: outside the Basic Multilingual Plane a character counts 2 there and 1 here, and .NET's cut can split a surrogate pair, which this model cannot express.
- FileNames.SanitizeClean: cuts at 50 scalar values, for the same reason as FileNames.SanitizeFileName.
- Platform.CompareOrdinal: orders scalar values, while .NET's ordinal comparison orders UTF-16 code units. The two orders differ outside the Basic Multilingual Plane: a surrogate pair sorts before the characters U+E000 to U+FFFF in .NET and after them here.
- SheetOrder.SortByName: LINQ's `OrderBy` is assumed to behave like a stable sort under the comparer. Because the comparer is not transitive, the model promises only a permutation whose neighbours are in order, not LINQ's exact output.
- Converters.EmptyStateVisibility: a null values list, on which the source would throw, is not modelled.
- Converters.Value: boxed ints are unbounded integers. The Int32 width of `as int?` plays no part in these converters.
- ServiceLocator.Register: the `ConcurrentDictionary`'s thread safety is not modelled. Registrations are applied one at a time.
