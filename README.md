# Helipad Manager: scan, match and toggle engine

This project models the core of the Simfocus Helipad Manager in Dafny. The
program manages the scenery files of flight-simulator helipads. It reads a
list of helipads from a CSV file and finds the scenery files (`.bgl`,
`.bgl.off`, `.off`) under the community folder. It links each helipad to the
files whose name contains its ICAO code. It then enables or disables a
helipad by renaming its selected file between `x.bgl` and `x.bgl.OFF`,
optionally after copying a time-stamped backup. Every successful rename goes
on a last-in-first-out undo stack.

The model follows the program's own structure:

- `text.dfy`, `paths.dfy`: the .NET string and path operations the core relies on (`Trim`, `IsNullOrWhiteSpace`, ordinal ignore-case comparison, `Split(',')`, `Path.GetFileName`, `Path.GetFileNameWithoutExtension`). They are defined from first principles, with lemmas giving their meaning.
- `disks.dfy`: the file system as a map from path to content. It also records the paths another process holds open and the paths the process may not access. `File.Copy` and `File.Move` are functions that either give the next disk or raise the exception the runtime would raise. The mutable `FileSystem` class holds the one disk they act on.
- `file_service.dfy`: `FileService`. This covers the pure target-name computation, the backup name, `IsFileInUse`, and `ToggleEnableAsync`/`UndoLastAsync` as a class whose undo stack is a `seq` (top last). Each is proved against a specification function (`ToggleEffect`, `UndoEffect`) whose properties are lemmas.
- `helipad.dfy`: the mutable `Helipad` record.
- `scanner.dfy`: `ScannerService`. It has the header dictionary loop, the row loop, the discovery loop and the matcher that mutates the records in place. Each loop is proved against a recursive specification function.
- `helipad_view_model.dfy`: the `IsEnabled` setter and `ToggleAsync`.
- `main_view_model.dfy`: the `Search` setter, `ApplyFilter`, the bulk toggle loop, the toggle requested from the map, undo, and the list replacement in `RefreshAsync`.

In a few places the code behaves differently from what its names and comments suggest; the model follows the code:

- The matcher skips a record with a blank ICAO right after clearing its candidates (Services/ScannerService.cs:91-92). Its selected file and enabled flag stay as they were, so such a record is not reset to "none matched" (`Scanner.MatchRecordConsistent`).
- `ToggleAsync` flips `IsEnabled` but never updates `SceneryFilePath` (ViewModels/HelipadViewModel.cs:62-68). After a successful toggle the stored path names a file that is gone. A second toggle from the same view is therefore refused by the in-use check (`HelipadViewModels.SecondToggleBlocked`). Only the file service, given the new name, toggles the file back (`FileServices.ToggleTwiceRestores`).
- A failed toggle reports "IO error: ", "Permission error: " or "Error: " followed by the exception message (Services/FileService.cs:75-86). A cancelled toggle is an "Error: " reply, not a distinct outcome.
- With more than one candidate, the first is selected, exactly as with one. The comment at Services/ScannerService.cs:110 says the path is left unset; the code sets it.
- Reading the CSV file passes the cancellation token (Services/ScannerService.cs:20). A cancelled refresh is therefore abandoned as soon as an existing CSV file is read, even one with no data lines.

## Model

| member | source | states |
|---|---|---|
| Text.TrimStartSpec | Services/ScannerService.cs:36 | `TrimStart` drops exactly the leading white space: what it removes is white space and what it keeps is a suffix that starts with a non-white character |
| Text.TrimEndSpec | Services/ScannerService.cs:36 | `TrimEnd` drops exactly the trailing white space, keeping a prefix that ends with a non-white character |
| Text.TrimSpec | Services/ScannerService.cs:93 | `Trim(s)` is empty exactly when `s` is blank; otherwise it neither starts nor ends with white space and occurs in `s` |
| Text.ContainsIffOccurs | Services/ScannerService.cs:96-97 | the ordinal `IndexOf(sub) >= 0` test holds exactly when `sub` occurs in `s` at some index |
| Text.ContainsInPrefix | Services/ScannerService.cs:96-97 | a substring of a prefix is a substring of the whole string |
| Text.ContainsHead | Services/ScannerService.cs:96-97 | a string containing `sub` contains the first character of `sub` |
| Text.Split | Services/ScannerService.cs:35 | `Split(',')` returns at least one piece, and no piece contains the separator |
| Text.JoinSplit | Services/ScannerService.cs:35 | splitting a line loses nothing: joining the pieces with the separator gives the line back |
| Text.SplitJoin | Services/ScannerService.cs:23 | splitting a join of separator-free cells gives exactly those cells back |
| Paths.FileNameIsLastComponent | Services/FileService.cs:62 | `Path.GetFileName` is the separator-free suffix after the last `\` or `/` (drive-relative paths such as `C:x.bgl` excepted, see below) |
| Paths.LastIndexOf | Services/ScannerService.cs:96 | the index of the last occurrence of the character, or -1 when there is none |
| Paths.StemIsPrefix | Services/ScannerService.cs:96-97 | the name without extension is a prefix of the file name; it is shorter exactly when the name has a period, and then the cut falls on a period with no period after it, i.e. on the last one |
| Paths.FileNameAppend | Services/FileService.cs:61-63 | appending separator-free text to a path extends its file name by that text and keeps its directory |
| Disks.CopyFileSpec | Services/FileService.cs:64 | `File.Copy` succeeds exactly when the source can be opened and the destination is free; it adds the destination with the source's content and changes no other file |
| Disks.MoveFileSpec | Services/FileService.cs:68 | `File.Move` succeeds exactly when the source can be opened and the destination is free; afterwards only the destination exists, with the content, and no other file changes |
| Disks.MoveBack | Services/FileService.cs:98 | moving a file and moving it back restores the disk exactly |
| Disks.CopyMoveKeepValid | Services/FileService.cs:64-68 | copies and moves keep every held-open path an existing file |
| Disks.FileSystem.Copy | Services/FileService.cs:64 | the disk becomes the copy's result, or stays the same and the exception is returned |
| Disks.FileSystem.Move | Services/FileService.cs:68 | the disk becomes the move's result, or stays the same and the exception is returned |
| FileServices.EndsWithLongerSuffix | Services/FileService.cs:40 | a path ending in `.bgl.off` ends in `.off`, so the second test of the disabled check adds nothing |
| FileServices.ToggleTarget | Services/FileService.cs:39-56 | a path ending in `.off` (any case) loses its last four characters; any other path gains `.OFF` |
| FileServices.ToggleTargetRoundTrip | Services/FileService.cs:46-55 | for an enabled path, disabling and then enabling gives back exactly the original path |
| FileServices.ToggleTargetFromDisabled | Services/FileService.cs:46-55 | for a disabled path, except one ending in `.off.off`, enabling and then disabling gives back the original only up to the case of the suffix, which becomes `.OFF` |
| FileServices.ToggleFlipsDisabled | Services/FileService.cs:39-56 | a toggle flips whether the path reads as disabled, except for a path ending in `.off.off`, which stays disabled |
| FileServices.BackupIsSibling | Services/FileService.cs:61-63 | the backup is `<name>.bak_<stamp>` in the directory of the file, i.e. the path with `.bak_<stamp>` appended |
| FileServices.SiblingName | Services/FileService.cs:61-63 | combining the directory with the file name plus a separator-free tail is the path plus that tail |
| FileServices.BackupIsNotTarget | Services/FileService.cs:58-68 | the backup name never equals the rename target |
| FileServices.IsFileInUse | Services/FileService.cs:17-28 | a file counts as in use exactly when an exclusive open fails: a blank, missing, held-open or denied path is in use, and a non-blank path that opens exclusively is not |
| FileServices.ToggleRejectsInvalidPath | Services/FileService.cs:32-33 | a blank path fails with "No file path provided" and a missing file with "File doesn't exist"; both leave the disk unchanged and push nothing |
| FileServices.ToggleSucceedsIff | Services/FileService.cs:30-87 | a toggle succeeds exactly when the path is not blank, no cancellation is requested, the file opens, and the target name (and the backup name when asked for) is free |
| FileServices.ToggleSuccessEffect | Services/FileService.cs:68-73 | on success the file exists only under the target, with its content; exactly one entry (target, original, backup) is pushed; the message names both file names; the backup holds the original content; no other file changes |
| FileServices.ToggleFailureEffect | Services/FileService.cs:75-86 | on failure nothing is pushed and no file is moved; only a backup copied before a failed move may remain |
| FileServices.ToggleFailureMessage | Services/FileService.cs:75-86 | a failure replies with the message of the check that stopped it: "No file path provided" for a blank path, "File doesn't exist" for a missing file, "Error: The operation was canceled." for a cancelled call, and otherwise the prefix and text of the exception actually raised, by the backup copy when that failed, else by the move |
| FileServices.ToggleTargetTaken | Services/FileService.cs:68-81 | with the file openable and the backup name free, a denied target name replies "Permission error: " and an existing target "IO error: ", each followed by the text of the exception the move raises for that target |
| FileServices.UndoAfterToggle | Tests/FileServiceTests.cs:20-24 | undoing the entry of a successful toggle succeeds; the disk is the one before the toggle plus the backup, which undo keeps |
| FileServices.ToggleTwiceRestores | Services/FileService.cs:39-71 | toggling an enabled file and then its target, without backups, restores the disk |
| FileServices.FileService.constructor | Services/FileService.cs:15 | the undo stack starts empty |
| FileServices.FileService.ToggleEnable | Services/FileService.cs:30-87 | the disk, the reply and the undo stack follow `ToggleEffect`; the stack grows by the pushed entry only |
| FileServices.FileService.UndoLast | Services/FileService.cs:89-106 | an empty stack replies "Nothing to undo" and changes nothing; otherwise the top entry is popped before any check, so it is consumed even when the undo fails, and the disk and reply follow `UndoEffect` |
| Models.Helipad.constructor | Models/Helipad.cs:6-23 | a new record has empty ICAO and name, zero coordinates, no candidates, no selected file, is disabled and is stamped with the current time |
| HelipadViewModels.ViewToggleGuard | ViewModels/HelipadViewModel.cs:49-62 | the view calls the file service exactly when a non-blank file is selected that opens exclusively; the toggle then succeeds exactly when the target and backup names are free |
| HelipadViewModels.SecondToggleBlocked | ViewModels/HelipadViewModel.cs:47-69 | after a successful toggle from a view, a second toggle from the same view is refused and changes nothing |
| HelipadViewModels.HelipadViewModel.constructor | ViewModels/HelipadViewModel.cs:37-45 | the view wraps the given record and file service |
| HelipadViewModels.HelipadViewModel.SetIsEnabled | ViewModels/HelipadViewModel.cs:24-33 | the setter writes through to the record and notifies exactly when the value changes |
| HelipadViewModels.HelipadViewModel.Toggle | ViewModels/HelipadViewModel.cs:47-69 | a blank or missing path, or a file in use, changes nothing; otherwise the file service toggles, and the flag flips exactly when the toggle succeeded; the selected file is never updated |
| Scanner.AtLeastOne | Services/ScannerService.cs:56 | the divisor is `Math.Max(1, n)`: 1 for `n` below 1, `n` otherwise |
| Scanner.HeaderIndexIsLastColumn | Services/ScannerService.cs:23-25 | a header name, trimmed and compared ignoring case, is present exactly when some cell has it, and it maps to the last such column |
| Scanner.BuildHeaderIndex | Services/ScannerService.cs:23-25 | the header loop builds the dictionary `HeaderIndex` describes |
| Scanner.Field | Services/ScannerService.cs:36 | `Get(idx)` is empty outside the line; inside it, it is a piece of the cell that neither starts nor ends with white space, and it is empty exactly when the cell is blank |
| Scanner.RowFields | Services/ScannerService.cs:38-44 | each field comes from its column, or is empty when the header lacks it; latitude prefers `Latitude` to `Lat`, longitude prefers `Longitude` to `Lon` to `Lng`; an unparsable coordinate is zero |
| Scanner.AbsentCoordinateIsZero | Services/ScannerService.cs:40-44 | with `double.TryParse` rejecting the empty string, a coordinate whose column the header lacks, that the line is too short to reach, or that is blank, reads as zero |
| Scanner.RowFieldsTrimmed | Services/ScannerService.cs:38-39 | ICAO and name of every record are trimmed |
| Scanner.RecordsFollowLines | Services/ScannerService.cs:30-54 | there is one record per non-blank data line, in file order, each parsed from its own line |
| Scanner.NonBlankMembers | Services/ScannerService.cs:34 | the lines kept are exactly the data lines that are not blank |
| Scanner.CsvProgressBounds | Services/ScannerService.cs:56 | there is one progress report per record; each lies in (0, 1] and they strictly rise |
| Scanner.ProgressBelowCount | Services/ScannerService.cs:56 | every report so far is at most the current line's fraction |
| Scanner.NewRecord | Services/ScannerService.cs:46-53 | a fresh record with the row's fields, the scan time and no selection |
| Scanner.ReadRows | Services/ScannerService.cs:30-57 | the row loop gives fresh, distinct records for the parsed rows, in order, with their progress reports; a cancellation seen by the check in the loop stops it at the first data line |
| Scanner.ScanCsv | Services/ScannerService.cs:15-60 | a blank or missing path gives no records; a cancelled scan of an existing file is cancelled whatever its lines; otherwise an empty file gives no records, and else the header is the first line and the records follow the data lines |
| Scanner.CsvExample | Tests/CsvParserTests.cs:10-25 | under a header `ICAO,Name,Latitude,Longitude`, two rows give two records in order, each with its own row's fields |
| Scanner.SceneryFileSuffixes | Services/ScannerService.cs:68 | the `.bgl.off` test adds nothing: a file passes exactly when it ends in `.bgl` or `.off`, ignoring case |
| Scanner.SceneryFilesMembers | Services/ScannerService.cs:67-69 | discovery keeps exactly the listed files that pass the suffix test |
| Scanner.SceneryFilesAppend | Services/ScannerService.cs:67-69 | discovery keeps enumeration order |
| Scanner.DiscoveryProgressBounds | Services/ScannerService.cs:71-76 | discovery reports start at 0, lie in [0, 1) and strictly rise |
| Scanner.FindBglFiles | Services/ScannerService.cs:62-81 | a blank or missing folder gives nothing; otherwise the filtered files in enumeration order with their progress reports; a cancellation stops the loop at its first file |
| Scanner.CandidateIffInFileName | Services/ScannerService.cs:96-97 | the test on the name without extension adds nothing: a file is a candidate exactly when its file name contains the code, ignoring case |
| Scanner.CandidatesMembers | Services/ScannerService.cs:94-101 | the candidates are exactly the files whose name contains the code |
| Scanner.CandidatesAppend | Services/ScannerService.cs:94-101 | candidates keep the order of the file list |
| Scanner.MatchRecordConsistent | Services/ScannerService.cs:91-118 | with a non-blank ICAO, the candidates are the matching files, a file is selected exactly when there is a candidate, it is the first, and the record is enabled exactly when it does not end in `.off`; with a blank ICAO only the candidates are cleared |
| Scanner.MatchFreshRecordConsistent | Services/ScannerService.cs:103-118 | a freshly parsed record always ends up consistent |
| Scanner.MatchRecordIdempotent | Services/ScannerService.cs:89-119 | matching twice against the same files is matching once |
| Scanner.MatchingExample | Tests/MatchingTests.cs:11-22 | for `KABC` and the files `kabc_helipad.bgl` and `other.bgl`, the first file is the only candidate, and it is selected and enabled |
| Scanner.MatchOne | Services/ScannerService.cs:89-119 | the matcher's body for one record mutates the record in place into its matched selection |
| Scanner.MatchHelipadsToBgls | Services/ScannerService.cs:83-122 | every record in the list is matched in place, and the same list is returned |
| MainViewModels.FilterMembers | ViewModels/MainViewModel.cs:79-82 | the filtered list holds exactly the views whose ICAO or name contains the trimmed query, ignoring case, or all views for an empty query |
| MainViewModels.FilterAppend | ViewModels/MainViewModel.cs:78-85 | the filter keeps list order |
| MainViewModels.FilterDistinct | ViewModels/MainViewModel.cs:78-85 | the filtered views come from the list and stay distinct |
| MainViewModels.BlankSearchShowsAll | ViewModels/MainViewModel.cs:80 | an empty or white-space search keeps every view |
| MainViewModels.FirstByIcao | ViewModels/MainViewModel.cs:184 | the index of the first view whose ICAO equals the argument ignoring case, or none when no view has it |
| MainViewModels.BulkVisitIsViewToggle | ViewModels/MainViewModel.cs:162-163 | the bulk loop's null check, together with the in-use check, guards exactly as a single view's blank check does |
| MainViewModels.BulkUndoOrder | ViewModels/MainViewModel.cs:157-172 | every visited view gets a flag; only a view with a file can flip; the undo stack gains one entry per flipped view, in visit order |
| MainViewModels.VisitPushes | ViewModels/MainViewModel.cs:168-170 | one visit pushes the entry for its file exactly when its toggle succeeded |
| MainViewModels.SelectedPaths | ViewModels/MainViewModel.cs:160-162 | the selected files of the visited records, in order |
| MainViewModels.ScanAndMatch | ViewModels/MainViewModel.cs:113-128 | the scan is cancelled exactly when cancellation is requested and either an existing CSV file is read or discovery reaches its first file; otherwise the parsed rows become fresh, distinct records matched against the discovered files |
| MainViewModels.MatchParsed | ViewModels/MainViewModel.cs:128 | freshly parsed records are matched and keep their fields and scan time |
| MainViewModels.MainViewModel.constructor | ViewModels/MainViewModel.cs:49-65 | empty lists, empty search, zero progress |
| MainViewModels.MainViewModel.SetSearch | ViewModels/MainViewModel.cs:29-39 | an unchanged value does nothing; a new value is stored and restarts the debounce timer |
| MainViewModels.MainViewModel.ApplyFilter | ViewModels/MainViewModel.cs:73-87 | the filtered list becomes the views the trimmed search shows, in list order |
| MainViewModels.MainViewModel.FilterTimerElapsed | ViewModels/MainViewModel.cs:60-61 | the debounce timer firing applies the filter |
| MainViewModels.MainViewModel.BulkToggleVisible | ViewModels/MainViewModel.cs:157-172 | the disk and undo stack follow the bulk loop over a snapshot of the filtered views; each view's flag flips exactly when its toggle succeeded |
| MainViewModels.MainViewModel.ToggleEach | ViewModels/MainViewModel.cs:160-171 | the bulk loop over a snapshot of views with distinct records |
| MainViewModels.MainViewModel.VisitStep | ViewModels/MainViewModel.cs:162-170 | one visit extends the bulk result by that visit's effect |
| MainViewModels.MainViewModel.VisitOne | ViewModels/MainViewModel.cs:162-170 | a view without a file, or whose file is in use, is skipped; otherwise it is toggled and its flag flips on success |
| MainViewModels.MainViewModel.HandleToggleFromMap | ViewModels/MainViewModel.cs:180-191 | a blank ICAO, or one no record has, changes nothing; otherwise only the first matching view is toggled and no other flag changes |
| MainViewModels.MainViewModel.Undo | ViewModels/MainViewModel.cs:174-178 | undo through the shared file service |
| MainViewModels.MainViewModel.Refresh | ViewModels/MainViewModel.cs:106-155 | a cancelled refresh leaves the lists as they were; otherwise the list becomes one new view per matched record, in order, and the filter is re-applied; progress ends at zero either way |
| MainViewModels.MainViewModel.Install | ViewModels/MainViewModel.cs:130-139 | the list is replaced by new views of the records, in order, and the filter is re-applied |
| MainViewModels.MainViewModel.NewViews | ViewModels/MainViewModel.cs:133-137 | one new view per record, in order, sharing the file service |

## Left out

- The WPF window, the WebView map and its JSON messages, dependency injection, `RelayCommand`, settings persistence and logging are not modelled. They are UI and library plumbing; log messages are dropped.
- `MainViewModel.InitializeAsync` is not modelled: it only loads settings and calls `RefreshAsync` when either path is set.
- Asynchrony is not modelled: `async`/`await`, `Task.Yield`, `Task.Run`, `Dispatcher.Invoke`, and the 250 ms delay after a map toggle. Every operation runs to completion in order.
- The 300 ms debounce timer is a flag that `SetSearch` raises and `FilterTimerElapsed` clears. Its timing, and a timer firing during a refresh, are left out.
- Superseding one refresh's `CancellationTokenSource` with another's is left out. Cancellation is a boolean parameter.
- Scanner.ReadRows: cancellation is one flag for the whole refresh, so a cancellation arriving mid-scan is not modelled. A requested cancellation is observed when an existing CSV file is read (`Scanner.ScanCsv`, so the check in the row loop never fires), and by the check at the first file of discovery (`Scanner.FindBglFiles`).
- Scanner.ScanCsv: `DateTime.UtcNow` is a single `now` for all records, where the program reads the clock once per record. `double.TryParse` in the invariant culture is the `parse` parameter, and coordinates are `real`, not `double`.
- Scanner.ScanCsv: the lines of the file are an input (`None` when the file does not exist). Reading errors are not modelled.
- Scanner.FindBglFiles: the recursive directory enumeration is an input sequence in enumeration order (`None` when the folder does not exist).
- MainViewModels.MainViewModel.Refresh: `Progress` reports made during the scans are not kept (only the final reset to zero is). Read or enumeration errors, which the program catches as "Refresh failed", are not modelled.
- MainViewModels.MainViewModel.HandleToggleFromMap: the fire-and-forget toggle is modelled as finishing before the method returns.
- FileServices.BackupPath: the `yyyyMMddHHmmssfff` UTC stamp is a string parameter (one per visit in the bulk loop). The `Path.GetTempPath()` fallback, taken only for a root path without a directory, is left out.
- The disk compares paths exactly, whereas the Windows file system ignores case and normalises separators. Exception texts are fixed representative strings, not the operating system's own.
- FileServices.ToggleTarget: the program tests the lowered path with the culture-sensitive `EndsWith(".off")`, which is modelled as ordinal. Culture-sensitive comparison ignores characters such as U+200B, so in the program a path ending in `.off` followed by such a character counts as disabled but fails both ordinal tests, and its target stays the path itself. The model proves that branch unreachable and does not capture that case.
- Paths.FileName: only `\` and `/` end the directory part. `Path.GetFileName` on Windows also cuts after the volume separator of a drive-relative path (`C:x.bgl` gives `x.bgl`); the model keeps `C:x.bgl` whole. The community folder listing gives full paths, so only such drive-relative names differ.
- Case folding covers the ASCII letters only, not the full invariant-culture tables.
- `PropertyChanged` events are modelled only as the `changed`/`notified` results of the two setters.
