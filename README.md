# NSE report bot: file handling and retry logic in Dafny

This project models the core of the NSE report bot. The bot downloads the
daily "Reports-Daily-Multiple.zip" archive from the NSE site and unpacks it
into `<downloads>/NSE Reports/<date>`. It then sorts every report into a
folder named after its extension and checks where each file ended up. A
second script, `nse_automation.py`, does a similar job for an `extracted`
folder. It unpacks nested archives into `NestedExtracted`, moves each file
into a folder named after its upper-cased extension (or `OTHER`), and
removes the working folders afterwards.

The file system is a value, `FileSystem.Tree`. It has a map from paths to
files (plain data or a zip archive with its member list in archive order)
and a set of directories. Each library call the scripts make
(`os.makedirs`, `os.remove`, `os.rename`, `zipfile.extractall`,
`shutil.move`, `shutil.rmtree`, `open(..., "w")`, `os.walk`,
`os.path.splitext`, `os.path.join`) is a function on that value or, for
`os.walk`, `splitext` and `join`, a plain function of a tree or of names.
Each call that can fail returns the new tree or an error. The contracts of
`makedirs`, `remove`, `rename`, `move`, `rmtree` and `open` give the exact
success condition, the exact new tree, and an unchanged tree on failure.
`extractall` is the exception, because it is not atomic. Its contract bounds
what may change and says what success leaves. A failure part-way keeps the
members written before it.

Each script's behaviour is first written as pure specification functions
(`NseBotSpec`, `NseAutomationSpec`). These functions thread the tree and the
list of log lines. The classes `NseBot.Bot` and `NseAutomation.Automation`
then run the same steps imperatively. Their fields are the tree, the log and
the configured folders. Every method is proved to end in exactly the state
its specification function gives. The properties the scripts promise are
proved as lemmas about the specification functions (`NseBotProps`,
`NseAutomationProps`). `NseAutomationArchives` covers archives found in the
`extracted` folder: working inside `NestedExtracted` never touches a file
under `extracted`, so each archive is still intact when the walk reaches it.

Two behaviours of the code are modelled as written and proved as
properties:
- **A file already in its own bucket is deleted as its own duplicate.**
  When `process_and_segregate_files` restarts after a nested archive, a
  file already in its bucket `X/f.x` finds `X/f.x` present. It is then
  removed as a "duplicate" of itself (`FileInItsBucketIsDeleted`). A walk
  over such files deletes every one of them and logs one duplicate entry
  each (`WalkDeletesFilesInBuckets`).
- **An inner archive never completes.** In `extract_nested_zip`, an archive
  that contains a `*.zip` member re-extracts into the same `NestedExtracted`
  folder. It recurses until the recursion limit, so the call always raises
  (`ExtractNestedOfInnerArchive`).

A duplicate is detected by name only (`os.path.exists` on the target
path); the contents of the two files are never compared.

## Model

| member | source | states |
|---|---|---|
| Paths.Join | NSEBOT/App.py:64 | an absolute second part replaces the first; otherwise the result starts with the first part, ends with the second, and adds at most one `/`, placed right after a first part that does not end in `/` |
| Paths.LStripDots | NSEBOT/App.py:77 | the result is a suffix of the input that does not start with '.' |
| Paths.LStripDotsSpec | NSEBOT/App.py:77 | every character that `lstrip('.')` removes is a dot |
| Paths.Lower | NSEBOT/App.py:65 | lower-casing keeps the length |
| Paths.LowerSpec | NSEBOT/App.py:65 | each character is lower-cased in place |
| Paths.Upper | NSEBOT/App.py:77 | upper-casing keeps the length |
| Paths.UpperSpec | NSEBOT/App.py:77 | each character is upper-cased in place |
| Paths.UpperOfLower | nse_automation.py:50-51 | upper-casing after lower-casing equals upper-casing alone |
| Paths.Ext | NSEBOT/App.py:65 | `splitext`'s extension is a suffix of the name |
| Paths.ExtSpec | NSEBOT/App.py:65 | a non-empty extension starts at the last dot, has no other dot, and is not preceded only by dots; the extension is empty exactly when no dot follows a non-dot character |
| Paths.StrippedExt | nse_automation.py:50 | lower-casing and stripping dots gives nothing for an empty or bare "." extension, and the lower-cased text after the dot otherwise |
| Paths.Sorted | NSEBOT/App.py:62-63 | the walk order lists each file of the folder exactly once, in increasing path order |
| FileSystem.Walk | NSEBOT/App.py:62-63 | the walk yields exactly the files below the folder, each once |
| FileSystem.MakeDirs | NSEBOT/App.py:42 | `makedirs(exist_ok=True)` succeeds iff no file is at or above the path; it then makes that path and every ancestor a directory and adds no other |
| FileSystem.Remove | NSEBOT/App.py:46 | `os.remove` succeeds iff the file exists and then deletes only that file |
| FileSystem.Rename | NSEBOT/App.py:84 | `os.rename` succeeds iff the source is a file, the target is not a directory and its parent is; the content moves and nothing else changes |
| FileSystem.OpenForWrite | NSEBOT/App.py:58 | opening for writing truncates the file, or fails when its folder is missing or it is a directory |
| FileSystem.ExtractAll | NSEBOT/App.py:44-45 | `extractall` removes nothing, leaves files no member is written to unchanged, writes only member paths; on success every member is present and holds its data unless a later member has the same name (last writer wins) |
| FileSystem.RmTree | nse_automation.py:73 | `rmtree` of a directory removes exactly what lies below it, the directory included: every other file keeps its contents and every other directory survives |
| FileSystem.Move | nse_automation.py:54 | `shutil.move` is a rename onto a non-directory target and a move into a directory target; moving into a directory that already holds a file of that name fails with `DestinationExists` |
| FileSystem.OpenZip | NSEBOT/App.py:44 | opening succeeds iff the path holds an archive, and yields its members |
| NseBotSpec.UnpackLowersWeight | NSEBOT/App.py:67-73 | unpacking a nested archive strictly lowers the data held in `*.zip` files, so the restart recursion ends; the log only grows |
| NseBotSpec.ClassifyKeepsArchives | NSEBOT/App.py:81-97 | moving or de-duplicating a non-archive leaves every archive untouched and logs a plain line |
| NseBotSpec.PlaceKeepsArchives | NSEBOT/App.py:76-97 | placing a non-archive file keeps the archive weight and logs a plain line |
| NseBotSpec.LogNameIsNotArchive | NSEBOT/App.py:56 | the per-folder `Log.log` is never taken for a nested archive |
| NseBotSpec.Segregate | NSEBOT/App.py:54-100 | a segregation pass only appends non-attempt lines to the log and never raises the archive weight |
| NseBotSpec.SegregateWalk | NSEBOT/App.py:62-97 | the same for the walk over the remaining files |
| NseBotSpec.Advance | NSEBOT/App.py:76-97 | the same for the step on a non-archive file |
| NseBotSpec.Restart | NSEBOT/App.py:67-74 | the same for the nested-archive restart |
| NseBotSpec.Checked | NSEBOT/App.py:104-107 | the files validation reports on are exactly the walked files with an extension |
| NseBotSpec.ValidateLinesPlain | NSEBOT/App.py:102-113 | validation logs no download-attempt lines |
| NseBotSpec.FindAndProcess | NSEBOT/App.py:29-52 | processing the download only appends non-attempt lines to the log |
| NseBotSpec.ExtCountsStep | NSEBOT/App.py:166-167 | counting one more file adds one to its extension's count |
| NseBotProps.BucketOfName | NSEBOT/App.py:65-77 | a file's bucket is the upper-cased extension without its dot under the date folder, or the date folder itself when there is no extension |
| NseBotProps.PlaceUsesCache | NSEBOT/App.py:76-81 | an extension already seen reuses its cached bucket without touching the disk |
| NseBotProps.PlaceCreatesBucket | NSEBOT/App.py:76-81 | a new extension creates its bucket, caches it, and fails iff `makedirs` fails |
| NseBotProps.PlaceKeepsCache | NSEBOT/App.py:76-79 | the cache only ever maps an extension to its own bucket, and gains exactly the file's extension |
| NseBotProps.PlaceFolders | NSEBOT/App.py:76-79 | the cache is unchanged for a known extension and extended for a new one |
| NseBotProps.ClassifyMoves | NSEBOT/App.py:82-89 | with no target present, the file moves with its contents, nothing else changes, and the line says so; on failure nothing changes and an error line is logged |
| NseBotProps.ClassifyDuplicate | NSEBOT/App.py:90-97 | with a target present, the source is deleted and the target kept, or the removal error is logged |
| NseBotProps.FileInItsBucketIsDeleted | NSEBOT/App.py:81-94 | a file already at its bucket path is removed as a duplicate of itself |
| NseBotProps.AdvanceInOwnBucket | NSEBOT/App.py:76-94 | one step of the walk on such a file either aborts or deletes it, logs its duplicate entry and goes on with the rest of the snapshot |
| NseBotProps.WalkDeletesFilesInBuckets | NSEBOT/App.py:62-94 | a walk whose snapshot holds only files in their own buckets either aborts or deletes exactly those files and logs one duplicate entry per file, in walk order |
| NseBotProps.UnpackNestedResult | NSEBOT/App.py:67-72 | a nested archive that opens and extracts is removed, every member other than it appears under the date folder, and one line is logged; otherwise the log is unchanged |
| NseBotProps.SegregateStaysWithin | NSEBOT/App.py:54-100 | segregation never changes a file outside the date folder |
| NseBotProps.WalkStaysWithin | NSEBOT/App.py:62-97 | the walk never changes a file outside the date folder |
| NseBotProps.ClassifyStaysWithin | NSEBOT/App.py:81-97 | a move or removal inside the folder changes nothing outside it |
| NseBotProps.PlaceStaysWithin | NSEBOT/App.py:76-97 | placing a file changes nothing outside the date folder |
| NseBotProps.UnpackStaysWithin | NSEBOT/App.py:67-72 | unpacking a nested archive changes nothing outside the date folder |
| NseBotProps.FindWithoutArchive | NSEBOT/App.py:32-35 | nothing is found iff the archive is missing; then only the not-found line is logged |
| NseBotProps.FindProcessedFiles | NSEBOT/App.py:40-50 | after processing, the archive is gone and every file outside the date folder is unchanged |
| NseBotProps.FindProcessedLog | NSEBOT/App.py:38-51 | the log gains the waiting and extracted lines first and ends with the validation lines |
| NseBotProps.ValidateLineReports | NSEBOT/App.py:105-113 | a file without an extension is skipped; otherwise one correct or not-moved line is logged |
| NseBotProps.ValidateReportsChecked | NSEBOT/App.py:102-113 | validation logs exactly one report per checked file, in walk order |
| NseBotProps.TryAttemptLog | NSEBOT/App.py:125-153 | an attempt logs its numbered start line and then only plain lines |
| NseBotProps.DownloadTries | NSEBOT/App.py:124-160 | the loop makes between one and three attempts, and all three when it fails |
| NseBotProps.DownloadGivesUp | NSEBOT/App.py:159-160 | a failed run ends with the all-attempts-failed line |
| NseBotProps.DownloadLogsAttempts | NSEBOT/App.py:124-126 | the log grows and holds exactly the attempt lines numbered 1 to the number of tries |
| NseBotProps.DownloadOkFrom | NSEBOT/App.py:124-153 | the run succeeds iff some remaining attempt succeeds |
| NseBotProps.DownloadStopsFrom | NSEBOT/App.py:147-149 | on success the run stops at the first attempt that succeeds |
| NseBotProps.DownloadLeavesFrom | NSEBOT/App.py:147-149 | on success the state is the one that attempt left |
| NseBotProps.DownloadFailsFrom | NSEBOT/App.py:124-160 | on failure the state is the one after three attempts plus the give-up line |
| NseBotProps.DownloadFirstSuccess | NSEBOT/App.py:124-160 | from the start, the result is success iff some attempt succeeds, and then it is the first such attempt and its state; otherwise it is failure after all three |
| NseBotProps.DownloadWithoutBrowser | NSEBOT/App.py:124-158 | if the browser raises in every attempt, the run fails after three tries, and the tree is unchanged when no click happened |
| NseBotProps.ExtCountsCount | NSEBOT/App.py:162-168 | the summary maps each extension to the number of walked files with it, and has no other keys |
| NseBot.Bot.constructor | NSEBOT/App.py:16 | a bot starts with the given folders and tree and an empty log |
| NseBot.Bot.LogMessage | NSEBOT/App.py:22-24 | a message is appended to the log |
| NseBot.Bot.ProcessAndSegregateFiles | NSEBOT/App.py:54-100 | the method ends in the state and outcome of `Segregate` |
| NseBot.Bot.WalkFiles | NSEBOT/App.py:62-97 | the walk loop ends as `SegregateWalk` |
| NseBot.Bot.VisitFile | NSEBOT/App.py:63-97 | one file is handled as in `SegregateWalk`, restarting after a nested archive |
| NseBot.Bot.UnpackNestedZip | NSEBOT/App.py:67-72 | a nested archive is unpacked as in `UnpackNested` |
| NseBot.Bot.PlaceFile | NSEBOT/App.py:76-97 | a file is placed as in `Place` |
| NseBot.Bot.ClassifyFile | NSEBOT/App.py:81-97 | a file is moved or de-duplicated as in `Classify` |
| NseBot.Bot.ValidateFiles | NSEBOT/App.py:102-113 | the log gains the validation lines for the walked files |
| NseBot.Bot.ValidateEach | NSEBOT/App.py:103-113 | the loop appends the validation lines for each file in order |
| NseBot.Bot.ValidateFile | NSEBOT/App.py:105-113 | one file's validation line is appended |
| NseBot.Bot.FindAndProcessZip | NSEBOT/App.py:29-52 | the method ends as `FindAndProcess` |
| NseBot.Bot.DownloadNseReports | NSEBOT/App.py:124-160 | the retry loop ends as `Download` |
| NseBot.Bot.RunOneAttempt | NSEBOT/App.py:125-158 | one attempt, including the quit in `finally`, ends as `RunAttempt` |
| NseBot.Bot.TryOneAttempt | NSEBOT/App.py:125-153 | the body of the `try` ends as `TryAttempt` |
| NseBot.Bot.BrowserSteps | NSEBOT/App.py:127-143 | the browser's progress lines are logged and the download lands only once the button was clicked |
| NseBot.Bot.GetExtensionSummary | NSEBOT/App.py:162-168 | the loop's counts equal `ExtCounts` of the walked files |
| NseAutomationProps.TypeFolderOfName | nse_automation.py:50-51 | the folder is `OTHER` for no extension or a bare dot, and otherwise the extension after its dot, upper-cased |
| NseAutomationProps.TypeFolderIsNotWorking | nse_automation.py:50-52 | no type folder is named `extracted` or `NestedExtracted` |
| NseAutomationProps.OrganizeMoves | nse_automation.py:52-55 | organizing succeeds iff the file exists and nothing blocks its type folder; then only that file moves into the folder and one line is logged; on failure nothing changes |
| NseAutomationProps.OrganizeReaches | nse_automation.py:52-54 | after a successful organize, the file's target path exists |
| NseAutomationProps.OrganizeKeeps | nse_automation.py:49-55 | organizing a working file loses no file outside the working folders |
| NseAutomationProps.UnpackFacts | nse_automation.py:59-62 | unpacking loses no file, needs an archive, and adds exactly its members under the nested folder |
| NseAutomationProps.RmTreeKeeps | nse_automation.py:73 | removing a working folder loses no file outside it |
| NseAutomationProps.ExtractNestedUnfold | nse_automation.py:58-73 | one level of `extract_nested_zip` is an unpack followed by a sweep of the nested folder |
| NseAutomationProps.ExtractNestedKeeps | nse_automation.py:58-73 | nested extraction loses no file outside the working folders |
| NseAutomationProps.SweepFolderKeeps | nse_automation.py:65-73 | sweeping a working folder loses no file outside the working folders |
| NseAutomationProps.SweepKeeps | nse_automation.py:66-72 | the same for the file loop |
| NseAutomationProps.ProcessExtractedKeeps | nse_automation.py:76-88 | processing the extracted folder loses no file outside the working folders |
| NseAutomationProps.SweepOrganizes | nse_automation.py:66-72 | a sweep over plain files that does not raise files every one of them |
| NseAutomationProps.SweepLogsMoves | nse_automation.py:66-72 | such a sweep logs exactly one moved line per file, in order |
| NseAutomationProps.SweepFolderOrganizes | nse_automation.py:65-73 | a folder of plain files that does not raise has every file filed, is emptied and removed, and logs one line per file |
| NseAutomationProps.ExtractNestedOrganizes | nse_automation.py:58-73 | an archive of plain members that does not raise has every member filed and leaves no nested folder |
| NseAutomationProps.ProcessExtractedOrganizes | nse_automation.py:76-88 | for an `extracted` folder without archives: a missing folder is a no-op; otherwise a run that does not raise files every file, removes the folder and logs the processing line then one line per file |
| NseAutomationArchives.ProcessExtractedFiles | nse_automation.py:76-88 | for any `extracted` folder, archives included: a run that does not raise leaves something at `<base>/<TYPE>/<name>` for every non-archive file and for every member of an archive of plain members; no file is left under `extracted`, so each archive is gone, and the folder is removed |
| NseAutomationArchives.SweepExtractedFiles | nse_automation.py:80-87 | the walk of `extracted`, when it does not raise, files every file it visits, judged against the tree it started from |
| NseAutomationArchives.SweepOneFiles | nse_automation.py:82-87 | one file of that walk is filed: a non-archive has something at `<base>/<TYPE>/<name>`, and so does every member of an archive of plain members |
| NseAutomationArchives.SweepOneKeepsOthers | nse_automation.py:82-87 | one turn of that walk leaves every other file under `extracted` as it was |
| NseAutomationArchives.OrganizeKeepsOthers | nse_automation.py:49-55 | moving one file changes no other file under `extracted` |
| NseAutomationArchives.UnpackKeepsExtracted | nse_automation.py:59-62 | creating `NestedExtracted` and extracting into it changes no file under `extracted` |
| NseAutomationArchives.RmNestedKeepsExtracted | nse_automation.py:73 | removing `NestedExtracted` changes no file under `extracted` |
| NseAutomationArchives.ExtractNestedKeepsExtracted | nse_automation.py:58-73 | `extract_nested_zip` changes no file under `extracted`, so every archive still to be visited holds what it held |
| NseAutomationArchives.SweepNestedKeepsExtracted | nse_automation.py:65-73 | the same for the walk of `NestedExtracted` and its removal |
| NseAutomationArchives.SweepKeepsExtracted | nse_automation.py:66-72 | the same for the file loop of that walk |
| NseAutomationArchives.SweepOneKeepsExtracted | nse_automation.py:67-72 | the same for one file of that walk |
| NseAutomationArchives.ExtractNestedCleanStart | nse_automation.py:65-70 | `extract_nested_zip` returns only when recursion is left and no `*.zip` file was already waiting under `NestedExtracted` |
| NseAutomationProps.ExtractNestedRaises | nse_automation.py:58-70 | extracting an archive that sits in the nested folder always raises |
| NseAutomationProps.SweepFolderRaises | nse_automation.py:65-70 | a nested folder holding an archive always makes the sweep raise |
| NseAutomationProps.SweepRaises | nse_automation.py:66-70 | the same for the file loop |
| NseAutomationProps.ExtractNestedOfInnerArchive | nse_automation.py:58-73 | an archive with a `*.zip` member always raises |
| NseAutomationProps.DriverSucceedsIff | nse_automation.py:25-46 | the driver starts iff some try from the current one up to the fourth succeeds |
| NseAutomationProps.DriverAttempts | nse_automation.py:25-46 | the log only grows, at most four initialization lines are logged, and exactly four when every try fails |
| NseAutomation.Automation.constructor | nse_automation.py:21-22 | starts with the given tree and an empty log |
| NseAutomation.Automation.OrganizeFilesByType | nse_automation.py:49-55 | ends as `Organize` |
| NseAutomation.Automation.ExtractNestedZip | nse_automation.py:58-73 | ends as `ExtractNested` |
| NseAutomation.Automation.ExtractAndSweep | nse_automation.py:59-73 | one level below the recursion limit ends as `ExtractNestedBody` |
| NseAutomation.Automation.UnpackArchive | nse_automation.py:59-62 | the tree is that of `Unpack`, and the method raises iff `Unpack` fails |
| NseAutomation.Automation.SweepAndRemove | nse_automation.py:65-73 | ends as `SweepFolder` |
| NseAutomation.Automation.SweepFiles | nse_automation.py:66-72 | ends as `Sweep` |
| NseAutomation.Automation.SweepFile | nse_automation.py:67-72 | ends as `SweepOne` |
| NseAutomation.Automation.ProcessExtractedFolder | nse_automation.py:76-88 | ends as `ProcessExtracted` |
| NseAutomation.Automation.InitializeDriver | nse_automation.py:25-46 | the retry recursion ends as `Driver`: true when a driver is returned, false when the last retry raises |

## Left out

- The browser (Selenium, `ChromeDriverManager`, Chrome options, page loads, waits) is not modelled. Each download attempt's outcome is an input: where the browser raised, whether the click happened, what arrived in the downloads folder, and whether `quit` raised. `time.sleep` is left out.
- In `initialize_driver`, each try's outcome (the driver or an error text) is an input. The returned driver object is not modelled.
- Timestamps, `print`, and the writes to `process_log.log` and to the `Log.log` contents are left out. `Log.log` is an ordinary file, emptied at the start of each pass. The log is the list of message texts.
- The Streamlit interface, users and login, `main` and `find_latest_folder` are not part of this model.
- Exception texts are a fixed rendering of an error kind (`FileSystem.Describe`), not the operating system's wording.
- `os.walk` is modelled as a snapshot of the files below the folder, taken at the start of the walk and visited in path order. The real walk is lazy, top-down and in directory order.
- In `extract_nested_zip`, Python's recursion limit is modelled as a fuel count. Running out of fuel raises, as a `RecursionError` would.
- The restart recursion of `process_and_segregate_files` (NSEBOT/App.py:73) has no such limit in the model. It ends because every restart lowers the archive weight (`ZipWeight`). Archives nested deeper than the interpreter's limit therefore complete in the model, where Python would raise `RecursionError`.
- FileSystem.ExtractAll: no exact success condition is stated. A failed extraction keeps the members written before the failing one, as `zipfile.extractall` does. The contract bounds the resulting tree rather than giving it exactly.
- The file system is case-sensitive and has no links or permissions. Case mapping covers ASCII letters only.
- Archive internals (compression, CRC checks, members that are directories) are not modelled. An archive is its member list.
- NseAutomationProps.OrganizeMoves: stated only for targets that are not existing directories. Moving into an existing directory of the same name is covered by `FileSystem.Move` alone.
- NseAutomationProps.ProcessExtractedOrganizes: the exact log is stated only for an `extracted` folder without archives. Archives (nse_automation.py:83-85) are covered by `NseAutomationArchives.ProcessExtractedFiles`, which states where files end up but not the log.
- NseAutomationArchives.ProcessExtractedFiles: members are promised a path `<base>/<TYPE>/<name>` only for archives whose members have non-empty names and are not archives themselves; an inner archive always raises (`ExtractNestedOfInnerArchive`). Where a member name occurs twice, or a member shares its name with another file, only that some file sits at the target is promised, not which one.
- NseAutomationProps.ExtractNestedOrganizes: stated only for archives whose members have non-empty names and are not archives themselves. An inner archive is covered by `ExtractNestedOfInnerArchive`.
