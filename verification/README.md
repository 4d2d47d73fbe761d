# Passiflora: plant database sync, licence check and main-window rules

Passiflora is a Qt desktop database for plant collections. This project
models four parts of it in Dafny and proves properties about them.

- **The update manager.** It keeps at most one network request in flight and
  remembers which request that is in a one-slot "current operation". Each
  completion is handled according to that slot:
  - the update check;
  - the update metadata;
  - the plant database file, replaced with a backup kept and restored on failure;
  - the image licence manifest;
  - one image file after another;
  - the changelog;
  - the event notices.
- **The database sync dialog.** This wizard drives the manager step by step.
  Its slots turn each manager signal into the next request. It reads the
  stored manifest and works out which images are missing locally. It clears
  the "last sync aborted" setting only once the notices arrive. The manager
  and the dialog are also composed into one system, with signals delivered
  synchronously and in order, as Qt direct connections do.
- **The licence check.** The expected key is derived from SHA-1 of the concatenated
  SHA-1 digests of the name and the e-mail: every third digest byte, a byte-substitution
  table, and the quirks of `QByteArray::append(QChar)` and
  `QString(QByteArray)`. Also modelled: the activation dialog's button rule and
  its accept path.
- **The pure parts of the main window.**
  - The search filter built from the search box (`searchSlot`).
  - Multi-row delete and duplicate, with the 100-row undo limit and
    cancellation through the progress dialog.
  - The gated "check for updates" slot and how its outcome reaches the
    status bar.

## Files and modules

- Shared vocabulary and string handling:
  - `common.dfy` (`Common`): `Option`, `byte` and `u64`.
  - `qtstring.dfy` (`QtString`): the Qt 5 string operations used:
    `trimmed`, `split(SkipEmptyParts)`, `toULongLong`, `QString::number`,
    `truncate`, `remove`, and the conversions between text and bytes
    (`QString(QByteArray)`, which decodes UTF-8, and `toLatin1`).
  - `json.dfy` (`Json`): JSON values and Qt's lenient accessors.
- Environment and constants:
  - `localstore.dfy` (`LocalStore`): files with `QFile` semantics, with
    oracles for the platform refusals, plus the persisted sync settings.
  - `definitions.dfy` (`Definitions`): URLs, the build number and
    `APP_STORE`.
- The update pipeline:
  - `updatemanager.dfy` (`UpdateManager`): the manager as a pure transition
    function that returns its effects in order.
  - `updateproperties.dfy` (`UpdateProperties`): branch-by-branch properties
    of the completion handler, and the image queue drained to the end.
  - `databasesync.dfy` (`DatabaseSync`): the sync dialog's slots and buttons.
  - `pipeline.dfy` (`Pipeline`): the manager and the dialog wired together,
    with whole-system invariants.
- `activation.dfy` (`Licensing`): the key derivation, activation and the
  activation dialog.
- `mainwindow.dfy` (`MainWindow`): search, delete and duplicate, and the
  update-check gate.

Parameters stand in for the environment:
- SHA-1, upper-casing and JSON text parsing are functions passed in. They are
  `Hashing` and `parseJson`.
- File-system refusals are sets of paths (`Faults`).
- The user's answers are `bool` parameters: the confirmation boxes and the
  software-download question.
- Cancelling a progress dialog is a count of steps (`cancelAfter`).
- The iteration order of a `QSet` is a sequence (`order`).

## Model

| member | source | states |
|---|---|---|
| QtString.TrimmedEmptyIffAllSpace | widgets/activationdialog.cpp:34-36 | a trimmed field is empty exactly when every character is white space in `QChar::isSpace`'s sense |
| QtString.SplitSkipEmpty | components/updatemanager.cpp:321 | splitting on a separator with empty parts skipped yields non-empty pieces free of the separator |
| QtString.SplitConcatenation | components/updatemanager.cpp:321 | the pieces written one after another are the text with every separator removed, so nothing but separators is lost and the order is kept |
| QtString.JoinOfSplit | components/updatemanager.cpp:321 | when the text neither starts nor ends with the separator and has no two adjacent ones, joining the pieces with the separator gives the text back |
| QtString.SplitJoin | components/updatemanager.cpp:321 | splitting undoes joining for non-empty separator-free pieces |
| QtString.SplitWithoutSeparator | components/updatemanager.cpp:321-323 | a text without the separator is one piece, or none when empty |
| QtString.ToULongLongIsPaddedDecimal | components/updatemanager.cpp:326-328 | whatever converts to n is, after trimming and dropping one '+', some zeros followed by the decimal spelling of n |
| QtString.ToULongLongOfPaddedDecimal | components/updatemanager.cpp:326-328 | conversely, any number of zeros followed by the decimal spelling of a 64-bit value converts to that value |
| QtString.DecimalRoundTrip | components/updatemanager.cpp:326-328 | reading back the decimal spelling of a number gives the number |
| QtString.ToULongLongOfDecimal | components/updatemanager.cpp:326-328 | every 64-bit value printed in decimal converts back to itself |
| QtString.Truncated | widgets/databasesyncdialog.cpp:166-168 | `truncate(n)` keeps exactly the first min(n, length) characters |
| QtString.RemovedFront | widgets/databasesyncdialog.cpp:166-168 | `remove(0, n)` drops the first n characters, and nothing when n is negative |
| QtString.RemoveChar | widgets/mainwindow.cpp:941 | the character no longer occurs, every other character still occurs, and the length drops by the number of occurrences removed |
| QtString.RemoveCharAppend | widgets/mainwindow.cpp:941 | removing a character from a concatenation removes it from each part, so the order of the kept characters is unchanged |
| QtString.RemoveCharCounts | widgets/mainwindow.cpp:941 | every other character keeps its number of occurrences, and the removed one has none |
| QtString.FromByteArray | components/updatemanager.cpp:122 | the text of a byte array is empty exactly when the bytes are empty or start with NUL, never holds NUL, and has no more characters than there are bytes |
| QtString.Utf8CharDecodes | components/activationmanager.cpp:105-110 | the UTF-8 encoding of one character, whatever follows it, is read back as that character and uses up exactly its own bytes |
| QtString.Utf8RoundTrip | components/updatemanager.cpp:269-272 | a text without NUL, encoded as UTF-8 and read back, is the same text |
| QtString.Latin1 | components/activationmanager.cpp:58-62 | `toLatin1` gives one byte per UTF-16 code unit: characters below 256 keep their code, every other unit becomes '?' |
| QtString.Latin1RoundTrip | components/activationmanager.cpp:58-62 | a text of Latin-1 characters converts to bytes and back unchanged |
| QtString.ReplaceChar | widgets/mainwindow.cpp:934-936 | every occurrence is replaced, every other character kept, the length unchanged |
| LocalStore.Remove | components/updatemanager.cpp:225-230 | removal succeeds exactly for an existing, removable file, and failure changes nothing |
| LocalStore.Copy | components/updatemanager.cpp:231-235 | copy never overwrites: it succeeds exactly when the source exists and the destination does not and is allowed |
| LocalStore.WriteFile | components/updatemanager.cpp:237-245 | writing succeeds exactly when the path can be opened, and replaces the contents |
| LocalStore.ReadFile | widgets/databasesyncdialog.cpp:133-137 | reading gives the stored bytes exactly when the file exists and can be opened |
| LocalStore.RemoveEach | widgets/databasesyncdialog.cpp:325-330 | every removable obsolete file is gone, every other file keeps its contents |
| UpdateManager.OpOrdinalInjective | components/updatemanager.h:144-153 | the eight operations are pairwise distinct, and only `NoOp` has value 0 |
| UpdateManager.NewManager | components/updatemanager.cpp:295-307 | a new manager has no operation in flight, all-zero metadata and an empty queue |
| UpdateManager.UrlPath | components/updatemanager.cpp:176 | the path of a URL is its longest prefix without '?' or '#', ending where the query or fragment starts |
| UpdateManager.UrlFileName | components/updatemanager.cpp:176 | the file name of a URL is a trailing segment of its path: it holds no '/', no '?' and no '#' |
| UpdateManager.UrlFileNameOfAppended | components/updatemanager.cpp:176 | a name without '/', '?', '#' or '%' appended to a base ending in '/' without query or fragment is the file name of the URL built at line 350 |
| UpdateManager.UrlFileNameLosesQuery | components/updatemanager.cpp:176 | a name holding '?' or '#' is never the file name of the URL built from it |
| Definitions.ImageUrlIsPlain | utils/definitionholder.cpp:27 | the image directory URL ends in '/' and has no query or fragment |
| UpdateManager.RemoveOneMultiset | components/updatemanager.cpp:190 | `removeOne` takes away exactly one copy of the name when there is one |
| UpdateManager.ParseWithoutSeparator | components/updatemanager.cpp:321-323 | a response without ';' fails and the slot keeps its old metadata |
| UpdateManager.ParseFirstFieldOnly | components/updatemanager.cpp:324-334 | three pieces of which only the first converts still succeed, with the build stored and the two other numbers stored as 0 |
| UpdateManager.ParseNothingConverts | components/updatemanager.cpp:324-334 | three pieces none of which converts fail, yet overwrite the slot with zeros |
| UpdateManager.ParseFormatRoundTrip | components/updatemanager.cpp:314-335 | parsing the server's "build;revision;minbuild" format yields exactly the metadata it was written from |
| UpdateManager.ParseIgnoresExtraFields | components/updatemanager.cpp:321-330 | pieces after the third do not change the result |
| UpdateManager.StartNetworkRequest | components/updatemanager.cpp:337-345 | one GET is issued and its operation is recorded in the slot |
| UpdateManager.DownloadImageFile | components/updatemanager.cpp:347-352 | the file is announced, then requested from the image directory |
| UpdateManager.RequestPlantImageFiles | components/updatemanager.cpp:74-87 | the list replaces the queue; an empty list reports completion, otherwise the step count is announced and the first file requested |
| UpdateManager.DecisionEffects | components/updatemanager.cpp:136-171 | no decision issues a request, and nothing happens only for a withheld database update or a declined software update |
| UpdateProperties.SlotHoldsLastRequest | components/updatemanager.cpp:106-109 | after any completion the slot names the last request issued, and only an image completion can leave one in flight |
| UpdateProperties.OtherCompletionsRequestNothing | components/updatemanager.cpp:106-280 | every completion except a successful image download issues no request and leaves the slot empty |
| UpdateProperties.TransportErrorReportsNetworkError | components/updatemanager.cpp:111-119 | a transport error on any operation except the update check only reports a network error |
| UpdateProperties.CheckFailureReportsUpdateError | components/updatemanager.cpp:121-133 | an empty or unparseable check response emits only the update error |
| UpdateProperties.CheckDecisionOutcome | components/updatemanager.cpp:134-171 | each signal of a parsed update check is emitted exactly when its condition on build, revision, aborted flag and minimum build holds |
| UpdateProperties.DecisionSignals | components/updatemanager.cpp:136-171 | each decision's effects, each stated as an if-and-only-if on the metadata |
| UpdateProperties.MetadataRequestReportsStoredMetadata | components/updatemanager.cpp:173-174 | the metadata-only request hands the stored metadata on without reading the body |
| UpdateProperties.ImageWritten | components/updatemanager.cpp:175-201 | a writable image is stored and dropped from the queue, one step is counted, then the next file is requested or completion reported |
| UpdateProperties.ImageWriteRefused | components/updatemanager.cpp:178-184 | an image that cannot be written reports the write error and changes nothing |
| UpdateProperties.DatabaseReplaced | components/updatemanager.cpp:217-266 | the connection is closed first and reopened last; success and the new revision happen exactly when the replacement does not fail, and a backup of the old file is left behind |
| UpdateProperties.DatabaseReplacedFrame | components/updatemanager.cpp:217-266 | the database completion changes no file but the database and its backup, and nothing in the store but the files and the revision |
| UpdateProperties.ReplaceDatabaseFrame | components/updatemanager.cpp:225-245 | the remove, copy and overwrite touch only the database and its backup |
| UpdateProperties.FailedReplacementRestoresBackup | components/updatemanager.cpp:247-259 | when the overwrite fails after a backup, the old database is put back |
| UpdateProperties.FailedBackupKeepsOverwrite | components/updatemanager.cpp:231-259 | when no backup can be made, the overwrite still happens and an error is reported with the old revision kept |
| UpdateProperties.QueryNameRequestedAgain | components/updatemanager.cpp:176-198 | a queued name holding '?' or '#' is written under another name, stays at the head of the queue, and is requested again |
| UpdateProperties.DrainQueue | components/updatemanager.cpp:175-201 | a queue of n writable names without '/', '?', '#' or '%' is drained by exactly n successful completions, counting n steps and reporting completion last |
| UpdateProperties.DrainWritesFiles | components/updatemanager.cpp:175-201 | after draining such a queue, every queued file holds its body |
| UpdateProperties.DrainKeepsOtherFiles | components/updatemanager.cpp:175-201 | draining such a queue leaves every file outside the queue unchanged |
| UpdateProperties.ImageBatchCountsEveryStep | components/updatemanager.cpp:74-87 | the announced maximum step count equals the number of increments the batch then emits |
| DatabaseSync.NewDialog | widgets/databasesyncdialog.cpp:23-37 | a new dialog is running, with revision 0 and no image records |
| DatabaseSync.ParseImageMetadataJson | widgets/databasesyncdialog.cpp:275-290 | one record per element of the "plant" array, read through the lenient JSON accessors |
| DatabaseSync.ManifestRoundTrip | widgets/databasesyncdialog.cpp:275-290 | reading a published manifest gives back exactly its records, in order |
| DatabaseSync.NonObjectManifestIsEmpty | widgets/databasesyncdialog.cpp:277-279 | a document whose root is not an object yields no records |
| DatabaseSync.FilesToDownload | widgets/databasesyncdialog.cpp:300-315 | a name is downloaded exactly when the manifest lists it and it is not held locally |
| DatabaseSync.FilesToDownloadCounts | widgets/databasesyncdialog.cpp:300-315 | each missing name is downloaded as often as the manifest lists it, and manifest order is kept |
| DatabaseSync.StatusLabelShape | widgets/databasesyncdialog.cpp:163-171 | long names show their first and last seven characters around "..."; short ones show in full twice |
| DatabaseSync.StartDatabaseSync | widgets/databasesyncdialog.cpp:264-273 | starting marks the sync aborted and asks for the server's metadata |
| DatabaseSync.SyncMetadataResponse | widgets/databasesyncdialog.cpp:76-101 | the server revision is cached; the dialog rejects when the database needs a newer build, yet still requests the file |
| DatabaseSync.ImageMetadataReady | widgets/databasesyncdialog.cpp:122-156 | an unreadable or unparseable manifest rejects; otherwise the records are kept and exactly the missing files are requested |
| DatabaseSync.SetDatabaseDownloadComplete | widgets/databasesyncdialog.cpp:317-340 | the aborted flag is cleared, obsolete files removed, and "next" enabled |
| DatabaseSync.OnButton | widgets/databasesyncdialog.cpp:45-74 | accepting the licence starts the sync, cancel rejects, finish accepts, and "next" only turns the page |
| DatabaseSync.ButtonsKeepAbortedFlag | widgets/databasesyncdialog.cpp:45-74 | no sequence of button presses clears the aborted flag |
| DatabaseSync.StepChain | widgets/databasesyncdialog.cpp:103-214 | which call each manager signal leads to, and that every error signal rejects the dialog |
| DatabaseSync.OnlyNoticesClearAbortedFlag | widgets/databasesyncdialog.cpp:209-262 | every slot except the notices slot leaves the local store untouched |
| Pipeline.SyncStarted | widgets/databasesyncdialog.cpp:264-273 | starting the sync issues the metadata request and marks the sync aborted |
| Pipeline.MetadataCompletion | widgets/databasesyncdialog.cpp:76-101 | the metadata reply leads to the database request, with the dialog rejecting when the build is too old |
| Pipeline.DatabaseCompletion | components/updatemanager.cpp:217-266 | the database reply either stores the revision and requests the manifest, or rejects the dialog and stops |
| Pipeline.ManifestCompletion | widgets/databasesyncdialog.cpp:122-156 | the manifest is stored, read back and parsed, and the first missing image (or the changelog) is requested |
| Pipeline.ManifestWriteRefused | widgets/databasesyncdialog.cpp:158-161 | a manifest that cannot be stored rejects the dialog and stops the sync |
| Pipeline.ImageFileCompletion | components/updatemanager.cpp:175-201 | a written image leads to the next image or, when the queue is empty, to the changelog |
| Pipeline.ImageFileRefused | widgets/databasesyncdialog.cpp:183-186 | an image that cannot be written rejects the dialog and stops the sync |
| Pipeline.ChangelogCompletion | widgets/databasesyncdialog.cpp:197-207 | the changelog text becomes the update notes and the notices are requested |
| Pipeline.EventsCompletion | widgets/databasesyncdialog.cpp:209-214 | the notices end the sync: notes shown, aborted flag cleared, obsolete files removed, nothing requested |
| Pipeline.TransportErrorRejects | widgets/databasesyncdialog.cpp:103-106 | a transport error on any sync step rejects the dialog and changes nothing else |
| Pipeline.CheckCompletion | components/updatemanager.cpp:121-171 | an update check completion leaves the dialog and the store alone, and opens the download page exactly when a newer build is accepted |
| Pipeline.StrayCompletion | components/updatemanager.cpp:274-276 | a successful completion with no operation in flight changes nothing |
| Pipeline.AbortedFlagClearedOnlyByNotices | widgets/databasesyncdialog.cpp:317-320 | across any completion, the aborted flag changes only when the notices arrive, and then it is cleared |
| Pipeline.OneRequestInFlight | components/updatemanager.cpp:104-109 | every completion sends out at most one request, and the slot names it |
| Pipeline.FlagSurvivesUntilNotices | widgets/databasesyncdialog.cpp:264-273 | until the notices arrive, no run of completions clears the aborted flag |
| Pipeline.InterruptedSyncIsOfferedAgain | components/updatemanager.cpp:136-160 | a sync that never received its notices makes the next update check offer the database again |
| Licensing.SelectEveryThird | components/activationmanager.cpp:65-69 | the loop picks the bytes at positions 0, 3, 6 and so on, in order |
| Licensing.SevenOfTwenty | components/activationmanager.cpp:65-69 | a 20-byte digest yields exactly the seven bytes at 0, 3, …, 18 |
| Licensing.Substitute | components/activationmanager.cpp:71-107 | the listed bytes map to their replacement characters, every other byte to itself |
| Licensing.AppendedBytes | components/activationmanager.cpp:71-108 | appending a character below 0x80 adds one byte, and one above adds its two-byte UTF-8 encoding |
| Licensing.TransformText | components/activationmanager.cpp:71-110 | the key text is the substituted characters up to, not including, the first NUL |
| Licensing.KeyTextLength | components/activationmanager.cpp:71-110 | without NUL bytes the key has exactly one character per selected byte |
| Licensing.CheckLicenseKey | components/activationmanager.cpp:53-111 | a key is accepted exactly when it equals the upper-cased text derived from the name and e-mail |
| Licensing.ActivateSoftware | components/activationmanager.cpp:33-46 | activation succeeds exactly for a valid key; the licence is stored on success and kept on failure |
| Licensing.ActivationIsRemembered | components/activationmanager.cpp:24-46 | after a successful activation the software reports itself active and valid |
| Licensing.ButtonEnabled | widgets/activationdialog.cpp:32-39 | the activate button is enabled exactly when no field is blank after trimming |
| Licensing.TextChanged | widgets/activationdialog.cpp:19-24 | editing one field changes that field only |
| Licensing.ButtonFollowsFields | widgets/activationdialog.cpp:19-39 | after any edits the button state is the rule applied to the current fields |
| Licensing.ActivateClicked | widgets/activationdialog.cpp:41-58 | the dialog accepts, and the licence is stored, exactly when the trimmed key checks out |
| Licensing.AcceptedDialogActivates | widgets/activationdialog.cpp:41-58 | an accepted dialog leaves the software active and valid |
| MainWindow.SearchKey | widgets/mainwindow.cpp:934-941 | the key has no quote, has no comma when the comma is the decimal point, and is shorter by the number of quotes |
| MainWindow.SearchedColumns | widgets/mainwindow.cpp:947-971 | column 1 is always searched; a later column is searched exactly when its type is not excluded; the list is increasing |
| MainWindow.BuildFilter | widgets/mainwindow.cpp:947-971 | the loop builds the filter of the searched columns, each clause joined with " OR " |
| MainWindow.FilterOpensWithFirstColumn | widgets/mainwindow.cpp:950-953 | the filter starts with the clause for column 1 |
| MainWindow.FilterQuotes | widgets/mainwindow.cpp:934-971 | for a key without quotes the filter holds exactly two quotes per searched column, so it is well balanced |
| MainWindow.SearchSlot | widgets/mainwindow.cpp:921-986 | table view and a cleared undo stack on a real collection, nothing otherwise; the filter is empty for an empty box, otherwise it is the column filter of the cleaned key |
| MainWindow.LoneQuoteSearchesEverything | widgets/mainwindow.cpp:934-941 | a lone quote searches with an empty key, which matches every record whose first field is set |
| MainWindow.RemoveBelowRemoved | widgets/mainwindow.cpp:626-652 | removing rows from the bottom up removes exactly the chosen rows |
| MainWindow.SortedRows | widgets/mainwindow.cpp:627-628 | the selected rows, distinct and increasing |
| MainWindow.DeleteSelectedRecords | widgets/mainwindow.cpp:568-659 | the deleted rows are the topmost selected ones up to the cancel point; the table loses exactly those; the undo stack gains one entry up to 100 rows and is cleared above |
| MainWindow.TopRows | widgets/mainwindow.cpp:630-652 | rows deleted before a cancel are the largest selected rows, with no gap |
| MainWindow.DeleteCurrentRecord | widgets/mainwindow.cpp:537-567 | after confirmation the current record is removed with its own undo entry |
| MainWindow.DuplicateSelectedRecords | widgets/mainwindow.cpp:440-517 | the duplicated rows are a prefix of the set order; copies are appended in that order; undo gets one entry up to 100 rows and is cleared above |
| MainWindow.DuplicateCurrentRecord | widgets/mainwindow.cpp:416-438 | with a standard model, the current record is copied to the end with its own undo entry |
| MainWindow.CheckForUpdatesSlot | widgets/mainwindow.cpp:1092-1111 | nothing for an app-store build or with checks off; otherwise the manager is created once, the status shows the check, and one request is issued |
| MainWindow.WindowOnSignal | widgets/mainwindow.cpp:1098-1106 | only the no-update and error signals change the status, and only an accepted update closes the window |
| MainWindow.WindowAfterDecision | widgets/mainwindow.cpp:1113-1121 | the window shows "up to date" only for the up-to-date decision, and closes only when a download is accepted |
| MainWindow.WindowReportsCheck | widgets/mainwindow.cpp:1092-1121 | an unreadable reply shows the error message; otherwise "up to date" shows exactly when neither a new build nor a new database exists, and the window closes exactly when a new build is accepted |

## Left out

- Dialog chrome is not modelled: the progress bars, the wizard's pages,
  message boxes, focus handling and view refreshes. This includes
  `downloadProgressSlot`, which uses floating-point percentages.
- `createImageLicensingAndDisplayResults`: building the HTML list of image
  licences is presentation only.
- Environment functions are parameters, not computed:
  - SHA-1 hashing, upper-casing and JSON text parsing are passed-in functions;
  - the settings, file and database managers appear only as the state they
    report (`Env`);
  - the record model's `duplicateRecord` is not part of this model and is
    taken to append a copy of the row;
  - `QSet` iteration order is the `order` parameter.
- `QtString.FromByteArray`: a malformed UTF-8 sequence becomes one U+FFFD
  per byte that does not start a well-formed sequence. Qt may group the
  bytes of a malformed sequence differently. A leading byte-order mark is
  kept as U+FEFF; whether Qt drops it is not modelled.
- `UpdateManager.UrlFileName`: `QUrl` percent-decodes the file name and
  treats a URL without a path as having an empty one. Neither is modelled.
  The drain lemmas therefore require names free of '%'.
- `UpdateProperties.DrainQueue`: holds only for names free of '/', '?', '#'
  and '%'. A name with '?' or '#' is requested forever
  (`UpdateProperties.QueryNameRequestedAgain`).
- `UpdateProperties.DrainWritesFiles`: the same restriction on names as
  `DrainQueue`.
- `UpdateProperties.DrainKeepsOtherFiles`: the same restriction on names as
  `DrainQueue`.
- `QtString.Truncated`: counts characters, where Qt counts UTF-16 code units.
  The status label (`DatabaseSync.StatusLabel`) therefore differs from Qt's
  for names with characters above U+FFFF.
- `QtString.RemovedFront`: counts characters, not UTF-16 code units, like
  `QtString.Truncated`.
- `QtString.SplitSkipEmpty`: its own contract states only the shape of the
  pieces. Their contents are stated by `QtString.SplitConcatenation`,
  `QtString.JoinOfSplit` and `QtString.SplitJoin`.
- Dialog lifetime: after `reject()` or `accept()` the model's sync dialog
  keeps receiving the manager's signals. The code that creates the dialog,
  and so decides when it is destroyed, is not part of this model.
- The main window's selection of the first search result and the enabling
  of the form view after a search are not modelled.
- Concurrency: Qt delivers signals synchronously, and the model composes
  handlers in that order. Overlapping replies from several managers are not
  modelled.
- Two manager instances:
  - the sync dialog obtains the manager as a singleton
    (widgets/databasesyncdialog.cpp:34);
  - the main window creates its own (widgets/mainwindow.cpp:1099), despite the
    private constructor at components/updatemanager.h:140;
  - the window's manager is kept separately and never merged with the dialog's.
- `error` is uninitialised at components/updatemanager.cpp:219. The model
  starts it as false, which is the only reading under which the success path
  exists.
- The metadata-only request (`UpdatesMetadataDownloadOp`) hands on the
  metadata left by the last update check, without parsing the new body.
- `UpdateManager.ParseUpdateMetadata`: the code accepts the response when any
  one of the three fields converts (`!a && !b && !c` fails). This is modelled
  as written. Fields that fail to convert are stored as 0.
- The main window's selection of the record before the deleted ones, and its
  status messages other than the update ones, are not modelled.
- The table view / form view switch (`tableViewModeTriggered`) is reduced to
  the boolean it sets.
