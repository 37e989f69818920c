# ODIN-Modern multi-drive imager: a Dafny model

ODIN-Modern writes one disk image onto several removable drives at once. It
runs the external command-line imager `odinc` for each drive and follows the
percentages that tool prints. It also checks the images it makes and restores
against expected SHA-1 and SHA-256 digests. There are two front-ends that do
the same job: a Python one (`OdinM_py`) and a native Windows one (`src/ODINM`).
Both sit beside the original single-drive imager (`src/ODIN`), and several of
its helpers are modelled here too.

This project models the decision, parsing and bookkeeping logic of those
programs as pure Dafny functions over immutable datatypes, and proves what
that logic promises. Processes, threads, the file system, Win32 and the
digest algorithms become parameters or observations. One Dafny module
corresponds to one source file:

| module | file | what it covers |
|---|---|---|
| `Common` | (shared) | optional values, bytes, decimal and hex text, Python `strip`/`lower`/`int`, `sorted`, Windows path helpers |
| `CloneWorker` | `OdinM_py/clone_worker.py` | worker states, `start`/`stop`, the two `odinc` command lines, the exit-status rule, and the byte-at-a-time progress and log-line scanner |
| `DriveManager` | `OdinM_py/drive_manager.py` | grouping drive letters by physical disk, `target_path`, `size_str`, and change detection in the poller |
| `App` | `OdinM_py/app.py` | binding drives to the five slots, auto-start on insertion, start/stop of one slot or all slots, worker completion |
| `HashWorker` | `OdinM_py/hash_worker.py` | range clamping, the 4 MiB chunk loop feeding both digests, progress capped at 99 then 100, and the outcomes |
| `PartitionReader` | `OdinM_py/partition_reader.py` | the ODIN image header's data offset, the MBR partition table and partition type names |
| `HashConfig`, `HashLog` | `OdinM_py/hash_config.py`, `OdinM_py/hash_log.py` | the expected-digest store per image and partition, and the digest log with its age rule |
| `HashDialog` | `OdinM_py/ui/hash_dialog.py` | age text, the paste-and-compare verdict, the compliance check against configured partitions, the copy guard |
| `ConfigureHashDialog` | `OdinM_py/ui/configure_hash_dialog.py` | manifest loading, status labels, saving a partition, the partition dropdown, calculation and its result |
| `ImageOptionsDialog` | `OdinM_py/ui/image_options_dialog.py` | the backup-flag codec between `odinc` flags and dialog settings |
| `MakeImageDialog` | `OdinM_py/ui/make_image_dialog.py` | start validation, the stall-detecting file-size poller, the backup-then-hash workflow and the saved configuration |
| `DriveSlot` | `src/ODINM/DriveSlot.h`, `.cpp` | the seven slot statuses and the slot operations |
| `OdinMConfig`, `OdinMDlg` | `src/ODINM/OdinMDlg.h`, `.cpp` | hash-configuration defaults, settings clamps, drive refresh and detection, Start All with its concurrency cap, start/stop, the timer's exit handling, verification, and the `.hashcfg` file |
| `HashCalculator` | `src/ODINM/HashCalculator.cpp` | hex encoding and the 1 MiB chunk loops over a byte range |
| `HashConfigDlg` | `src/ODINM/HashConfigDlg.cpp` | loading and saving the dialog's controls, status labels and the calculation guards |
| `ODINDlg` | `src/ODIN/ODINDlg.cpp` | split-file naming, the progress/speed/ETA line, CF-card detection and auto-flash, file-system names and the remembered image |
| `VSSWrapper` | `src/ODIN/VSSWrapper.cpp` | the writer-component tree, which components a backup adds, the support test and snapshot path arithmetic |
| `OdinManager` | `src/ODIN/OdinManager.cpp` | options, reset and terminate, thread counting and handles, handle compaction, the error message, progress totals and what `DoCopy` sets up, as written and corrected |
| `OptionsDlg` | `src/ODIN/OptionsDlg.cpp` | the lossy codec between the manager's options and the dialog's buttons, and the OK/Cancel rules |

Three behaviours of the code are easy to miss:

- There is no admission queue and no "Queued" state. `OdinM_py/app.py:134-139`
  starts every eligible slot at once. `src/ODINM/OdinMDlg.cpp:259-273` only
  stops counting at the concurrency cap and leaves the remaining slots Ready.
- Progress from `odinc` is not kept monotone: every percentage the tool
  prints is passed on, clamped to 100 (`OdinM_py/clone_worker.py:169-174`).
- The module comment of `OdinM_py/ui/make_image_dialog.py` (line 6) says the
  digests are saved for partition 1. The code saves them for partition 0
  (line 312).

SHA-1 and SHA-256 (FIPS 180-4) appear only as function parameters from byte
sequences to digests. What is proved about them is which bytes are fed, in
which order, and what happens to the results. Hex text is the upper-case
Base16 alphabet of section 8 of RFC 4648 in the native code, and lower case in
the Python code. The MBR layout follows section 5.2.1 of the UEFI
Specification: records at offset 446, signature 0x55 0xAA at offset 510.

## Model

| member | source | states |
|---|---|---|
| Common.NatToDecimal | src/ODIN/OptionsDlg.cpp:70 | a number's decimal text is non-empty digits, with a leading '0' only for zero |
| Common.DecimalRoundTrip | src/ODIN/OptionsDlg.cpp:70 | a number's decimal text reads back as the number |
| Common.ZeroPadValue | src/ODIN/ODINDlg.cpp:76 | zero padding, as `%04u` does, keeps the digits' value |
| Common.ParseIntOfDecimal | OdinM_py/ui/image_options_dialog.py:36 | Python `int()` reads a number's own decimal text, sign included, back as the number |
| Common.Hex2RoundTrip | OdinM_py/partition_reader.py:61 | two upper-case hex digits, as `:02X` writes them, read back as the byte |
| Common.RStripSpec | OdinM_py/ui/hash_dialog.py:180 | `rstrip` removes only trailing whitespace and leaves none at the end |
| Common.LStripSpec | OdinM_py/ui/hash_dialog.py:180 | `lstrip` removes only leading whitespace and leaves none at the start |
| Common.ToLower | OdinM_py/ui/configure_hash_dialog.py:186 | lower-casing maps each character on its own and keeps the length |
| Common.SortedKeysSpec | OdinM_py/ui/hash_dialog.py:304 | `sorted` lists exactly the set's elements, strictly ascending |
| Common.AfterLastSeparator | src/ODINM/HashConfigDlg.cpp:208-211 | the text after the last `\` or `/`: a separator-free suffix preceded by a separator unless it is the whole path |
| Common.Basename | OdinM_py/hash_config.py:57 | `os.path.basename` returns a separator-free suffix of the path, preceded by a `\` or `/`, or by a bare `X:` drive prefix when the path has no separator, unless it is the whole path |
| Common.NormCase | OdinM_py/hash_config.py:48 | `os.path.normcase` maps each character on its own: slashes to backslashes, letters to lower case |
| Common.NormCaseIdempotent | OdinM_py/hash_config.py:48-73 | normalising a normalised key changes nothing, so keys compare equal however often they are normalised |
| App.NewApp | OdinM_py/app.py:43-45 | a new controller has five empty slots and no workers |
| App.CheckStart | OdinM_py/app.py:96-111 | a slot start is accepted exactly when the image field is non-empty, the file exists, the slot holds a drive and that drive's letter is removable |
| App.StartSlot | OdinM_py/app.py:96-126 | a refused start changes nothing; an accepted one replaces only this slot's worker with a running restore worker whose command line is `-restore -source=<image> -target=\Device\HarddiskN\Partition0 -force`, marks only this slot Running and leaves drives and progress alone |
| App.StopSlot | OdinM_py/app.py:128-132 | a slot without a worker is left alone; otherwise only that worker becomes Stopped, and the process tree is killed exactly when the process is alive |
| App.StartSlotFrame | OdinM_py/app.py:123-124 | starting one slot leaves every other slot's worker and shown status unchanged |
| App.StartEachCalls | OdinM_py/app.py:83-92 | the sweep calls `_start_slot` for exactly the slots that hold a drive not bound before and have no running worker, judged on the state before the sweep |
| App.StartEachAscending | OdinM_py/app.py:83-92 | the sweep visits slots in ascending order and starts each at most once |
| App.StartEachOutcome | OdinM_py/app.py:96-139 | after a sweep, a slot whose start was wanted and accepted has a running worker and shows Running; every other slot keeps its worker and shown status |
| App.StartAllStartsEveryEligible | OdinM_py/app.py:96-139 | `_start_all` calls `_start_slot` on exactly the slots that hold a drive and have no running worker; each one it accepts ends with a running worker and shows Running, and every other slot, a refused one included, keeps its worker and shown status |
| App.StartAllHasNoCap | OdinM_py/app.py:134-139 | with five idle drives `_start_slot` is called on all five slots, in order, and with an existing image and five removable drives all five end Running: there is no concurrency cap and no queue |
| App.StopAll | OdinM_py/app.py:141-144 | `_stop_all` turns every running worker into a stopped one, leaves other workers, drives and shown statuses alone, and kills exactly the live trees of running workers |
| App.StopAllLeavesNoneRunning | OdinM_py/app.py:141-144 | after a stop-all no worker is running |
| App.Bind | OdinM_py/app.py:71-74 | slot i holds the i-th drive while there are drives and is empty after that; drives past the fifth are dropped |
| App.ShowDrivesReset | OdinM_py/ui/main_window.py:61-68 | the window's drive refresh shows every slot Idle at 0%, with or without a drive, and leaves the workers and the binding alone |
| App.StartEachKeepsProgress | OdinM_py/app.py:96-126 | starting slots never changes a shown progress |
| App.OnDrivesChanged | OdinM_py/app.py:67-82 | the slots are rebound to the new drive list and every slot shows 0%; without auto-clone or without an existing image no worker changes and every slot is shown Idle at 0% |
| App.AutoStartPicksNewDisks | OdinM_py/app.py:78-111 | with auto-clone on and an existing image, `_start_slot` is called on a slot exactly when its disk was in no slot before and its worker is absent or not running; such a slot ends Running when its drive is still removable; every other slot keeps its worker and is shown Idle at 0% |
| App.RunningSlotShownIdleAfterDriveChange | OdinM_py/app.py:75 | a drive change shows a slot whose clone is still running as Idle at 0%, while its worker keeps running |
| App.OverflowDiskIsNew | OdinM_py/app.py:69-74 | a disk that only ever came sixth or later is not among the bound disks, so it counts as new when it later reaches a slot |
| App.OnWorkerDone | OdinM_py/app.py:179-188 | the worker first takes its final status, then the slot shows it; the progress becomes 100 only when the status is Done; other workers, the drives and other slots' shown statuses are untouched |
| App.FinishedSlotRestarts | OdinM_py/app.py:134-144 | a slot whose worker has finished, whatever the outcome, is called again by start-all and ends Running when accepted; stop-all leaves the finished worker's status as it was |
| App.DoneLabel | OdinM_py/app.py:181-185 | Done, Failed and Stopped are logged as "Complete", "FAILED" and "Stopped by user" |
| CloneWorker.NewWorker | OdinM_py/clone_worker.py:51-63 | a new worker is Idle |
| CloneWorker.Start | OdinM_py/clone_worker.py:67-72 | after `start()` the worker is Running; a reader thread is launched exactly when it was not already Running |
| CloneWorker.StartIsIdempotent | OdinM_py/clone_worker.py:68-69 | a second `start()` on a started worker launches nothing and changes nothing |
| CloneWorker.Stop | OdinM_py/clone_worker.py:74-82 | `stop()` sets the status to Stopped at once, changes nothing else, and kills the process tree exactly when the process is still alive |
| CloneWorker.CommandDirection | OdinM_py/clone_worker.py:97-113 | a restore reads the image and writes the drive with `-force`; a backup puts the chosen flags, or `-allBlocks -compression=none` when none were given, between `-backup` and the drive source and image target |
| CloneWorker.DecodeByte | OdinM_py/clone_worker.py:160 | a byte decoded alone keeps its value when it is ASCII and becomes U+FFFD otherwise, so a digit byte stays that digit |
| CloneWorker.SearchFromSpec | OdinM_py/clone_worker.py:170 | `re.search(r"(\d{1,3})%")` finds nothing exactly when the pattern matches nowhere; otherwise it reports the leftmost start, 1 to 3 digits (greedy) followed by '%' |
| CloneWorker.TrailingDigitsSpan | OdinM_py/clone_worker.py:170 | a suffix is all digits exactly when it lies within the text's trailing run of digits |
| CloneWorker.TrailingDigitsAfterCut | OdinM_py/clone_worker.py:174 | cutting the buffer just after a '%' does not change the run of digits at its end |
| CloneWorker.SearchAfterAppend | OdinM_py/clone_worker.py:161-174 | a buffer without a match gains one on the next character exactly when that character is '%' right after a digit, and the match covers the last one to three digits and the '%' |
| CloneWorker.NoMatchAfterAppend | OdinM_py/clone_worker.py:170 | appending anything but a '%' after a digit to a match-free buffer creates no match |
| CloneWorker.MatchAfterAppend | OdinM_py/clone_worker.py:170 | appending '%' after digits to a match-free buffer creates the match over the last one to three digits |
| CloneWorker.LeftmostMatch | OdinM_py/clone_worker.py:170 | the search reports the first position where the pattern matches |
| CloneWorker.RefEventsStep | OdinM_py/clone_worker.py:157-174 | the reference meaning of a text grows by the events of its last character, and the pending line is reset by a newline |
| CloneWorker.MatchedDigits | OdinM_py/clone_worker.py:171-172 | the digits of a reported match are all digits and lie just before its '%' |
| CloneWorker.LineFeedOk | OdinM_py/clone_worker.py:162-167 | the line part of the loop body posts the right-stripped line exactly at a newline and keeps the line buffer equal to the text since the last newline |
| CloneWorker.PercentFeedOk | OdinM_py/clone_worker.py:161-174 | the progress part of the loop body keeps the buffer equal to the text after the last consumed match, match-free, and posts exactly the reference percentage |
| CloneWorker.PercentHit | OdinM_py/clone_worker.py:170-174 | a '%' after digits posts min(value of the last up to three digits, 100) and empties the buffer |
| CloneWorker.PercentMiss | OdinM_py/clone_worker.py:161-170 | any other character posts nothing and is kept in the buffer |
| CloneWorker.FeedOk | OdinM_py/clone_worker.py:157-174 | one loop step keeps the reader's buffers and posted events in agreement with the text read so far |
| CloneWorker.Consumed | OdinM_py/clone_worker.py:157-159 | the reader stops at the stop point or at the end of the output, whichever comes first |
| CloneWorker.ReadOutput | OdinM_py/clone_worker.py:144-174 | `_read_output` posts exactly the reference events of the characters read before the stop: one right-stripped log line per newline and one capped percentage per '%' that follows a digit |
| CloneWorker.StreamIsQuiet | OdinM_py/clone_worker.py:157-174 | the reader never posts a final status and every percentage it posts is within 0..100 |
| CloneWorker.PreCleanLog | OdinM_py/clone_worker.py:87-96 | only a backup reports removing, or failing to remove, an existing target file, and the report is never a final status |
| CloneWorker.Epilogue | OdinM_py/clone_worker.py:134-142 | after the wait one final status is posted: Stopped if stop was requested, otherwise Done for exit code 0 (preceded by progress 100), otherwise Failed |
| CloneWorker.AfterLaunch | OdinM_py/clone_worker.py:132-142 | a launched run posts the reader's events and then the epilogue; only the last event is a final status |
| CloneWorker.Outcome | OdinM_py/clone_worker.py:115-142 | after the command line, exactly one final status ends the events, and Done directly follows progress 100 |
| CloneWorker.LaunchError | OdinM_py/clone_worker.py:123-130 | a launch that raises logs the error and finishes Failed |
| CloneWorker.Prologue | OdinM_py/clone_worker.py:87-114 | before launch, the pre-clean report (backup only) and the command line are logged, with no final status |
| CloneWorker.Run | OdinM_py/clone_worker.py:86-142 | `_run` posts exactly one final status, as its last event; everything before it is a log line or a progress value in 0..100; Done always follows progress 100 |
| CloneWorker.FinalStatusRules | OdinM_py/clone_worker.py:123-142 | the final status is Done, Failed or Stopped; Done exactly for a launched, unstopped run with exit code 0; Stopped exactly for a launched run that was stopped; a launch error is Failed |
| DriveManager.TargetPath | OdinM_py/drive_manager.py:29-34 | the ODINC target of a drive is the `\Device\Harddisk<n>\Partition0` path of its whole physical disk |
| DriveManager.TargetPathRoundTrip | OdinM_py/drive_manager.py:29-34 | the disk number reads back out of the target path, so different disks get different targets |
| DriveManager.SizeStr | OdinM_py/drive_manager.py:36-43 | an unknown (non-positive) size shows "?"; otherwise the largest of GB, MB, KB not above the size is used, and sizes under 1 KiB are shown in bytes |
| DriveManager.StripBackslashes | OdinM_py/drive_manager.py:123 | `rstrip("\\")` leaves a prefix of the text that does not end in a backslash, and everything it removed was a backslash |
| DriveManager.IsRemovableRootForm | OdinM_py/drive_manager.py:123 | a letter given with or without its root backslash names the same drive |
| DriveManager.StripAppendedBackslashes | OdinM_py/drive_manager.py:123 | `rstrip("\\")` gives the same text whatever number of backslashes is appended |
| DriveManager.IsRemovableIgnoresBackslashes | OdinM_py/drive_manager.py:121-124 | a letter followed by any number of backslashes gives the same removability answer as the bare letter |
| DriveManager.LetterOf | OdinM_py/drive_manager.py:139 | the i-th letter is the i-th capital letter followed by ':' |
| DriveManager.MergeDisks | OdinM_py/drive_manager.py:148-159 | filing a letter adds its disk to the set of disks and no other |
| DriveManager.MergeSorted | OdinM_py/drive_manager.py:148-161 | filing a letter keeps the entries ordered by disk number |
| DriveManager.MergeKeepsOthers | OdinM_py/drive_manager.py:148-159 | entries of other disks are kept unchanged |
| DriveManager.MergeFiles | OdinM_py/drive_manager.py:148-159 | the letter's disk entry is the old one with the letter appended, or a new entry when the disk was unseen |
| DriveManager.StepOk | OdinM_py/drive_manager.py:136-159 | one probe of the scan keeps the entries sorted, one per contributing disk, with the letters seen so far in letter order, the first letter's label and the disk's size |
| DriveManager.GetRemovableDrives | OdinM_py/drive_manager.py:127-161 | the result has one entry per physical disk that has a present, removable letter with a known disk number; entries are in ascending disk order, and each holds its letters in letter order, the first letter's volume label and the disk size |
| DriveManager.LettersOnDiskMember | OdinM_py/drive_manager.py:136-159 | a letter is listed under disk d exactly when it is present, removable and on disk d |
| DriveManager.LettersOnDiskAscending | OdinM_py/drive_manager.py:136 | the letters of a disk are listed in strictly ascending letter order |
| DriveManager.LetterInExactlyOneEntry | OdinM_py/drive_manager.py:127-161 | every contributing letter is listed under exactly one entry, its own disk's, and every listed letter contributes |
| DriveManager.FirstLetterIsLeast | OdinM_py/drive_manager.py:151-159 | an entry's first letter is alphabetically the least letter of its disk, and its last listed letter is the greatest |
| DriveManager.NewMonitor | OdinM_py/drive_manager.py:173-177 | a new monitor has seen no disks and is not polling |
| DriveManager.Poll | OdinM_py/drive_manager.py:186-197 | a stopped monitor does nothing and schedules nothing; a running one fires the callback exactly when the scan succeeds with a disk-number list different from the recorded one, then records that list; an OSError skips the poll |
| DriveManager.StartMonitor | OdinM_py/drive_manager.py:179-181 | starting polls at once and keeps polling |
| DriveManager.StopMonitor | OdinM_py/drive_manager.py:183-184 | stopping ends polling and keeps the recorded disks |
| DriveManager.PollSettles | OdinM_py/drive_manager.py:191-194 | after a scan has been recorded, a scan with the same disk numbers fires nothing and changes nothing |
| DriveManager.PollIgnoresLabels | OdinM_py/drive_manager.py:191-192 | only the disk numbers matter: scans that differ only in labels, letters or sizes poll alike |
| DriveManager.PollErrorIsQuiet | OdinM_py/drive_manager.py:195-196 | an OSError during the scan fires nothing and changes nothing |
| DriveSlot.NoVerification | src/ODINM/DriveSlot.h:23-32 | a default verification result has every pass flag false and every text empty |
| DriveSlot.NewSlot | src/ODINM/DriveSlot.cpp:11-18 | a new slot keeps its number and is Empty, with no drive, no size, no progress, no process and no verification |
| DriveSlot.QueriesExclusive | src/ODINM/DriveSlot.h:59-64 | at most one of the four status queries holds, and none holds exactly for Ready and Stopped |
| DriveSlot.SetDrive | src/ODINM/DriveSlot.cpp:24-32 | binding a drive stores letter, name and size, makes the slot Ready with progress 0 and no verification, and keeps the number and process id |
| DriveSlot.ClearDrive | src/ODINM/DriveSlot.cpp:34-43 | clearing returns the slot to a new slot with the same number |
| DriveSlot.ClearForgets | src/ODINM/DriveSlot.cpp:34-43 | two slots with the same number are equal once cleared, and a cleared slot is empty |
| DriveSlot.SetProgress | src/ODINM/DriveSlot.cpp:50-53 | the stored progress is the value clamped to 0..100 and nothing else changes |
| DriveSlot.StatusString | src/ODINM/DriveSlot.cpp:65-77 | the status text is "-" exactly for an empty slot |
| DriveSlot.StatusStringInjective | src/ODINM/DriveSlot.cpp:65-77 | different statuses get different texts |
| DriveSlot.ProgressString | src/ODINM/DriveSlot.cpp:91-100 | the progress text is "-" exactly for Empty and Ready slots, and a percentage ending in '%' otherwise |
| DriveSlot.ProgressStringRoundTrip | src/ODINM/DriveSlot.cpp:97-99 | the percentage text reads back as the slot's progress |
| DriveSlot.SizeString | src/ODINM/DriveSlot.cpp:79-89 | the size text is "-" exactly for size 0; otherwise the gigabyte text comes from the stored size |
| HashCalculator.BytesToHex | src/ODINM/HashCalculator.cpp:217-229 | the hex text is exactly twice as long as the digest |
| HashCalculator.BytesToHexSpec | src/ODINM/HashCalculator.cpp:217-229 | characters 2i and 2i+1 of the text are byte i printed as two upper-case hex digits, high nibble first |
| HashCalculator.HexRoundTrip | src/ODINM/HashCalculator.cpp:217-229 | an independent hex decoder recovers the digest bytes from the text, so no two digests share a text |
| HashCalculator.HexIsUpper | src/ODINM/HashCalculator.cpp:217-229 | every character of the text is one of 0-9 or A-F |
| HashCalculator.ReadAt | src/ODINM/HashCalculator.cpp:178-181 | a read returns at most the bytes asked for, always a stretch of the content at the position, and nothing only past the end |
| HashCalculator.ProgressStep | src/ODINM/HashCalculator.cpp:191-194 | appending the integer percentage after a chunk keeps the reported values within 0..100 and never decreasing |
| HashCalculator.ReadLoop | src/ODINM/HashCalculator.cpp:168-195 | on success the bytes fed are exactly the requested range in order, in ceil(size / 1 MiB) reads, with one progress value per read ending at 100; size 0 reads nothing; whenever the range is on the device and no failure falls among its reads the loop succeeds |
| HashCalculator.LoopCanFail | src/ODINM/HashCalculator.cpp:178-186 | a failed, empty or unhashed read can only happen when the range is not fully readable |
| HashCalculator.LoopDone | src/ODINM/HashCalculator.cpp:174-195 | once the whole size is processed the fed bytes are the range, the read count is the chunk count and the last percentage is 100 |
| HashCalculator.CalculateHash | src/ODINM/HashCalculator.cpp:150-212 | a digest is returned only when the context, the seek, every read and update and the retrieval succeed; it is the hex of the digest of exactly the range (of the empty message for size 0); every readable range yields a digest |
| HashCalculator.Kept | src/ODINM/HashCalculator.cpp:69-70 | a digest whose updates fail on some chunks is fed the range without those chunks, and never more than the range |
| HashCalculator.KeptEverything | src/ODINM/HashCalculator.cpp:69-70 | with no failed update a digest is fed exactly the range |
| HashCalculator.DroppedChunkIsMissing | src/ODINM/HashCalculator.cpp:69-70 | a failed update of any chunk of the range leaves that digest fed strictly less than the range |
| HashCalculator.CalculateBothHashes | src/ODINM/HashCalculator.cpp:32-107 | one pass yields both hex digests; each is of the range less the chunks whose update failed for that digest, since the update results are ignored; every readable range yields both digests, whatever the update failures |
| HashWorker.Start | OdinM_py/hash_worker.py:51-56 | afterwards the worker is running, and a thread is launched exactly when it was not running before |
| HashWorker.Stop | OdinM_py/hash_worker.py:58-59 | stopping leaves the worker stopped from any state |
| HashWorker.RangeLength | OdinM_py/hash_worker.py:70-72 | the hashed length never exceeds what the file holds after the offset (0 when the offset is past the end); a negative count means everything after the offset, a count otherwise caps it |
| HashWorker.RangeInsideFile | OdinM_py/hash_worker.py:70-72 | a non-empty range lies inside the file |
| HashWorker.ReadAt | OdinM_py/hash_worker.py:87 | a read returns at most the bytes asked for, and something whenever it starts inside the content |
| HashWorker.PctMonotone | OdinM_py/hash_worker.py:95 | the capped percentage never drops as more bytes are done |
| HashWorker.ReportOk | OdinM_py/hash_worker.py:94-98 | reporting only on change keeps the reported values strictly rising and within 0..99 |
| HashWorker.FeedStepOk | OdinM_py/hash_worker.py:87-98 | one chunk extends the hashed prefix of the range by exactly that chunk, of at most 4 MiB, and keeps the progress rules |
| HashWorker.FeedEnd | OdinM_py/hash_worker.py:83-89 | when the loop ends by count or by an empty read, the bytes fed are the whole range as far as the content reaches |
| HashWorker.Feed | OdinM_py/hash_worker.py:79-101 | uninterrupted, the bytes fed are exactly the range, split into non-empty chunks of at most 4 MiB; a stop or a failure happens only when the outside world caused one; progress rises strictly within 0..99 |
| HashWorker.Run | OdinM_py/hash_worker.py:63-104 | an unreadable size or file gives FAILED; STOPPED needs a stop request and FAILED an error; both leave the digests empty; with neither the result is DONE with both digests of exactly the clamped range, after rising progress below 100 and a final 100 |
| HashWorker.WholeFile | OdinM_py/hash_worker.py:71-72 | a negative count from offset 0 hashes the whole file |
| PartitionReader.LeRoundTrip | OdinM_py/partition_reader.py:116-117 | a value written as n little-endian bytes reads back as itself when it fits |
| PartitionReader.DataOffset | OdinM_py/partition_reader.py:77-90 | an unreadable file, a file shorter than the header, or one without the ODIN magic has data offset 0 |
| PartitionReader.DataOffsetOfHeader | OdinM_py/partition_reader.py:77-90 | the data offset written into an ODIN header is the one read back from it, whatever follows the header |
| PartitionReader.RecordRoundTrip | OdinM_py/partition_reader.py:114-117 | status, type byte, start and size survive being written into a 16-byte record and decoded |
| PartitionReader.Entry | OdinM_py/partition_reader.py:120-126 | record index i is reported as partition number i + 1 |
| PartitionReader.ReadMbrPartitions | OdinM_py/partition_reader.py:93-129 | the reader raises exactly when the data offset plus 510 is beyond any file position (2^63); otherwise an unreadable file, or one without 0x55 0xAA at the data offset plus 510, yields no partitions |
| PartitionReader.HugeDataOffsetRaises | OdinM_py/partition_reader.py:102-106 | an ODIN header whose data offset is within 510 bytes of 2^63 or beyond makes the reader raise, whatever the file holds after the header |
| PartitionReader.SignatureMeansSector | OdinM_py/partition_reader.py:106-112 | a valid signature means the whole sector is present, so no record read comes up short |
| PartitionReader.TableIsRead | OdinM_py/partition_reader.py:109-126 | with a valid signature at a reachable position the result is exactly the used records of the table, in order, as given by an independent reference reading |
| PartitionReader.RecordsAreKept | OdinM_py/partition_reader.py:110-126 | the read loop over records i..3 equals the reference reading of the decoded table from i |
| PartitionReader.KeptNumbers | OdinM_py/partition_reader.py:110-126 | the reported numbers lie in i+1..4 and rise strictly; gaps are possible |
| PartitionReader.KeptMember | OdinM_py/partition_reader.py:118-126 | a record is reported under its number exactly when its size and type are both non-zero; an unused record's number never appears |
| PartitionReader.ResultShape | OdinM_py/partition_reader.py:110-126 | any result has at most four entries, numbered within 1..4, strictly increasing |
| PartitionReader.SectorRecords | OdinM_py/partition_reader.py:106-117 | a sector built from four records, placed anywhere in a file, decodes back to those four records and carries the signature |
| PartitionReader.RawImageRoundTrip | OdinM_py/partition_reader.py:93-129 | writing a table at the start of a raw image and reading it back gives exactly its used records with offsets from 0 |
| PartitionReader.OdinImageRoundTrip | OdinM_py/partition_reader.py:77-129 | writing a table after an ODIN header gives its used records with offsets shifted by the header's data offset |
| PartitionReader.TypeName | OdinM_py/partition_reader.py:33-48 | a known type byte gets its table name; any other gets "Type 0x" and two more characters |
| PartitionReader.TypeNameRoundTrip | OdinM_py/partition_reader.py:60-61 | the two characters after "Type 0x" are upper-case hex digits that read back as the type byte |
| HashConfig.BlankPartition | OdinM_py/hash_config.py:25-37 | a blank partition has both values empty and all four flags off |
| HashConfig.GetPartition | OdinM_py/hash_config.py:46-50 | the stored configuration of the image's partition when there is one, a blank one otherwise |
| HashConfig.SavePartition | OdinM_py/hash_config.py:52-61 | saving adds the image under its normalised path and no other key; a new image entry is named after the path's base name, an existing one keeps its name |
| HashConfig.SaveThenGet | OdinM_py/hash_config.py:46-61 | reading a partition just saved gives back exactly what was saved |
| HashConfig.SaveKeepsOthers | OdinM_py/hash_config.py:52-61 | saving one partition of one image leaves every other partition of every image unchanged |
| HashConfig.SameImage | OdinM_py/hash_config.py:48 | paths with the same normalised form read the same configuration |
| HashConfig.GetEnabledPartitions | OdinM_py/hash_config.py:71-78 | the result holds exactly the stored partitions with SHA-1 or SHA-256 enabled, each with its stored configuration |
| HashConfig.EnabledIffAny | OdinM_py/hash_config.py:63-78 | the enabled partitions are non-empty exactly when `has_any_enabled` holds |
| HashConfig.SaveBlankAddsNothing | OdinM_py/hash_config.py:52-69 | saving a blank configuration can never make an image count as enabled |
| HashLog.GetEntry | OdinM_py/hash_log.py:31-33 | an entry is found exactly when the normalised path was saved |
| HashLog.SaveEntry | OdinM_py/hash_log.py:35-44 | saving adds the normalised path and keeps every other path's entry |
| HashLog.SaveThenGet | OdinM_py/hash_log.py:31-44 | reading back a saved path gives its base name, both digests and the save time |
| HashLog.DaysSince | OdinM_py/hash_log.py:46-55 | no age without an entry or without a timestamp; with a stored timestamp, exactly the age the parser gives for it, None when it does not parse |
| HashLog.IsStale | OdinM_py/hash_log.py:57-59 | stale exactly when the age is known and at least 30 days |
| HashLog.StalenessAfterSave | OdinM_py/hash_log.py:35-59 | a just-saved path is stale only if its own timestamp already reads as 30 days old; a never-saved path is never stale |
| HashDialog.AgeInfo | OdinM_py/ui/hash_dialog.py:354-363 | no age gives the neutral style and only it; the warning style appears exactly for ages of 30 days or more; 0 and 1 read "Today" and "Yesterday"; any other age, negatives included, starts with "<n> days ago" |
| HashDialog.AgeWarnsIffStale | OdinM_py/ui/hash_dialog.py:252-259 | the age label warns exactly when the log calls the image stale |
| HashDialog.Compare | OdinM_py/ui/hash_dialog.py:179-205 | no verdict for an empty expected value; "not computed" exactly when the SHA-256 field is empty or the placeholder; otherwise length 64 picks SHA-256 and 40 picks SHA-1, and the verdict is a match exactly when the stripped, lower-cased texts are equal; any other length is unrecognised |
| HashDialog.PastedDigestMatches | OdinM_py/ui/hash_dialog.py:179-205 | pasting a computed digest back, in either case, matches under its own algorithm |
| HashDialog.OnDone | OdinM_py/ui/hash_dialog.py:160-175 | the bar ends at 100 for every outcome; DONE shows and logs both digests and compares only when an expected value was entered; STOPPED and FAILED change only the status text |
| HashDialog.Checks | OdinM_py/ui/hash_dialog.py:307-317 | a partition performs one check per algorithm that is enabled with a non-empty value, SHA-1 first, each a case-insensitive comparison carrying that algorithm's stop flag |
| HashDialog.Compliance | OdinM_py/ui/hash_dialog.py:302-340 | one report per enabled partition in ascending order, each with that partition's checks; all pass exactly when no performed check mismatched |
| HashDialog.StoredCompliance | OdinM_py/ui/hash_dialog.py:266-346 | the compliance section is shown exactly when the log holds a SHA-256 and some partition is enabled, and its verdict is that every check of every enabled partition passes |
| HashDialog.CopyValue | OdinM_py/ui/hash_dialog.py:366-370 | the clipboard receives the field unchanged exactly when it is neither empty nor the placeholder |
| ConfigureHashDialog.LoadPartition | OdinM_py/ui/configure_hash_dialog.py:174-182 | the six controls show the stored (or blank) configuration of the partition |
| ConfigureHashDialog.ToConfig | OdinM_py/ui/configure_hash_dialog.py:184-192 | saving stores both values stripped and lower-cased and the four flags as shown |
| ConfigureHashDialog.SaveCurrent | OdinM_py/ui/configure_hash_dialog.py:184-193 | afterwards the store reads back, for the dialog's partition, exactly the normalised fields |
| ConfigureHashDialog.Status | OdinM_py/ui/configure_hash_dialog.py:195-206 | a field reads "Configured" exactly when its stripped text is 40 (SHA-1) or 64 (SHA-256) characters long; the characters themselves are not checked |
| ConfigureHashDialog.Choices | OdinM_py/ui/configure_hash_dialog.py:212-214 | the drop-down always starts with partition 0 |
| ConfigureHashDialog.UpdateDropdown | OdinM_py/ui/configure_hash_dialog.py:210-218 | a shown partition still offered is kept unchanged; one no longer offered falls back to partition 0 for both the text and the working partition |
| ConfigureHashDialog.ByNumber | OdinM_py/ui/configure_hash_dialog.py:223 | every detected entry is found under its number, and every number maps to a detected entry with that number |
| ConfigureHashDialog.Detect | OdinM_py/ui/configure_hash_dialog.py:220-239 | when the table read raises, the handler leaves the dialog as it was |
| ConfigureHashDialog.ChoicesAfterDetect | OdinM_py/ui/configure_hash_dialog.py:220-224 | detected partition numbers stay within 1..4, and after detection the drop-down lists 0 and then those numbers, strictly ascending and within 0..4 |
| ConfigureHashDialog.ChangePartition | OdinM_py/ui/configure_hash_dialog.py:168-172 | switching first saves the fields to the old partition, then shows and works on the chosen one with its stored configuration |
| ConfigureHashDialog.Calculate | OdinM_py/ui/configure_hash_dialog.py:255-280 | nothing happens while a computation runs; otherwise one starts over the detected partition's offset and size, or over the whole file when the partition was not detected |
| ConfigureHashDialog.OnCalcDone | OdinM_py/ui/configure_hash_dialog.py:286-300 | the computation is over; on DONE exactly the fields the mode selects take the digests and are enabled; any other status and the fail flags change nothing |
| ConfigureHashDialog.FirstToken | OdinM_py/ui/configure_hash_dialog.py:320 | the token is the longest prefix without whitespace |
| ConfigureHashDialog.ApplyLine | OdinM_py/ui/configure_hash_dialog.py:316-328 | a manifest line never touches the fail flags |
| ConfigureHashDialog.ManifestUntouched | OdinM_py/ui/configure_hash_dialog.py:315-328 | a manifest with no token of a field's length leaves that field and its enable flag as they were |
| ConfigureHashDialog.ManifestLastWins | OdinM_py/ui/configure_hash_dialog.py:315-328 | the last non-comment line whose lower-cased first token has 64 (40) characters sets and enables the SHA-256 (SHA-1) field; later lines of other lengths do not disturb it |
| ConfigureHashDialog.OpenAsWritten | OdinM_py/ui/configure_hash_dialog.py:38-44 | as written, the dialog shows partition 0's fields while its working partition is 1 |
| ConfigureHashDialog.Open | OdinM_py/ui/configure_hash_dialog.py:38-44 | corrected: the working partition is the shown partition 0, with its fields |
| ConfigureHashDialog.OpenSaveOverwritesPartitionOne | OdinM_py/ui/configure_hash_dialog.py:38-43 | as written, opening and saving replaces a configured partition 1 by partition 0's blank configuration |
| ConfigureHashDialog.OpenSaveKeepsOtherPartitions | OdinM_py/ui/configure_hash_dialog.py:336-337 | corrected, opening and saving rewrites only partition 0, with its own normalised configuration, and every other partition is unchanged |
| ImageOptionsDialog.ApplyFlag | OdinM_py/ui/image_options_dialog.py:29-38 | an unrecognised flag changes nothing, a disk-mode flag sets exactly the disk mode, and only a disk-mode flag can change the disk mode |
| ImageOptionsDialog.DiskModeAlwaysKnown | OdinM_py/ui/image_options_dialog.py:27-39 | whatever the list, the disk mode read from it is one of the two the radio buttons offer |
| ImageOptionsDialog.UnknownFlagsIgnored | OdinM_py/ui/image_options_dialog.py:29-38 | removing an unrecognised flag from anywhere in the list gives the same settings |
| ImageOptionsDialog.FlagsStep | OdinM_py/ui/image_options_dialog.py:29-38 | flags are applied left to right, so a later flag overrides an earlier one |
| ImageOptionsDialog.Ok | OdinM_py/ui/image_options_dialog.py:135-143 | for a numeric spin value, OK writes the disk mode then the compression flag, plus a split flag exactly when splitting is chosen |
| ImageOptionsDialog.OkRoundTrip | OdinM_py/ui/image_options_dialog.py:27-143 | reading OK's flags back gives the same disk mode and compression, and the split size raised to at least 100 when splitting, else 0 |
| ImageOptionsDialog.OkPressed | OdinM_py/ui/image_options_dialog.py:135-143 | with splitting chosen, a spin text that is not a number raises and leaves no result; otherwise the result reads back as the shown disk mode, compression and split size raised to at least 100 |
| ImageOptionsDialog.OpenAsWritten | OdinM_py/ui/image_options_dialog.py:97-111 | as written, splitting is selected for any non-zero size and the spin box starts at the larger of the size and 700 |
| ImageOptionsDialog.Open | OdinM_py/ui/image_options_dialog.py:97-111 | corrected: the spin box starts at the stored size whenever OK could have written it (100 or more), else 700 |
| ImageOptionsDialog.ReopenKeepsSettings | OdinM_py/ui/image_options_dialog.py:97-143 | corrected, reopening on any settings OK can produce and pressing OK writes the same settings back |
| ImageOptionsDialog.ReopenRaisesSmallSplits | OdinM_py/ui/image_options_dialog.py:111-141 | as written, reopening on a split size of 100..699 and pressing OK replaces it with 700 |
| ImageOptionsDialog.ReopenSplit200 | OdinM_py/ui/image_options_dialog.py:111-141 | as written, `-split=200` comes back as `-split=700` |
| MakeImageDialog.NewDialog | OdinM_py/ui/make_image_dialog.py:34-45 | the dialog opens with the default backup flags, three pending steps, no worker or hash job and the poller idle |
| MakeImageDialog.SetOptions | OdinM_py/ui/make_image_dialog.py:172-176 | a confirmed options dialog replaces the backup flags; a cancelled one changes nothing |
| MakeImageDialog.CheckStart | OdinM_py/ui/make_image_dialog.py:179-191 | the backup is accepted exactly when the selection is in range, its first letter is removable and the stripped output path is non-empty; an out-of-range selection is the first refusal |
| MakeImageDialog.Start | OdinM_py/ui/make_image_dialog.py:178-227 | a refusal posts its own notice and changes nothing else; acceptance starts a running backup worker with command `odinc -backup <flags> -source=<disk target> -target=<output>`, resets the steps with the first running, and arms the poller from scratch |
| MakeImageDialog.Poll | OdinM_py/ui/make_image_dialog.py:334-386 | a tick does anything, and is rescheduled, exactly while the dialog is open and polling; every tick counts; a missing file only warns from the 8th tick and leaves the stall count and last size alone; an existing file bumps the stall count when its size is unchanged and resets it otherwise, records the size, shows the capped percentage when the drive size is known, and warns of a stall exactly from 15 unchanged ticks |
| MakeImageDialog.PollKeepsPolling | OdinM_py/ui/make_image_dialog.py:337-386 | ticks never stop the poller themselves; each adds one to the tick count |
| MakeImageDialog.StallCountsUnchangedTicks | OdinM_py/ui/make_image_dialog.py:362-367 | after a tick that sees a new size and k ticks that see the same size, the stall count is k |
| MakeImageDialog.StallWarningAfterFifteen | OdinM_py/ui/make_image_dialog.py:362-384 | a size seen and then unchanged for k more ticks is reported as stalled exactly when k is at least 15 |
| MakeImageDialog.PollProgressRises | OdinM_py/ui/make_image_dialog.py:371-373 | the poller's percentage grows with the file and never reaches 100 |
| MakeImageDialog.OnBackupDone | OdinM_py/ui/make_image_dialog.py:241-264 | the worker takes its final status first, even when the dialog is closed; a closed dialog otherwise ignores the outcome; otherwise polling stops; DONE marks step 1 done and then either starts hashing the image (automatic mode) or fills the bar and finishes; STOPPED and FAILED mark step 1 failed, empty the bar and post their own notice |
| MakeImageDialog.StartHash | OdinM_py/ui/make_image_dialog.py:268-281 | a running hash job is created over the whole output file and step 2 is marked running |
| MakeImageDialog.ImageCfg | OdinM_py/ui/make_image_dialog.py:312-319 | the saved expectation holds both digests, each enabled and failing on mismatch |
| MakeImageDialog.OnHashDone | OdinM_py/ui/make_image_dialog.py:287-330 | a closed dialog ignores the outcome; DONE marks step 2 done, fills the bar, logs both digests with the time and saves them as partition 0 of the image, marking step 3 done; when loading the log or the configuration raises, step 3 is marked failed, "Config save failed" is posted and only what was saved before the raise stays (the log entry when the configuration load raises); any other status, STOPPED included, marks step 2 failed, reports the hash failure and saves nothing |
| MakeImageDialog.SavedConfigAcceptsLoggedDigests | OdinM_py/ui/make_image_dialog.py:300-330 | after the workflow's save the image's log entry holds the digests and partition 0 is an enabled expectation of exactly those digests |
| MakeImageDialog.FailedConfigSaveKeepsLog | OdinM_py/ui/make_image_dialog.py:307-330 | when loading the configuration raises after the log was saved, the log entry still reads back with the digests, partition 0 of the image is as it was, step 3 is failed and "Config save failed" is reported |
| MakeImageDialog.FinishedBackupIsLeftAlone | OdinM_py/ui/make_image_dialog.py:229-233 | once the backup has reported its outcome, its worker is no longer running, so Stop and Close leave it alone and kill nothing |
| MakeImageDialog.Stop | OdinM_py/ui/make_image_dialog.py:229-233 | only a running backup worker is stopped (its process tree killed only if alive) and any hash job gets its stop flag; nothing else changes |
| MakeImageDialog.ClosedDialogIgnoresCallbacks | OdinM_py/ui/make_image_dialog.py:399-404 | once closed, no poll tick or hash outcome changes the dialog or the stores, and a backup outcome changes only the worker's own status |
| OdinMConfig.DefaultHashConfig | src/ODINM/OdinMDlg.h:15-29 | by default partition 1 is checked with SHA-1 on and enforced, SHA-256 off and not enforced, and every text empty |
| OdinMConfig.NarrowText | src/ODINM/OdinMDlg.cpp:470-476 | each wide character is written as its low 8 bits, one byte per character |
| OdinMConfig.WidenText | src/ODINM/OdinMDlg.cpp:455 | each byte read becomes one wide character, through a signed `char` |
| OdinMConfig.AsciiSurvives | src/ODINM/OdinMDlg.cpp:455-476 | ASCII text survives being written as bytes and read back |
| OdinMConfig.NonAsciiChanges | src/ODINM/OdinMDlg.cpp:455-476 | a character above 127 does not survive: 'é' comes back as U+FFE9, so the comment's "lossless" holds only for ASCII |
| OdinMConfig.Find | src/ODINM/OdinMDlg.cpp:451-452 | a position found is at or after the start and the pattern occurs there |
| OdinMConfig.FindSpec | src/ODINM/OdinMDlg.cpp:451-452 | the position found is the first occurrence from the start on, and none is found only when there is none |
| OdinMConfig.Chomp | src/ODINM/OdinMDlg.cpp:454 | exactly one trailing carriage return is dropped, and nothing else changes |
| OdinMConfig.Save | src/ODINM/OdinMDlg.cpp:463-481 | a file is written exactly when the image path is non-empty and the file can be created; it is 16 bytes longer than the two values together and holds only bytes |
| OdinMConfig.Load | src/ODINM/OdinMDlg.cpp:441-460 | loading succeeds exactly when the image path is non-empty and the file opens; a failed load changes nothing, and any load changes only the two expected values |
| OdinMConfig.ValueAt | src/ODINM/OdinMDlg.cpp:450-456 | a value followed by CR LF right after the first `key=` is what the parser reads for the key |
| OdinMConfig.SaveLoadRoundTrip | src/ODINM/OdinMDlg.cpp:441-481 | saving and loading gives back both expected values and changes nothing else, for ASCII values without line feeds, a SHA-1 value not containing `SHA256=`, and a file within the 4095 bytes the loader reads |
| OdinMDlg.NewDialog | src/ODINM/OdinMDlg.cpp:18-22 | the dialog starts with five empty slots numbered 1 to 5, at most two concurrent clones, auto-clone off and the default hash settings |
| OdinMDlg.ClampMaxConcurrent | src/ODINM/OdinMDlg.cpp:113-115 | the stored maximum is kept when within 1..5, and otherwise raised to 1 or lowered to 5 |
| OdinMDlg.LoadSettings | src/ODINM/OdinMDlg.cpp:99-119 | the maximum ends within 1..5, auto-clone is on exactly for a non-zero stored value, an empty stored image path keeps the current path and settings, a stored one replaces both paths; the slots are untouched |
| OdinMDlg.LoadSettingsRestoresExpected | src/ODINM/OdinMDlg.cpp:441-481 | loading settings whose `.hashcfg` the dialog saved brings back both expected digests |
| OdinMDlg.DriveName | src/ODINM/OdinMDlg.cpp:548-553 | the drive name is its volume label, or "Removable" when it has none, so never empty |
| OdinMDlg.Bind | src/ODINM/OdinMDlg.cpp:332-333 | a bound slot is Ready and holds the letter, keeping its number |
| OdinMDlg.RemovablesFromSpec | src/ODINM/OdinMDlg.cpp:328-331 | the letters visited are exactly the removable letters present in the mask, in A..Z order |
| OdinMDlg.RefreshDrivesBinds | src/ODINM/OdinMDlg.cpp:324-336 | after a refresh slot j holds the j-th removable letter in A..Z order while there is one and is a fresh empty slot otherwise; letters beyond the last slot are dropped |
| OdinMDlg.Command | src/ODINM/OdinMDlg.cpp:368-369 | the clone command line ends with the target drive letter |
| OdinMDlg.Launch | src/ODINM/OdinMDlg.cpp:371-378 | a launch gives Cloning with progress 0 and the new process id exactly when the process starts, and Failed otherwise; letter, number and verification are kept |
| OdinMDlg.StartClone | src/ODINM/OdinMDlg.cpp:363-380 | an empty or active slot is left alone; any other slot is launched and nothing else changes |
| OdinMDlg.StopClone | src/ODINM/OdinMDlg.cpp:383-393 | an inactive slot is left alone; an active one becomes Stopped with no process, and its process is terminated exactly when it had one |
| OdinMDlg.StopAllSpec | src/ODINM/OdinMDlg.cpp:276-281 | stop-all stops exactly the active slots, afterwards none is active and the dialog may close |
| OdinMDlg.StartAllSpec | src/ODINM/OdinMDlg.cpp:259-273 | with a valid image the combo choice becomes the maximum and exactly the first min(maximum, Ready slots) Ready slots are launched in slot order; "nothing to do" is reported exactly when that number is 0 |
| OdinMDlg.StartAll | src/ODINM/OdinMDlg.cpp:259-264 | without a valid image nothing changes, and this is the only refusal |
| OdinMDlg.StartAllLeavesTheRest | src/ODINM/OdinMDlg.cpp:268-269 | Ready slots past the cap stay Ready and slots that were not Ready are untouched |
| OdinMDlg.FirstEmptySpec | src/ODINM/OdinMDlg.cpp:350-351 | the slot chosen is the first empty one, and none is chosen only when none is empty |
| OdinMDlg.DetectOneSpec | src/ODINM/OdinMDlg.cpp:342-358 | one letter only ever fills an empty slot, with that letter, and a removable letter is held by some slot afterwards unless every slot is taken |
| OdinMDlg.DetectOneBinds | src/ODINM/OdinMDlg.cpp:347-355 | a new removable letter goes into the first empty slot and nowhere else |
| OdinMDlg.Placed | src/ODINM/OdinMDlg.cpp:352-354 | the slot receiving a new letter holds it and is no longer empty, started or not |
| OdinMDlg.DetectNewDrivesSpec | src/ODINM/OdinMDlg.cpp:339-360 | detection never disturbs a slot holding a drive, and afterwards every removable letter is held by a slot unless all slots are taken |
| OdinMDlg.Verdict | src/ODINM/OdinMDlg.cpp:509-513 | a digest passes when its expected value is set and equal; the drive passes when each set expected value passed |
| OdinMDlg.VerdictPasses | src/ODINM/OdinMDlg.cpp:509-513 | the drive passes exactly when each expected value is unset or equals the drive's digest, so with nothing expected every drive passes |
| OdinMDlg.VerifyDriveSpec | src/ODINM/OdinMDlg.cpp:484-521 | an unreadable drive fails keeping its old result; otherwise the verdict is recorded and the slot is Complete exactly when it passed; a failure with stop-on-fail stops every active slot, and no other slot changes |
| OdinMDlg.VerifyDrive | src/ODINM/OdinMDlg.cpp:486-487 | an empty slot is left alone |
| OdinMDlg.TimerOneSpec | src/ODINM/OdinMDlg.cpp:157-186 | only a cloning slot with a process that no longer reports 259 changes; it ends Complete or Failed with no process, at 100% after exit 0 or an unopenable process; any other exit code fails it; exit 0 without verification completes it; other slots are at most stopped |
| OdinMDlg.ExitCode259LooksRunning | src/ODINM/OdinMDlg.cpp:163-166 | a process that exited with code 259 keeps its slot cloning |
| OdinMDlg.OnTimerSettles | src/ODINM/OdinMDlg.cpp:152-193 | after a tick no slot whose process has ended is still cloning, and no slot starts cloning except a newly detected drive |
| OdinMDlg.StatusCountsSpec | src/ODINM/OdinMDlg.cpp:416-426 | no slot is counted twice, and the active count is 0 exactly when the dialog may close |
| HashConfigDlg.ImageLabel | src/ODINM/HashConfigDlg.cpp:205-217 | without an image the label is the placeholder; otherwise it is the text after the last `\` or `/` |
| HashConfigDlg.ImageLabelIsFileName | src/ODINM/HashConfigDlg.cpp:208-211 | the label is a separator-free tail of the path, and the whole path when it has no separator |
| HashConfigDlg.SelectedIndex | src/ODINM/HashConfigDlg.cpp:229-231 | the selection is always one of the ten entries: the partition's own entry when it is 1..10, else the first |
| HashConfigDlg.ItemData | src/ODINM/HashConfigDlg.cpp:222-228 | entry i carries partition number i + 1 |
| HashConfigDlg.ReadText | src/ODINM/HashConfigDlg.cpp:291-296 | text read back from an edit control is its first 1023 characters, all of it when it fits |
| HashConfigDlg.ToControls | src/ODINM/HashConfigDlg.cpp:203-242 | the controls show the image's file name, the partition's entry, both expected values and the four flags |
| HashConfigDlg.FromControls | src/ODINM/HashConfigDlg.cpp:247-272 | OK stores the selected entry's partition number (kept when nothing is selected), both expected values upper-cased, and the four boxes; the image path and partition type are untouched |
| HashConfigDlg.OpenOkKeepsConfig | src/ODINM/HashConfigDlg.cpp:203-272 | opening the dialog and pressing OK changes nothing for a partition the combo offers and upper-case values that fit the controls |
| HashConfigDlg.OpenOkResetsUnknownPartition | src/ODINM/HashConfigDlg.cpp:229-231 | a partition number outside 1..10 comes back as partition 1 |
| HashConfigDlg.DefaultsOpenOnPartitionOne | src/ODINM/HashConfigDlg.cpp:203-242 | the default settings open on the first entry with only the SHA-1 boxes checked and the no-image label |
| HashConfigDlg.UpperCasedMatchesCalculator | src/ODINM/HashConfigDlg.cpp:259-265 | upper-casing what was typed makes it equal the calculator's hex text exactly when the two agree ignoring case |
| HashConfigDlg.StatusLabel | src/ODINM/HashConfigDlg.cpp:277-286 | a status reads "Not configured" exactly for an empty edit control and "Hash set" otherwise |
| HashConfigDlg.Calculate | src/ODINM/HashConfigDlg.cpp:128-198 | hashing is refused, each with its own outcome, for an empty path, a file that does not open, or an unknown or zero size; a failed calculation changes nothing; otherwise exactly the requested, non-empty digests replace the edit texts |
| HashConfigDlg.FilledDigestIsSet | src/ODINM/HashConfigDlg.cpp:192-197 | after a fill each requested non-empty digest's status reads "Hash set" |
| HashConfigDlg.ImageDigests | src/ODINM/HashConfigDlg.cpp:163-181 | both digests come from one pass over the whole file, less each digest's failed updates; a single digest is of the whole file, with "" for the other; a readable file with working crypto always yields digests |
| HashConfigDlg.CalculateFromImage | src/ODINM/HashConfigDlg.cpp:128-198 | the refusals as in `Calculate`; a filled digest is the hex of the whole file's digest from the calculator (for both digests, less the chunks whose update failed), an unrequested one is kept, and a readable file with working crypto is always filled |
| ODINDlg.LastIndexOf | src/ODIN/ODINDlg.cpp:78 | `rfind` answers a position holding the character with none after it, or nothing when the character does not occur |
| ODINDlg.LastIndexOfUnique | src/ODIN/ODINDlg.cpp:78 | a position holding the character with none after it is the one `rfind` answers |
| ODINDlg.NumberText | src/ODIN/ODINDlg.cpp:75-76 | the `%04u` part number is at least four digits, reads back as the number, and holds no '.' |
| ODINDlg.GetFileNameAsWritten | src/ODIN/ODINDlg.cpp:73-87 | as written, the unsigned "no dot" test never holds, so a name without '.' reaches `substr(npos)` and throws, and only such a name does |
| ODINDlg.NoDotThrows | src/ODIN/ODINDlg.cpp:78-82 | part 1 of an image named `backup` cannot be named |
| ODINDlg.GetFileName | src/ODIN/ODINDlg.cpp:73-87 | the intended name agrees with the code wherever the code forms one, and appends the number to a name without '.' |
| ODINDlg.NumberedNameKeepsExtension | src/ODIN/ODINDlg.cpp:82-85 | a numbered name keeps the stem and the extension, the part number sits just before the extension, and its last '.' still starts the extension |
| ODINDlg.NumberedNamesDistinct | src/ODIN/ODINDlg.cpp:73-87 | different parts of one image get different file names |
| ODINDlg.ClockOf | src/ODIN/ODINDlg.cpp:454 | hours, minutes below 60 and seconds below 60 add up to the duration |
| ODINDlg.Two | src/ODIN/ODINDlg.cpp:454 | a `%02u` field is digits that read back as the value, two of them below 100 |
| ODINDlg.ClockTextReadsBack | src/ODIN/ODINDlg.cpp:454-461 | a duration below 100 hours is written as `hh:mm:ss` text that reads back as that duration |
| ODINDlg.NoEtaIsNoClock | src/ODIN/ODINDlg.cpp:448 | the "--:--:--" text never reads as a duration |
| ODINDlg.UpdateStatus | src/ODIN/ODINDlg.cpp:427-464 | a status line is shown exactly when the total is known; the speed is missing exactly when under half a second has passed; an ETA needs processed bytes |
| ODINDlg.PercentRounds | src/ODIN/ODINDlg.cpp:428 | the bar is the processed share rounded to the nearest percent: 0 at the start, 100 at the end, within 0..100 in between |
| ODINDlg.ElapsedAndSpeed | src/ODIN/ODINDlg.cpp:438-446 | the elapsed time is the ticks rounded to the nearest second and shown exactly below 2^32 seconds; the speed is bytes per elapsed second, rounded down |
| ODINDlg.EtaShownIff | src/ODIN/ODINDlg.cpp:448-456 | an ETA is shown exactly when bytes were processed and the rounded estimate is not below the elapsed time, which always holds while within the total |
| ODINDlg.EtaIsRemainingTime | src/ODIN/ODINDlg.cpp:450-454 | a shown ETA is the estimated total time (elapsed × total / processed, rounded) less the elapsed time, modulo 2^32 seconds |
| ODINDlg.DetectCFCard | src/ODIN/ODINDlg.cpp:1095-1123 | the answer is the first whole removable disk within 10% of the target size, or -1 exactly when there is none |
| ODINDlg.FirstCFCardSpec | src/ODIN/ODINDlg.cpp:1102-1122 | the recursive search finds the first matching drive from a start position, or none exactly when no later drive matches |
| ODINDlg.DetectMatchesFirst | src/ODIN/ODINDlg.cpp:1095-1123 | any answer meeting `DetectCFCard`'s contract is the recursive search's answer |
| ODINDlg.DefaultTargetWindow | src/ODIN/ODINDlg.cpp:1098-1116 | with the default 8 GB target, an 8·10⁹-byte removable disk matches, a 16·10⁹-byte one or a partition does not |
| ODINDlg.TriggerAutoFlash | src/ODIN/ODINDlg.cpp:1125-1137 | a drive is selected exactly when an image name other than "Browse..." is chosen, and it is the detected drive |
| ODINDlg.AutoFlashSpec | src/ODIN/ODINDlg.cpp:767-792 | a restore starts exactly on a volume arrival, with auto-flash on, in restore mode, with an image chosen and a card present, and on the first card |
| ODINDlg.PartitionFileSystemInverse | src/ODIN/ODINDlg.cpp:252-271 | each file-system name comes from exactly its listed partition type codes, and every other code is unknown |
| ODINDlg.LastImageOnClose | src/ODIN/ODINDlg.cpp:993-999 | the remembered image becomes the combo text unless the "Browse..." entry is selected; typed text is kept |
| VSSWrapper.FullPath | src/ODIN/VSSWrapper.cpp:169-176 | the compared path is the logical path, one backslash and the name, or the name alone under an empty logical path |
| VSSWrapper.FindParent | src/ODIN/VSSWrapper.cpp:248-261 | a found parent is another component in the list whose full path is this component's logical path |
| VSSWrapper.FindParentFirst | src/ODIN/VSSWrapper.cpp:248-261 | the search stops at the first such component, and finds none exactly when no other component matches |
| VSSWrapper.ComputeComponentTreeSpec | src/ODIN/VSSWrapper.cpp:240-263 | only the parent link changes; a new link points at the first other component whose logical path is this component's full path, and a link is set whenever one exists |
| VSSWrapper.ResizeAdded | src/ODIN/VSSWrapper.cpp:242 | the added flags take the list's length, keeping existing flags and adding false ones |
| VSSWrapper.ComputedTreeWellLinked | src/ODIN/VSSWrapper.cpp:240-263 | because the test compares the other way round, every linked component has a strictly longer logical path, so links never form a cycle for named components |
| VSSWrapper.UnnamedComponentsCycle | src/ODIN/VSSWrapper.cpp:240-263 | two components with empty path and empty name are linked to each other, a cycle the ancestor walk would not leave |
| VSSWrapper.MaxPathLength | src/ODIN/VSSWrapper.cpp:66-79 | a bound on every logical path length, the measure the ancestor walk climbs towards |
| VSSWrapper.HasSelectableAncestorSpec | src/ODIN/VSSWrapper.cpp:66-79 | on well-linked components, a selectable ancestor exists exactly when some component one or more links up is selectable |
| VSSWrapper.ShouldAddComponentSpec | src/ODIN/VSSWrapper.cpp:759-773 | a component is left out of the backup exactly when it is not selectable and something up its chain is |
| VSSWrapper.VSSSupportMonotone | src/ODIN/VSSWrapper.cpp:291-309 | support stays on any later Windows version with the other conditions unchanged, and Windows 2000 or NT 4 are never supported |
| VSSWrapper.EndsWith | src/ODIN/VSSWrapper.cpp:775-792 | true exactly for a non-empty string whose last character is the given one |
| VSSWrapper.CombinePathSpec | src/ODIN/VSSWrapper.cpp:794-808 | the result starts with the first path and ends with the second, with exactly one backslash between them when the first is not empty |
| VSSWrapper.CalculateSourcePath | src/ODIN/VSSWrapper.cpp:713-721 | a mount point longer than the backup source makes `substr` throw, and only then |
| VSSWrapper.SourceUnderMountPoint | src/ODIN/VSSWrapper.cpp:713-721 | a source under its mount point is found at the same relative place under the snapshot device |
| VSSWrapper.GetSnapshotDeviceName | src/ODIN/VSSWrapper.cpp:645-649 | a volume without a snapshot has no device, and a device object shorter than 14 characters would be read past its end |
| VSSWrapper.SnapshotDeviceDropsPrefix | src/ODIN/VSSWrapper.cpp:645-649 | the 14 characters dropped are exactly the `\\?\GLOBALROOT` prefix, so the device path behind it comes back |
| OdinManager.DefaultOptions | src/ODIN/OdinManager.cpp:54-60 | no compression, used blocks only, no split (size 0), 1 MiB read blocks and no snapshot |
| OdinManager.Init | src/ODIN/OdinManager.cpp:72-92 | afterwards the manager is idle, the snapshot option stays on only where VSS is supported, and the other options are unchanged |
| OdinManager.NewManager | src/ODIN/OdinManager.cpp:54-65 | a new manager is idle, not cancelled, and never wants a snapshot on a platform without VSS |
| OdinManager.Reset | src/ODIN/OdinManager.cpp:119-138 | in multi-volume mode only the operation and the saving and restoring flags are dropped; otherwise the snapshot goes and the manager is re-initialised |
| OdinManager.ResetQuiesces | src/ODIN/OdinManager.cpp:119-138 | after a reset no thread is left and nothing is being saved or restored; the snapshot survives only in multi-volume mode; a second reset changes nothing |
| OdinManager.TerminateLeavesIdle | src/ODIN/OdinManager.cpp:101-117 | terminating a single-volume operation leaves the manager idle, with a zero total, nothing processed and no error; a multi-volume one keeps its snapshot and volume index |
| OdinManager.CancelOperation | src/ODIN/OdinManager.cpp:365-377 | the cancel is recorded and every existing thread is asked to stop; no thread appears or goes away and nothing else changes |
| OdinManager.ThreadCount | src/ODIN/OdinManager.cpp:428-439 | at most three threads; the count agrees with the number of handles exactly when the reader and writer come as a pair |
| OdinManager.GetThreadHandles | src/ODIN/OdinManager.cpp:441-459 | a buffer shorter than the count is refused; an unpaired reader or writer writes past a buffer of the count's size; otherwise the handles come in reader, writer, (de)compressor order, followed by zeros |
| OdinManager.PairedHandlesFit | src/ODIN/OdinManager.cpp:428-459 | with paired threads, a buffer of exactly the thread count is filled with every handle |
| OdinManager.LoneReaderOverruns | src/ODIN/OdinManager.cpp:428-459 | a lone reader with a compressor counts one thread but writes two handles |
| OdinManager.CompactHandles | src/ODIN/OdinManager.cpp:405-407 | after a handle fires, the live slots hold the others in their old order and the slots after them are untouched |
| OdinManager.CompactionDropsSignalled | src/ODIN/OdinManager.cpp:394-407 | compaction drops exactly the signalled handle from the live ones |
| OdinManager.GetErrorMessage | src/ODIN/OdinManager.cpp:461-475 | the message is the first flagged thread's own, in reader, writer, (de)compressor order, skipping flagged threads without one |
| OdinManager.ErrorMessageMeansError | src/ODIN/OdinManager.cpp:461-482 | a message is reported only after an error, and there is none exactly when every flagged thread lacks one |
| OdinManager.MessageIffError | src/ODIN/OdinManager.cpp:461-482 | when every failing thread leaves a message, reporting a message and having failed coincide |
| OdinManager.UsedBytes | src/ODIN/OdinManager.cpp:504-506 | a stream's used bytes are its allocated bytes, or its size for a raw disk that reports none, and never more than its size |
| OdinManager.GetTotalBytesToProcess | src/ODIN/OdinManager.cpp:484-528 | an idle manager counts 0; only a restore with a target, used blocks and no source fails (a null read); saving and verifying never count past the source's size |
| OdinManager.GetBytesProcessed | src/ODIN/OdinManager.cpp:530-542 | the writer's count when restoring, else the reader's when saving; a count above 0 needs a running operation with a thread |
| OdinManager.DecompressionFormat | src/ODIN/OdinManager.cpp:288-292 | only a restore or verify decodes a compression format, and it is the image header's |
| OdinManager.UncompressedRestoreStarvesWriter | src/ODIN/OdinManager.cpp:294-302 | as written, restoring an uncompressed image while a compression option is stored points the writer at a queue no thread fills |
| OdinManager.WriterQueueHasProducer | src/ODIN/OdinManager.cpp:294-302 | with the corrected choice, the writer reads the (de)compression queue exactly when a thread fills it; this agrees with the code for every backup |
| OdinManager.ClusterSize | src/ODIN/OdinManager.cpp:331-335 | the drive's cluster size when it reports one, else the boot sector's |
| OdinManager.SourceDevice | src/ODIN/OdinManager.cpp:246-261 | the snapshot's device when a snapshot is used and has a non-empty name, else the drive's device |
| OdinManager.DoCopyOutcomes | src/ODIN/OdinManager.cpp:213-363 | only a missing operation is refused as such; "chunk size too small" comes exactly for a used-block backup whose header and allocation map outgrow a set split size; save-all is forced exactly for the listed reasons |
| OdinManager.DoCopyStarts | src/ODIN/OdinManager.cpp:213-363 | a started copy has a reader and writer pair plus a (de)compressor exactly when needed; all handles fit; the flags match the operation; verify has no target; the total is readable, nothing is processed yet and the options are kept |
| OdinManager.DoCopyTotal | src/ODIN/OdinManager.cpp:484-528 | a started copy's progress total is the source's size or used bytes, or for a restore the target's size or the image's used bytes, following the stored save-all option |
| OdinManager.DoCopyFeedsWriter | src/ODIN/OdinManager.cpp:283-306 | in a copy started by the corrected definition the writer takes from the (de)compression queue exactly when a (de)compression thread exists |
| OdinManager.DoCopyStarvesWriter | src/ODIN/OdinManager.cpp:294-302 | as written, restoring an uncompressed image with gzip stored starts the copy with the writer on the (de)compression queue and no thread filling it |
| OdinManager.DoCopyCorrectedDiffersOnlyInQueue | src/ODIN/OdinManager.cpp:294-302 | the corrected copy starts exactly when the written one does and differs from it only in the writer's queue; for a backup the two are equal |
| OdinManager.WholeDiskTotalUsesAllocated | src/ODIN/OdinManager.cpp:339-340 | a whole-disk backup with the used-blocks option saves every block, yet its progress total counts only the allocated bytes |
| OptionsDlg.ShowSaveMode | src/ODIN/OptionsDlg.cpp:147-180 | all blocks is checked exactly when not only used blocks are saved; the snapshot button is enabled exactly with VSS and checked for a used-block snapshot only then; without VSS a snapshot choice checks used blocks |
| OptionsDlg.CommitSaveMode | src/ODIN/OptionsDlg.cpp:182-198 | only used blocks is stored exactly when the used-blocks or snapshot button is checked, the snapshot flag only when the snapshot button alone is, and a snapshot always with used blocks |
| OptionsDlg.SaveModeRoundTrip | src/ODIN/OptionsDlg.cpp:147-198 | every save mode the buttons can express, a snapshot only with VSS, comes back unchanged |
| OptionsDlg.SaveModeLossy | src/ODIN/OptionsDlg.cpp:147-198 | a snapshot flag without used-blocks mode is dropped; without VSS a snapshot choice becomes used blocks, even with save-all set, when two buttons end up checked |
| OptionsDlg.SaveModeCodecIsCanonical | src/ODIN/OptionsDlg.cpp:147-198 | the buttons store every save mode in its canonical form, which never keeps a snapshot without used blocks or without VSS |
| OptionsDlg.ShowCompression | src/ODIN/OptionsDlg.cpp:103-127 | exactly one compression button is checked, "none" exactly for no compression and for legacy bzip2 |
| OptionsDlg.CommitCompression | src/ODIN/OptionsDlg.cpp:129-145 | a checked button never yields bzip2; with none checked the dialog's previous mode is stored |
| OptionsDlg.CompressionRoundTrip | src/ODIN/OptionsDlg.cpp:103-145 | each offered format comes back unchanged; bzip2 comes back as no compression |
| OptionsDlg.ShowSplit | src/ODIN/OptionsDlg.cpp:59-82 | the edit shows the split size in whole MiB as decimal digits; split is checked and the edit enabled exactly when that is at least one |
| OptionsDlg.SkipCSpace | src/ODIN/OptionsDlg.cpp:209 | `_wtol` starts after the leading C white space, a suffix of the text |
| OptionsDlg.DigitPrefix | src/ODIN/OptionsDlg.cpp:209 | the digits `_wtol` reads are the longest digit prefix |
| OptionsDlg.Wtol | src/ODIN/OptionsDlg.cpp:209 | the value always lies in the 32-bit `long` range |
| OptionsDlg.WtolOfDecimal | src/ODIN/OptionsDlg.cpp:209 | decimal text of a value within the `long` range reads back as that value |
| OptionsDlg.ChunkText | src/ODIN/OptionsDlg.cpp:205-208 | the 100-character buffer holds a prefix of at most 99 characters, the whole text when it fits |
| OptionsDlg.ChunkSizeNumber | src/ODIN/OptionsDlg.cpp:200-211 | the size is a 64-bit multiple of 1 MiB, the typed number of MiB whenever that is not negative |
| OptionsDlg.ShownChunkReadsBack | src/ODIN/OptionsDlg.cpp:200-211 | the shown chunk size reads back as the stored size rounded down to whole MiB |
| OptionsDlg.NegativeChunkWraps | src/ODIN/OptionsDlg.cpp:209 | a typed "-1" wraps through the unsigned conversion to 2^64 − 2^20 bytes |
| OptionsDlg.CommitSplit | src/ODIN/OptionsDlg.cpp:84-101 | split checked stores the typed size, no-split checked stores 0, and neither keeps the size |
| OptionsDlg.Open | src/ODIN/OptionsDlg.cpp:43-48 | the opened dialog shows the stored split size, compression and save mode and counts as unchanged |
| OptionsDlg.Commit | src/ODIN/OptionsDlg.cpp:50-57 | the split size, compression and save mode are written back from the controls and the other options stay |
| OptionsDlg.OnOk | src/ODIN/OptionsDlg.cpp:263-277 | the options are written back exactly when a click changed something or the typed split size differs from the stored one; otherwise nothing changes |
| OptionsDlg.OnCancel | src/ODIN/OptionsDlg.cpp:279-284 | cancelling never changes the options |
| OptionsDlg.ClickSaveMode | src/ODIN/OptionsDlg.cpp:173-231 | a clicked save-mode button, the snapshot one only while enabled with VSS, is the one stored on commit, and the dialog counts as changed |
| OptionsDlg.ClickCompression | src/ODIN/OptionsDlg.cpp:233-237 | a clicked compression format is the one stored on commit, and the dialog counts as changed |
| OptionsDlg.ClickSplit | src/ODIN/OptionsDlg.cpp:239-255 | clicking split or no-split checks it alone, enables the edit only for split, keeps the text, and marks the dialog changed |
| OptionsDlg.Canonical | src/ODIN/OptionsDlg.cpp:43-57 | the canonical options hold a whole-MiB split size no larger than the stored one, never bzip2, and a snapshot only with used blocks and VSS |
| OptionsDlg.CommitOfOpenIsCanonical | src/ODIN/OptionsDlg.cpp:43-57 | committing the dialog just opened stores the canonical form of the options |
| OptionsDlg.CanonicalIdempotent | src/ODIN/OptionsDlg.cpp:43-57 | the canonical form is a fixed point: a second open and commit changes nothing more |
| OptionsDlg.OpenOkKeepsOptions | src/ODIN/OptionsDlg.cpp:263-277 | opening the dialog and pressing OK keeps the options whenever the split size shows exactly |
| OptionsDlg.OpenOkTruncatesSplit | src/ODIN/OptionsDlg.cpp:263-277 | a split size that is not whole MiB counts as changed on OK and is stored truncated, together with the other lossy conversions |
| OptionsDlg.ChosenSaveModeIsStored | src/ODIN/OptionsDlg.cpp:182-198 | choosing a save mode and pressing OK stores exactly that mode |

## Left out

- Window layout, theming, dark mode, custom drawing, message boxes, menus and the Tk/ATL event plumbing. None of it decides anything the model covers.
- `src/ODIN/AboutDlg.cpp`, `src/ODIN/CompressionThread.cpp`, `src/ODIN/DecompressionThread.cpp`, `src/ODIN/compressioncompat.cpp`, `OdinM_py/config_manager.py`, `OdinM_py/main.py` and `src/ODINM/OdinM.cpp` are not part of this model. They are UI, entry points or thin wrappers over compression libraries and a settings file; their settings (auto-clone, the imager path) enter the model as inputs.
- `OdinM_py/ui/main_window.py` and `OdinM_py/ui/slot_widget.py` enter the model only as the status and progress each slot shows (`App.shownStatus`, `App.shownProgress`); drive texts, percentage labels and button captions are not modelled.
- Processes, threads and timers: launching `odinc`, `taskkill`, the worker threads, `root.after`, `MsgWaitForMultipleObjects` and the native timer. Threads are sequential steps, callbacks are the ordered lists of events a worker posts, and the outcome of a launch is an input.
- The SHA-1 and SHA-256 computations (`hashlib`, CryptoAPI) are parameters from the bytes fed to the digest. CryptoAPI calls are observed only as success or failure.
- The thin forwarders `CalculateSHA1` and `CalculateSHA256` (`src/ODINM/HashCalculator.cpp:14-27`) and the file-opening wrappers (`src/ODINM/HashCalculator.cpp:112-145`) are not modelled separately; the chunk loops they call are.
- The Win32 device and volume queries (`GetLogicalDrives`, `GetDriveTypeW`, `DeviceIoControl`, `GetVolumeInformationW`, `GetFileSizeEx`, `os.path.exists`, `os.path.getsize`) are data: what each query answers is a field of the environment passed in.
- The VSS COM sequence (`PrepareSnapshot`, `ReleaseSnapshot`, `Cleanup`, the writer metadata calls) is not modelled. Only the tree, selection, support and path logic is.
- Persistence: the JSON files behind the digest store and log, the ini settings files and the file handles of `.hashcfg`. Stores are maps and the `.hashcfg` file is its text. Log and status lines that only report are not modelled.
- Clocks: `datetime.now`, `QueryPerformanceCounter` and `GetLocalTime` become parameters (days since a timestamp, tick counts).
- Floating-point display text: `size_str`'s numeric branch, `_fmt_size`, the gigabyte column and the poller's MB text. The model records which branch is taken, not the digits.
- Python's `int(a * 100 / b)` is float division; the model uses integer floor division on the non-negative operands.
- Python `str.strip`, `str.lower`, `str.isspace` and `os.path.normcase`, and C `towupper`, are modelled on ASCII letters and ASCII white space only. Unicode case mapping and white space are not modelled.
- Python `int()` accepts underscores and non-ASCII digits; the model's parser accepts ASCII digits with an optional sign only.
- `os.path.basename` is modelled for drive-letter and plain paths; UNC share prefixes are not treated specially.
- A manifest file is given as its lines; universal-newline splitting and encoding errors are not modelled.
- Digest-store partitions are keyed by integer; the source keys them by the decimal text of the integer, which is the same map on every key the code writes.
- `odinc` output bytes are decoded one by one; the model represents each undecodable byte as U+FFFD, which is never a digit, `%` or newline.
- Native wide characters are Dafny `char`s; `DWORD`, `unsigned __int64` and `LONG` are unbounded except where the model writes out the wrap-around (the `DWORD` clock fields, the 64-bit chunk size, `_wtol`'s clamp).
- HashCalculator.ReadLoop: the 64-bit product `processed * 100` in the progress formula is not wrapped, so progress for ranges beyond 2^64/100 bytes is stated as the unwrapped quotient.
- ODINDlg.PercentRounds: the 64-bit product `processed * 100` is not wrapped, as above.
- ODINDlg.NumberText: `wsprintf` into a 10-character buffer overflows for part numbers of ten or more digits; the model assumes the text fits.
- ODINDlg.UpdateStatus: requires a positive performance-counter frequency, which Windows guarantees on every supported system.
- VSSWrapper.HasSelectableAncestorSpec: requires the parent links to be well formed (each parent has a longer logical path). `VSSWrapper.UnnamedComponentsCycle` shows the links the code forms for unnamed components, on which the source's recursion never ends.
- OdinManager.DoCopyOutcomes: a refused copy ("chunk size too small", a missing drive) returns no manager state. In the source the streams and queues opened before the throw stay until the next reset.
- OdinManager.DoCopyStarts: the header writing, the allocation-map reader set-up and the split manager's file handling are not modelled; only which threads, queues and streams exist afterwards is.
- OdinMDlg: `OnStopAll` is modelled as `StopClone` on each active slot; the killed processes' ids are not collected.
- DriveSlot: the Verifying status exists and is handled, but the native dialog verifies synchronously, so no state the model reaches leaves a slot Verifying between timer ticks.
- OptionsDlg.Wtol: only the C locale's white space is skipped.
- OptionsDlg.ShowSplit: the split size is an unbounded natural number rather than a 64-bit value.
- HashCalculator.ReadLoop: progress is recorded after every chunk as if a callback were always given; the source skips the report when no callback is passed, which changes nothing else.
- App.OnWorkerDone: the outcome is written to the slot's current worker. In the source it goes to the worker object that finished; the two differ only if the slot is restarted between `_fire_done` and the scheduled `_on_worker_done`.
- ConfigureHashDialog.Open: when the partition read raises during `__init__`, the exception also escapes the constructor and reaches its caller; the model keeps the half-built dialog's state, with nothing detected, and does not model the caller.
- PartitionReader.ReadMbrPartitions: the kind of exception raised for an unreachable seek position is not modelled, only that it is not an OSError and so is not caught.
- MakeImageDialog: `winfo_exists` is modelled only for the make-image dialog, as its `open` flag; the other dialogs are assumed open while their callbacks run.

## Findings

| source | as written | input that shows it | evidently intended | confidence | as-written member | corrected member |
|---|---|---|---|---|---|---|
| OdinM_py/ui/configure_hash_dialog.py:38-44 | the working partition is set to 1 while the fields are loaded from partition 0, so Save stores partition 0's fields as partition 1 | an image with partition 1 configured; open the dialog and press Save | the working partition is the one whose fields are shown (0) | high, not executed | ConfigureHashDialog.OpenSaveOverwritesPartitionOne | ConfigureHashDialog.OpenSaveKeepsOtherPartitions |
| OdinM_py/ui/image_options_dialog.py:111 | the chunk spin box starts at `max(split_mb, 700)`, so any stored split size below 700 is raised on OK | flags `-split=200`: reopen and press OK, and `-split=700` comes back | start at the stored split size, which OK can write back (100 or more) | high, not executed | ImageOptionsDialog.ReopenSplit200 | ImageOptionsDialog.ReopenKeepsSettings |
| src/ODIN/ODINDlg.cpp:78-82 | `lastDotPos < 0` is never true for the unsigned position, so a name without '.' reaches `substr(npos)`, which throws | part 1 of an image file named `backup` | append the part number to a name without an extension | high, not executed | ODINDlg.NoDotThrows | ODINDlg.NumberedNamesDistinct |
| src/ODIN/OdinManager.cpp:294-302 | the writer reads the (de)compression queue whenever a compression option is stored, but a restore starts a decompressor only for a compressed image | stored option gzip, restore of an uncompressed image: no thread fills the writer's queue | the writer reads the (de)compression queue exactly when a (de)compression thread exists | medium, not executed | OdinManager.DoCopyStarvesWriter | OdinManager.DoCopyFeedsWriter |
