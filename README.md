# A verified model of the CleanSlate sanitisation core

CleanSlate is a set of data-sanitisation tools: desktop Python programs and a
React Native mobile app. This project models, in Dafny, the routines that
overwrite, stage, restore and attest data. It proves what those routines
promise and where they fall short. The graphical shells around them are not
modelled.

The model follows the program's structure, one module per concern:

- **WipePatterns, WipePlan, WipeEngine, EngineProperties** cover the desktop
  per-file wipe engine (`secure-data-wiper/utils/wipe_engine.py`):
  - the five named pass lists and the method-name lookup;
  - the chunked overwrite of one file as a plan of steps;
  - a `SecureWipeEngine` class whose `WipeFile`/`WipeDirectory` methods are proved to execute that plan;
  - the progress formula;
  - the directory counts;
  - the entropy heuristic of `verify_wipe`.
- **Storage** is an open file or raw device: a byte buffer with a write
  position, a sync counter and an open flag. The engine and the raw writers
  update it in place.
- **BlockWrites, Prototype, BackendOld, BackendNew, BackendRaw, TestDemo** cover
  the five raw-device block writers (`prototype_1.py`, `backedn_old.py`,
  `data-wipe-backend-new.py`, `data-wipe-backend.py`, `testdemo1.py`). Each is
  an imperative method over an array, with a running hash input. Each is proved
  against a specification of:
  - the bytes on the media;
  - the bytes fed to the hash;
  - the progress marks;
  - the way the run ends.
- **Staging, StagingEngine** cover the staged delete with undo in
  `data-wipe-final.py`:
  - a file system of files and directories;
  - `shutil.move` semantics;
  - `wipe_target` staging moves onto an undo stack;
  - `undo` replaying that stack in reverse, then the purge;
  - the two-pass `_overwrite_drive`;
  - the countdown of the GUI's final-delete rule.

  The central theorem is the round trip: stage, then undo, restores every
  file with its content.
- **Json, Certificate** cover the certificate generator
  (`secure-data-wiper/utils/certificate_generator.py`):
  - Python's `json.dumps(..., sort_keys=True)` text, with a decoder that proves
    it injective and independent of key order;
  - the verification record and its hash;
  - the certificate body and its signature;
  - `verify_certificate`.

  SHA-256 and SHA-512 are function parameters. Injectivity is assumed only
  where a tamper-detection lemma needs it.
- **MobileFs, MobileWipe, MobileProperties** cover the mobile
  `DataWipingService`:
  - the method and pattern tables;
  - the temp-file `overwriteFile` loop;
  - `wipeFile` and the result accounting of `wipeData`, with its re-entrancy guard;
  - `verifyWipe` and cancellation.

  All of this runs over a path-string file system.
- **FileBrowser** covers the mobile `FileBrowserService`:
  - protected paths;
  - extension and type classification;
  - expansion of a selection into files to wipe;
  - path sizes;
  - the directories-first browse order.

Randomness is a caller-supplied function from (pass, offset) to a byte. A
stop flag that another thread may raise is an oracle indexed by how many
times the flag has been read. Hashes are function parameters.

## Model

| member | source | states |
|---|---|---|
| WipePatterns.GetPattern | secure-data-wiper/utils/wipe_engine.py:323-333 | each of the five method labels maps to its own pass list, and every other label falls back to the 3-pass DoD list |
| WipePatterns.NamedPatternShapes | secure-data-wiper/utils/wipe_engine.py:15-79 | the five lists have 3, 7, 35, 1 and 3 passes, and every fixed pass in them is exactly 512 bytes |
| WipePatterns.GutmannShape | secure-data-wiper/utils/wipe_engine.py:36-73 | the simplified Gutmann list has 35 passes, all fixed ones 512 bytes long, including the three 170-triplet-plus-two rotations |
| WipePatterns.DodWithDefault | secure-data-wiper/utils/wipe_engine.py:18-22 | the DoD list is zeros, ones, random; every list the lookup returns is non-empty with 512-byte fixed passes |
| WipePatterns.TripletIs512 | secure-data-wiper/utils/wipe_engine.py:44-46 | three bytes repeated 170 times plus two more make 512 bytes |
| WipePatterns.SolidIs512 | secure-data-wiper/utils/wipe_engine.py:20 | a one-byte pattern repeated 512 times is a 512-byte pass |
| WipePatterns.GutmannOpening | secure-data-wiper/utils/wipe_engine.py:38-46 | the four random passes, the two alternating-bit passes and the three rotations open the Gutmann list with 512-byte fixed passes |
| WipePatterns.GutmannSolids | secure-data-wiper/utils/wipe_engine.py:47-62 | the sixteen solid passes from 0x00 to 0xFF are 512 bytes each |
| Storage.Handle.Write | secure-data-wiper/utils/wipe_engine.py:138 | a write, on an open handle only, puts the block at the current position, leaves every other byte alone and advances the position by its length |
| Storage.Handle.TryWrite | data-wipe-backend.py:81-82 | on an open handle, a device write succeeds exactly when the block fits before the end of the media; a failed write changes neither media nor position |
| Storage.Handle.Rewind | secure-data-wiper/utils/wipe_engine.py:121 | `seek(0)` puts the position at 0 |
| Storage.Handle.Sync | secure-data-wiper/utils/wipe_engine.py:146-147 | `flush` plus `fsync` is counted once per pass |
| Storage.Handle.Open | secure-data-wiper/utils/wipe_engine.py:112 | opening "r+b" gives a fresh buffer holding the file's content at position 0 |
| Storage.Handle.OpenDevice | prototype_1.py:92 | opening a raw device writes through to its media, from position 0 |
| Storage.Handle.Close | prototype_1.py:114 | closing leaves the handle closed |
| WipePlan.Exec | secure-data-wiper/utils/wipe_engine.py:121-139 | a chunk step writes its data at its position when it fits and changes no length; a pass start changes no byte |
| WipePlan.PlanFits | secure-data-wiper/utils/wipe_engine.py:113-147 | every write the loop performs lies inside the file, so the file never grows |
| WipePlan.RandomPassOverwrites | secure-data-wiper/utils/wipe_engine.py:124-139 | a random pass replaces every byte of the file with fresh random bytes |
| WipePlan.RandomPassChunks | secure-data-wiper/utils/wipe_engine.py:124-139 | a random pass writes the file size in bytes, in 4096-byte chunks and a last chunk of 1 to 4096 bytes; an empty file gets no chunk |
| WipePlan.FixedPassEffect | secure-data-wiper/utils/wipe_engine.py:129-139 | a fixed 512-byte pass leaves one copy of the pattern per counted 4096-byte chunk and the old bytes after them (as written) |
| WipePlan.FixedPassBytes | secure-data-wiper/utils/wipe_engine.py:129-139 | a fixed pass writes only FixedCoverage(size) bytes, which is below the size for every file over 512 bytes |
| WipePlan.FixedPassKeepsTail | secure-data-wiper/utils/wipe_engine.py:129-139 | after a fixed pass every byte from FixedCoverage(size) on is the old byte |
| WipePlan.FixedPassLeavesOldBytes | secure-data-wiper/utils/wipe_engine.py:136 | a 1024-byte file of 0xFF keeps its last 512 bytes of 0xFF after the zero pass |
| WipePlan.Cycle | secure-data-wiper/utils/wipe_engine.py:136 | the corrected chunk: byte i is the pattern byte at (offset + i) mod pattern length |
| WipePlan.CorrectedPassOverwrites | secure-data-wiper/utils/wipe_engine.py:124-139 | with the pattern repeated to fill each chunk, a pass leaves exactly the pass image in the file |
| WipePlan.ProgressMonotone | secure-data-wiper/utils/wipe_engine.py:142-144 | within a pass the progress value rises strictly with the bytes counted |
| WipePlan.ProgressBoundary | secure-data-wiper/utils/wipe_engine.py:142-144 | the end of pass n and the start of pass n+1 give the same progress value |
| WipePlan.ProgressEnds | secure-data-wiper/utils/wipe_engine.py:142-144 | progress is 0 before the first byte and 100 after the last byte of the last pass |
| WipePlan.PlanProgress | secure-data-wiper/utils/wipe_engine.py:113-144 | the progress values a run of a non-empty file reports rise strictly, stay in (0, 100] and end at 100 |
| WipePlan.ProgressDuringRun | secure-data-wiper/utils/wipe_engine.py:113-144 | progress seen at an earlier stop is never above progress at a later stop, and a full run ends at 100 |
| WipePlan.ZeroSizeWritesNothing | secure-data-wiper/utils/wipe_engine.py:121-124 | an empty file gets one pass start per pass and no write and no progress value |
| WipePlan.FullRunEndsRandom | secure-data-wiper/utils/wipe_engine.py:113-147 | when the last pass is random, the file after a full run is exactly that pass's random bytes |
| WipePlan.NamedPatternsEndRandom | secure-data-wiper/utils/wipe_engine.py:15-79 | every list the method lookup returns ends with a random pass |
| WipeEngine.Count | secure-data-wiper/utils/wipe_engine.py:198-201 | each file adds one to exactly one of the wiped and failed counters |
| WipeEngine.RandomName | secure-data-wiper/utils/wipe_engine.py:290 | the new name is 16 lower-case hexadecimal characters |
| WipeEngine.RandomFilename | secure-data-wiper/utils/wipe_engine.py:287-291 | the new path lies in the original's directory, under the 16-character random name |
| WipeEngine.WipeFileOutcome | secure-data-wiper/utils/wipe_engine.py:102-168 | wiping a file never changes the directories |
| WipeEngine.OutcomeStopped | secure-data-wiper/utils/wipe_engine.py:113-116 | a file whose plan run was stopped keeps the bytes written so far, stays in place and the call returns False |
| WipeEngine.OutcomeCompleted | secure-data-wiper/utils/wipe_engine.py:113-164 | a file whose plan ran to the end is renamed and removed, neither name remains, and the call returns True |
| WipeEngine.RegularFiles | secure-data-wiper/utils/wipe_engine.py:182-189 | the listing keeps exactly the entries that are regular files, and no more of them than were listed |
| WipeEngine.PlanOutcome | secure-data-wiper/utils/wipe_engine.py:112-164 | a stopped run leaves the partly written file in place and reports failure; a full run removes the file and its random name and reports success |
| WipeEngine.SecureWipeEngine.constructor | secure-data-wiper/utils/wipe_engine.py:82-87 | a new engine has the flag clear, progress 0 and status "Idle" |
| WipeEngine.SecureWipeEngine.StopWipe | secure-data-wiper/utils/wipe_engine.py:303-306 | raises the stop flag and changes nothing else |
| WipeEngine.SecureWipeEngine.Reset | secure-data-wiper/utils/wipe_engine.py:308-312 | clears the flag, zeroes progress and sets the status back to "Idle" |
| WipeEngine.SecureWipeEngine.ReadStop | secure-data-wiper/utils/wipe_engine.py:114 | one `is_set()` read sees a raised flag or a stop that arrived just then, and a seen stop stays raised |
| WipeEngine.SecureWipeEngine.WriteChunk | secure-data-wiper/utils/wipe_engine.py:125-144 | one iteration of the chunk loop: checks the flag, writes one chunk and sets progress, keeping the run on course to its planned outcome |
| WipeEngine.SecureWipeEngine.WriteChunks | secure-data-wiper/utils/wipe_engine.py:122-145 | the chunk loop performs exactly the steps of the pass, or stops where the plan says |
| WipeEngine.SecureWipeEngine.WipePass | secure-data-wiper/utils/wipe_engine.py:113-147 | one pass: the flag check, the status, the rewind, the chunks and the sync, as planned |
| WipeEngine.SecureWipeEngine.WipeFile | secure-data-wiper/utils/wipe_engine.py:102-168 | the method's result and new state are exactly WipeFileOutcome of the old state |
| WipeEngine.SecureWipeEngine.WipeDirectory | secure-data-wiper/utils/wipe_engine.py:170-209 | the counters and new state are exactly WipeDirectoryOutcome of the old state |
| EngineProperties.WipeFileTouchesOnlyItsFile | secure-data-wiper/utils/wipe_engine.py:102-168 | only the file and its random name change; success means the file was there and is gone; a stop leaves a same-size file and a raised flag; a missing file is a failure that changes nothing |
| EngineProperties.StopBeforeWipe | secure-data-wiper/utils/wipe_engine.py:113-116 | with the flag already raised the file is untouched and the result is failure after one flag read |
| EngineProperties.PassKeepsStatus | secure-data-wiper/utils/wipe_engine.py:118-145 | the chunk loop never changes the status |
| EngineProperties.PlanEndsAtLastPass | secure-data-wiper/utils/wipe_engine.py:118 | after a run the status reads "Pass total/total" |
| EngineProperties.WipeFileWithoutStop | secure-data-wiper/utils/wipe_engine.py:102-164 | with no stop the file is wiped and removed, the status names the last pass and progress ends at 100 |
| EngineProperties.WipeEachBound | secure-data-wiper/utils/wipe_engine.py:191-201 | the counters never exceed the files still to visit, and directories do not change |
| EngineProperties.WipeDirectoryCounts | secure-data-wiper/utils/wipe_engine.py:170-209 | a missing directory gives (0, 0) and no change; wiped plus failed is at most the regular files; a raised flag gives (0, 0) and no file change |
| EngineProperties.WipeFileKeepsFlagClear | secure-data-wiper/utils/wipe_engine.py:102-168 | with no stop, a file wipe leaves the flag clear |
| EngineProperties.WipeDirectoryWithoutStop | secure-data-wiper/utils/wipe_engine.py:170-205 | with no stop, every regular file is counted as wiped or failed |
| EngineProperties.WindowVerdict | secure-data-wiper/utils/wipe_engine.py:273-278 | a 1024-byte window passes the entropy test exactly when it holds at most 102 distinct bytes |
| EngineProperties.DistinctAtMost256 | secure-data-wiper/utils/wipe_engine.py:273 | a window holds at most 256 distinct byte values, so the "above 0.9" branch never fires for 1024 bytes |
| EngineProperties.SolidWindowPasses | secure-data-wiper/utils/wipe_engine.py:277-279 | a window of one repeated byte passes the test |
| Staging.MakeDirs | data-wipe-final.py:122 | `os.makedirs(..., exist_ok=True)` succeeds exactly when no prefix of the path is a file; it adds that path's prefixes as directories and changes no file |
| Staging.Reroot | data-wipe-final.py:124 | a path moved from under `s` to under `r` keeps its tail below the moved directory |
| Staging.MoveTreeCarries | data-wipe-final.py:124 | moving a directory carries every file inside it, with its content, to the rerooted path |
| Staging.MoveTreeVacates | data-wipe-final.py:124 | after a directory move nothing is left at the old path |
| Staging.MoveFile | data-wipe-final.py:124 | `shutil.move` of a file to a free path in an existing directory is a rename that keeps the content |
| Staging.RemoveTree | data-wipe-final.py:162 | `shutil.rmtree` removes exactly the files and directories under the path and keeps the rest unchanged |
| Staging.RelPath | data-wipe-final.py:120 | `os.path.relpath` of a path under the common path is its tail; the tail is empty (".") when the path is the common path |
| Staging.StageOneMoves | data-wipe-final.py:119-125 | when the parent is made and the move works, one file is moved and recorded |
| Staging.StageStep | data-wipe-final.py:116-125 | one iteration of the staging loop moves file k to its destination and keeps the staged-so-far relation |
| Staging.UndoStep | data-wipe-final.py:141-145 | one undo iteration moves the latest staged file back and keeps the relation one step earlier |
| Staging.StageRuns | data-wipe-final.py:116-125 | without a stop the staging loop moves every file and records one undo entry per file, in order |
| Staging.ReplayRuns | data-wipe-final.py:141-149 | replaying the undo entries newest first brings every staged file back |
| Staging.NothingStaged | data-wipe-final.py:141-151 | once every move is undone the files are what they were before staging |
| Staging.RoundTrip | data-wipe-final.py:92-152 | staging a list of files and then undoing restores exactly the original files, whenever sources and destinations meet `Ready` (nothing can fail); StagingEngine.EngineRoundTrip shows the engine's own destinations meet it |
| Staging.Entries | data-wipe-final.py:125 | entry i of the undo stack is (source i, destination i) |
| StagingEngine.Lcp | data-wipe-final.py:120 | the longest common prefix of two paths is a prefix of both and cannot be extended |
| StagingEngine.LcpGreatest | data-wipe-final.py:120 | every common prefix of two paths is a prefix of their longest common prefix |
| StagingEngine.CommonPath | data-wipe-final.py:120 | `os.path.commonpath` is a prefix of every target (when it exists; see DifferentDrivesStageNothing for Windows targets on several drives) |
| StagingEngine.CommonPathGreatest | data-wipe-final.py:120 | every prefix shared by all targets is a prefix of `commonpath` |
| StagingEngine.FilesOf | data-wipe-final.py:107-113 | a file target lists itself, a missing target lists nothing, and every listed file lies under the target |
| StagingEngine.FilesToMove | data-wipe-final.py:105-113 | every file collected lies under one of the targets |
| StagingEngine.DestFor | data-wipe-final.py:120-121 | each destination and its parent lie in the temporary directory |
| StagingEngine.DestsApart | data-wipe-final.py:120-121 | two different files strictly below the common path get different destinations |
| StagingEngine.SingleDest | data-wipe-final.py:107-121 | a single file target collects only itself and is sent to the temporary directory itself (relpath ".") |
| StagingEngine.SingleFileMisplaced | data-wipe-final.py:120-145 | staging a single file moves it into the temporary directory; undo then moves the whole directory back, so the file comes back one level deeper as `f/<name>` and `f` itself is gone |
| StagingEngine.CorrectedJoin | data-wipe-final.py:120-121 | the corrected join of "." with the file name lies strictly inside the temporary directory |
| StagingEngine.SingleFileRestored | data-wipe-final.py:120-145 | with the destination as evidently intended (the file's name inside the temporary directory) a single-file wipe undoes to the original files |
| StagingEngine.Purge | data-wipe-final.py:155-166 | no staged file survives the purge, every file outside the temporary directory is kept, no file is added, a missing directory is left alone, a new temporary directory is made, and when its name is fresh, as a `mkdtemp` name is, no file lies under it |
| StagingEngine.FillWhole | data-wipe-final.py:66-74 | without a stop and with enough free space a pass writes the whole size in the pass byte |
| StagingEngine.FillBounded | data-wipe-final.py:66-74 | a pass never holds more than the free space, and only a finished pass holds the full size |
| StagingEngine.OverwriteNeedsEmptyDrive | data-wipe-final.py:63-86 | whenever the drive has less free space than its total size the two-pass overwrite fails (as written) |
| StagingEngine.OverwriteFailsOnUsedDrive | data-wipe-final.py:63-86 | a drive of 1024 MiB with one byte in use is reported as failed |
| StagingEngine.FreeSpaceOverwriteCompletes | data-wipe-final.py:57-86 | sized by the free space, both passes complete: zeros then ones over exactly the free bytes |
| StagingEngine.StopWritesNothing | data-wipe-final.py:69-70 | with the flag already raised the first pass stops before writing a byte |
| StagingEngine.PurgesMeans | data-wipe-final.py:399-407 | the purge runs exactly when the flag is clear and stays clear through all 30 countdown reads and the final read |
| StagingEngine.SecureWipeEngine.constructor | data-wipe-final.py:47-51 | a new engine has the flag clear, the given temporary directory and an empty undo stack |
| StagingEngine.SecureWipeEngine.WipeTarget | data-wipe-final.py:92-133 | the wipe is refused, changing nothing, exactly when some target is a system drive under the platform's rule (the POSIX root, or any path on the `%SYSTEMDRIVE%` drive on Windows); otherwise the new files, undo stack and flag are exactly WipeOutcome: StageAll of the targets when they have a common path, and when `commonpath` raises for every file (Windows targets on different drives) the untouched files, an empty stack and the flag set exactly when a stop came before the last file |
| StagingEngine.SystemDriveMeans | data-wipe-final.py:40-43 | `is_system_drive` refuses on POSIX exactly the root; on Windows exactly the paths whose drive letter is that of `%SYSTEMDRIVE%`, case aside, and with no drive there every path that names no drive |
| StagingEngine.SecureWipeEngine.MoveFiles | data-wipe-final.py:116-131 | the loop over the collected files leaves exactly WipeOutcome: each file moved into temporary storage and recorded when the targets share a common path, nothing moved when they do not, and the stop flag set exactly when a stop is seen before the last file |
| StagingEngine.DifferentDrivesStageNothing | data-wipe-final.py:116-130 | when two targets name different Windows drives there is no common path, so every move fails inside the `try`: the wipe leaves the files where they were, records nothing, and undo brings back nothing |
| StagingEngine.TwoDrivesExample | data-wipe-final.py:100-133 | with `%SYSTEMDRIVE%` "C:", `D:\data` together with `E:\photos` passes the system-drive check yet stages nothing, while the same targets on POSIX are staged |
| StagingEngine.SystemDriveOnWindows | data-wipe-final.py:40-43 | with `%SYSTEMDRIVE%` "C:", a file under "c:" is refused, one on "D:" is not, and on POSIX that same path is not refused |
| StagingEngine.DestShape | data-wipe-final.py:120-122 | a file strictly below the common path is staged at the staging directory plus its tail, and `makedirs` makes that destination's parent |
| StagingEngine.EngineReady | data-wipe-final.py:105-125 | with no file on the path of another, a fresh staging directory, and distinct selected files strictly below the common path, the engine's own destinations are free, pairwise different, apart from the sources, and have no file or involved path on their way |
| StagingEngine.EngineRoundTrip | data-wipe-final.py:92-166 | under those conditions and without a stop, `wipe_target` stages and records every selected file when the targets have a common path and nothing otherwise, `undo`'s newest-first replay brings back exactly the original files, and the purge that ends `undo` keeps them all |
| StagingEngine.SecureWipeEngine.CollectFiles | data-wipe-final.py:105-113 | the loop collects exactly FilesToMove |
| StagingEngine.SecureWipeEngine.Undo | data-wipe-final.py:135-153 | raises the flag, empties the stack, moves the entries back newest first and purges the temporary directory |
| StagingEngine.SecureWipeEngine.PermanentDelete | data-wipe-final.py:155-166 | the new files and temporary directory are exactly Purge of the old ones |
| StagingEngine.SecureWipeEngine.FillPass | data-wipe-final.py:68-74 | one overwrite pass writes exactly FillFrom's content, and the flag reads raised exactly when it was or the pass halted |
| StagingEngine.SecureWipeEngine.OverwriteDrive | data-wipe-final.py:57-90 | the result is exactly DriveOverwrite of the usage, the flag and the stop oracle |
| StagingEngine.CleanSlateApp.Countdown | data-wipe-final.py:400-404 | the countdown runs until the first raised read or 30 ticks, and reports a stop exactly when the purge must not run |
| StagingEngine.CleanSlateApp.FinalDeleteDelay | data-wipe-final.py:399-408 | after the countdown the staged files are purged exactly when no stop arrived; otherwise nothing changes |
| StagingEngine.CleanSlateApp.UndoWipe | data-wipe-final.py:410-413 | raises the flag and performs the engine's undo |
| StagingEngine.CleanSlateApp.StopWipe | data-wipe-final.py:415-418 | raises the engine's stop flag |
| StagingEngine.DriveProgress | data-wipe-final.py:72-82 | the percentage reported during the first pass lies in [0, 50) and during the second in [50, 100) |
| StagingEngine.DriveProgressRises | data-wipe-final.py:72-82 | the reported percentage never decreases over the run, across the change of pass included |
| Certificate.GetFinds | secure-data-wiper/utils/certificate_generator.py:81-88 | `dict.get` finds a key exactly when it is present, and what it finds is that key's entry |
| Certificate.SetGet | secure-data-wiper/utils/certificate_generator.py:53 | after `d[k] = v`, `d[k]` is `v` and every other key reads as before |
| Certificate.Remove | secure-data-wiper/utils/certificate_generator.py:103 | `pop` never lengthens the dict |
| Certificate.RemoveGet | secure-data-wiper/utils/certificate_generator.py:103 | after `pop(k)`, `k` is missing and every other key reads as before |
| Certificate.GetIn | secure-data-wiper/utils/certificate_generator.py:306 | `d.get(k, {}).get(k2)` raises exactly when `d[k]` is present and not a dict |
| Certificate.VerificationDefaults | secure-data-wiper/utils/certificate_generator.py:80-90 | an empty wipe record gives "Unknown", 0, 0, "", "", 0, {}, "Not Verified" and a null hash, in that order |
| Certificate.VerificationDataIsSet | secure-data-wiper/utils/certificate_generator.py:78-96 | the verification record is the default record with its hash set to the SHA-256 of the sorted JSON of the record with a null hash |
| Certificate.VerificationHashRecomputes | secure-data-wiper/utils/certificate_generator.py:92-94 | setting the stored hash back to null and hashing again gives the stored hash |
| Certificate.VerificationHashed | secure-data-wiper/utils/certificate_generator.py:92-94 | the stored hash is the SHA-256 of the record's sorted JSON text before hashing |
| Certificate.DateStamp | secure-data-wiper/utils/certificate_generator.py:76 | `%Y%m%d` is 8 digits |
| Certificate.TimeStamp | secure-data-wiper/utils/certificate_generator.py:116 | `%Y%m%d_%H%M%S` is 8 digits, an underscore and 6 digits |
| Certificate.CertId | secure-data-wiper/utils/certificate_generator.py:74-76 | the id is "CS-", 8 date digits, "-" and the first 8 hexadecimal digits of the uuid in upper case |
| Certificate.CertPath | secure-data-wiper/utils/certificate_generator.py:114-117 | the JSON file lies in `certificates/`, is named `cert_...` and ends with the extension |
| Certificate.CertFieldsGet | secure-data-wiper/utils/certificate_generator.py:37-50 | the certificate dict holds the id, the timestamp, the verification record and the signature under their keys |
| Certificate.SetSignature | secure-data-wiper/utils/certificate_generator.py:53 | assigning the signature replaces the null placeholder in place, keeping the key order |
| Certificate.SignatureExcluded | secure-data-wiper/utils/certificate_generator.py:102-105 | the signed text does not depend on the `digital_signature` entry |
| Certificate.SignedIsSet | secure-data-wiper/utils/certificate_generator.py:49-53 | the signed certificate is the unsigned dict with the signature record assigned |
| Certificate.GeneratedFiles | secure-data-wiper/utils/certificate_generator.py:31-72 | generating adds one JSON file under `certificates/cert_...json`, keeps every other stored file, and returns five fields with the JSON path second |
| Certificate.VerifyCertificate | secure-data-wiper/utils/certificate_generator.py:296-325 | a non-JSON path is refused; a check happens exactly when the file loads as a dict with signature and hash readable; the message says valid exactly when valid; valid means the stored signature is the SHA-512 of the sorted text without `digital_signature` |
| Certificate.ValidWhenSigned | secure-data-wiper/utils/certificate_generator.py:305-322 | a dict whose stored signature is the hash of its signed text verifies as valid with its id, timestamp and hash |
| Certificate.SignedVerifies | secure-data-wiper/utils/certificate_generator.py:98-112 | a certificate signed by `_generate_signature` verifies as valid |
| Certificate.GeneratedVerifies | secure-data-wiper/utils/certificate_generator.py:31-72 | the file `generate_certificate` writes verifies as valid, with its id, timestamp and verification hash |
| Certificate.OnlyJsonVerified | secure-data-wiper/utils/certificate_generator.py:299-303 | a path not ending in ".json" is refused before anything is read |
| Certificate.TamperDetected | secure-data-wiper/utils/certificate_generator.py:305-314 | changing any signed field of a valid certificate while keeping its signature makes verification fail, unless SHA-512 collides on the two texts |
| Certificate.UnsignedInvalid | secure-data-wiper/utils/certificate_generator.py:306-321 | a certificate without a signature entry is checked and found invalid |
| Certificate.MetadataIrrelevant | secure-data-wiper/utils/certificate_generator.py:306-314 | editing the rest of the `digital_signature` entry (algorithm, timestamp) while keeping its `signature` leaves the verdict unchanged |
| Certificate.VerdictDependsOn | secure-data-wiper/utils/certificate_generator.py:305-322 | the verdict depends only on the signature, verification, id and timestamp entries and the signed text |
| Certificate.SignedTextPermutation | secure-data-wiper/utils/certificate_generator.py:309-311 | reordering a dict's entries does not change the signed text (`sort_keys=True`) |
| Certificate.ReorderedVerifies | secure-data-wiper/utils/certificate_generator.py:296-325 | the verdict does not depend on the order of the entries in the loaded file |
| Json.KeyLeTotal | secure-data-wiper/utils/certificate_generator.py:93 | the key order `sort_keys=True` uses is total |
| Json.KeyLeTransitive | secure-data-wiper/utils/certificate_generator.py:93 | the key order is transitive |
| Json.SortByKey | secure-data-wiper/utils/certificate_generator.py:105 | sorting a dict's entries keeps exactly the same entries |
| Json.SortSorted | secure-data-wiper/utils/certificate_generator.py:105 | sorted entries come out in key order |
| Json.SortedUnique | secure-data-wiper/utils/certificate_generator.py:105 | two sorted entry lists holding the same entries with distinct keys are equal |
| Json.SortPermutation | secure-data-wiper/utils/certificate_generator.py:311 | dicts holding the same entries in any order sort alike |
| Json.Hex4 | secure-data-wiper/utils/certificate_generator.py:93 | a `\uXXXX` escape has four hexadecimal digits |
| Json.EscapeChar | secure-data-wiper/utils/certificate_generator.py:93 | the escaped form of a character is non-empty and never starts with a quote, so it never ends a string |
| Json.EscapeRoundTrip | secure-data-wiper/utils/certificate_generator.py:93 | reading back an escaped character gives the character, including surrogate pairs beyond the basic plane |
| Json.IntText | secure-data-wiper/utils/certificate_generator.py:93 | an integer's text is non-empty |
| Json.DecodeIntText | secure-data-wiper/utils/certificate_generator.py:93 | reading back an integer's text gives the integer |
| Json.Dumps | secure-data-wiper/utils/certificate_generator.py:93 | `json.dumps` text is never empty |
| Json.DecodeValue | secure-data-wiper/utils/certificate_generator.py:93 | the reader of the text `json.dumps(..., sort_keys=True)` writes; whenever it succeeds it consumes at least one character (its round trip with `Dumps` is `Json.DecodeDumps`) |
| Json.DecodeDumps | secure-data-wiper/utils/certificate_generator.py:93 | reading back `json.dumps(v, sort_keys=True)` gives v with every dict sorted, and leaves the rest of the text |
| Json.DumpsCanon | secure-data-wiper/utils/certificate_generator.py:105 | sorting every dict first does not change the dumped text |
| Json.DumpsInjective | secure-data-wiper/utils/certificate_generator.py:105-106 | two values dump to the same text exactly when they are equal once their dicts are sorted |
| Json.CanonIdempotent | secure-data-wiper/utils/certificate_generator.py:105 | sorting every dict twice is the same as sorting once |
| Json.KeyOrderIrrelevant | secure-data-wiper/utils/certificate_generator.py:311 | a dict with the same entries in another order has the same sorted form and the same text |
| BlockWrites.Overwritten | backedn_old.py:55-66 | after the first `w` bytes of a pass written from offset 0, the media holds that pass's random bytes up to `w` and its old bytes from `w` on, and keeps its length |
| BlockWrites.BlockStep | backedn_old.py:56-59 | writing the pass's next `n` random bytes at offset `w` turns the media overwritten up to `w` into the media overwritten up to `w + n` |
| BlockWrites.OverwrittenAgain | data-wipe-backend-new.py:41-47 | a later pass over the same region leaves only its own data there: the earlier pass leaves no trace |
| BlockWrites.HashStep | backedn_old.py:57-66 | feeding each written block to the running SHA-256 object in turn feeds it exactly the pass's bytes in write order |
| BlockWrites.AllPassesLength | data-wipe-backend-new.py:41-55 | a writer that hashes every pass feeds the hash `passes * size` bytes: every pass in full |
| BlockWrites.BlocksAndRemainder | prototype_1.py:93-110 | `size // block_size` full blocks followed by `size % block_size` remainder bytes cover exactly `size` bytes, and the remainder is shorter than a block |
| BlockWrites.Percent | backedn_old.py:68 | `int(num / den * 100)` is at most 100 while `num <= den`, below 100 while `num < den`, and exactly 100 at `num == den` |
| BlockWrites.Percents | backedn_old.py:56-70 | the percentages after the first `k` blocks are `k` values, the `j`-th being the percentage of `j + 1` blocks |
| BlockWrites.PercentMonotone | testdemo1.py:65 | the reported percentage never decreases as more blocks are written |
| BlockWrites.Landed | backedn_old.py:56-65 | the number of a pass's full blocks that land is at most the block count and fits the media |
| BlockWrites.LandedAt | backedn_old.py:56-65 | the blocks land up to the first one that crosses the end of the media, or all of them |
| BlockWrites.Reach | backedn_old.py:56-78 | the bytes of a pass that land never exceed the media's length |
| BlockWrites.RegionFits | backedn_old.py:53-79 | a region that fits the media is written whole: every block lands and the pass ends normally |
| BlockWrites.DoneFits | backedn_old.py:53-79 | conversely, a pass ends normally only when the region fits the media |
| BlockWrites.AfterPasses | prototype_1.py:97-113 | a whole drive after `k` full passes keeps its length and holds the last pass's data, or its old contents when `k` is 0 |
| BlockWrites.WriteRandom | prototype_1.py:100-103 | writing `n` fresh random bytes at the handle's position moves the position by `n`, extends the overwritten prefix by those bytes and, when the pass is hashed, feeds them to the hash |
| BlockWrites.TryWriteRandom | backedn_old.py:57-66 | the same write on a device that refuses writes past its end: it succeeds exactly when the bytes fit; on failure position, media and hash input are unchanged |
| Prototype.PassMarks | prototype_1.py:104-106 | the progress values of one pass, one for every 50th block, are all below 100 and the first is 0 |
| Prototype.PassProgressRestarts | prototype_1.py:97-116 | the values reported over a whole run are the marks of one pass repeated once per pass, each pass starting at 0, every value below 100, and then a single 100 as the last value |
| Prototype.RunMarksRepeat | prototype_1.py:97-106 | `k` passes report exactly `k` copies of one pass's marks, in order |
| Prototype.MenuPasses | prototype_1.py:180 | the quick wipe selects one pass and the full wipe two |
| Prototype.WriteBlocks | prototype_1.py:99-106 | the full blocks of a pass land from offset 0, the position stops at the last whole block, the hash is fed the pass only when it is hashed, and the marks are those of every 50th block |
| Prototype.WipePass | prototype_1.py:98-113 | one pass seeks to 0, overwrites the whole drive with the pass's random data (full blocks then the remainder), syncs once, and feeds the hash only when it is the last pass |
| Prototype.WipeDrive | prototype_1.py:89-118 | after `passes` passes the drive holds only the last pass's data, it was synced once per pass and closed, the digest is that of the last pass alone, and the progress ends with 100 |
| BackendOld.DefaultRegion | backedn_old.py:32-80 | with the default 128 MiB region and 1 MiB blocks there is no remainder, so the unguarded remainder write never runs and an opened drive never makes the demo raise, whatever its length and the number of passes |
| BackendOld.WriteBlocks | backedn_old.py:56-72 | the blocks land until one fails; success iff every block landed; the media is overwritten and the hash fed up to the last landed block; one percentage per landed block |
| BackendOld.DemoPass | backedn_old.py:55-79 | one pass from offset 0 ends normally, at a failed block or at a failed remainder exactly as the region fits or crosses the media, and overwrites and hashes exactly the bytes that landed |
| BackendOld.WipeDriveDemo | backedn_old.py:32-85 | a failed open returns three `None`s and leaves the drive untouched; otherwise the drive, the returned digest (or the escaping exception) and the printed percentages are those of the passes up to the first failure |
| BackendOld.StripLeft | backedn_old.py:104 | the leading part of `strip` removes a prefix made only of Python whitespace (the full `str.isspace` set, Unicode separators included) and leaves no leading whitespace |
| BackendOld.StripRight | backedn_old.py:104 | the trailing part of `strip` removes a suffix made only of Python whitespace and leaves no trailing whitespace |
| BackendOld.ConfirmMeans | backedn_old.py:103-105 | the answer confirms iff, stripped of surrounding Python whitespace (no-break space and the other Unicode spaces included), it is `y` or `Y` |
| BackendOld.StripPlain | backedn_old.py:104 | stripping a string without surrounding whitespace leaves it unchanged |
| BackendOld.StripLeftSpaces | backedn_old.py:104 | any run of whitespace before a non-space character is stripped |
| BackendOld.StripRightSpaces | backedn_old.py:104 | any run of whitespace after a non-space character is stripped |
| BackendOld.StripAround | backedn_old.py:104 | a non-space answer between two runs of whitespace strips to itself |
| BackendOld.ConfirmAccepts | backedn_old.py:103-105 | `y` or `Y` between any two runs of whitespace, such as a no-break space before and an ideographic space after, confirms |
| BackendOld.ConfirmRefuses | backedn_old.py:103-105 | the empty answer (the default `N`) and `yes` do not confirm |
| BackendOld.FailedOpenCertificate | backedn_old.py:87-97 | the certificate of a run whose disk did not open has empty start and end times and a null checksum |
| BackendNew.QuarterMark | data-wipe-backend-new.py:48-50 | every fourth block `i` prints one progress line for block `i` of `total`, and that block is below the total |
| BackendNew.NewMarks | data-wipe-backend-new.py:44-50 | every progress line printed during a pass reports a block below the pass's block count |
| BackendNew.PassPercentages | data-wipe-backend-new.py:48-50 | every printed percentage `(i / total) * 100` lies in `[0, 100)`: 100% is never printed |
| BackendNew.CompletesOrRaises | data-wipe-backend-new.py:27-60 | the call returns iff the disk opens and the region fits the drive (or there is no pass); then the region holds the last pass's data and the hash was fed every pass in full |
| BackendNew.WriteBlocks | data-wipe-backend-new.py:44-50 | the blocks land until one does not fit; success iff every block landed; media, hash input and progress lines are those of the landed blocks |
| BackendNew.NewPass | data-wipe-backend-new.py:43-55 | one pass from offset 0 succeeds iff the region fits, and overwrites and hashes exactly the bytes that landed |
| BackendNew.WipeDriveDemo | data-wipe-backend-new.py:27-60 | the outcome is a digest of every pass or an escaping exception; the drive is untouched when the open fails and otherwise holds the region's passes; the progress lines are those of the landed blocks |
| BackendRaw.Pow256Eight | data-wipe-backend.py:47 | eight bytes span exactly 2^64 values, the range that `c_longlong` reinterprets as signed |
| BackendRaw.LittleEndian | backedn_old.py:27 | `int.from_bytes(data, 'little')` of `k` bytes is below `256^k` |
| BackendRaw.LittleEndianBytes | data-wipe-backend.py:47 | encoding a number in `k` little-endian bytes gives `k` bytes |
| BackendRaw.DecodeEncode | data-wipe-backend.py:47 | decoding the little-endian encoding of a number below `256^k` gives the number back |
| BackendRaw.EncodeDecode | backedn_old.py:27 | encoding the decoded value of a byte string in as many bytes gives the bytes back |
| BackendRaw.Signed64 | data-wipe-backend.py:47 | `c_longlong.from_buffer_copy` of 8 bytes is a value in the signed 64-bit range |
| BackendRaw.Signed64Bytes | data-wipe-backend.py:47 | a signed 64-bit value is stored in 8 bytes |
| BackendRaw.SignedRoundTrip | data-wipe-backend.py:47 | reading back the 8 bytes of a signed 64-bit value gives the value |
| BackendRaw.SignedBytesRoundTrip | data-wipe-backend.py:47 | storing the value read from 8 bytes gives the same 8 bytes: every byte pattern is a distinct size |
| BackendRaw.GetDriveSize | data-wipe-backend.py:14-48 | a size is returned iff the drive opens and the geometry query succeeds; it is the signed 64-bit value whose bytes sit at offsets 24 to 32 of the reply |
| BackendRaw.SizeReported | data-wipe-backend.py:43-48 | a reply carrying a value at offsets 24 to 32 reports exactly that value |
| BackendRaw.RawMedia | data-wipe-backend.py:77-83 | the drive keeps its length after the loop |
| BackendRaw.MbMark | data-wipe-backend.py:84-85 | a progress line is printed only at a multiple of 100 MiB, and shows a MiB count that is a positive multiple of 100 |
| BackendRaw.MarkShape | data-wipe-backend.py:84-85 | a written count that is a positive multiple of 100 MiB is a MiB count of at least 100 and a multiple of 100 |
| BackendRaw.MbMarks | data-wipe-backend.py:80-85 | every progress line of a pass shows a positive multiple of 100 MiB |
| BackendRaw.RawPass | data-wipe-backend.py:79-85 | a pass that starts at offset 0 lands every full block and completes iff the drive is block-aligned; a pass that starts at the end writes nothing and fails unless the drive is empty; the progress lines are those of the landed blocks |
| BackendRaw.WipeDrive | data-wipe-backend.py:60-87 | a drive that does not open raises before any write and is left untouched; otherwise the loop's end, the drive's contents and the progress lines are exactly those of passes that never seek: only pass 1's full blocks ever land |
| BackendRaw.RawFailures | data-wipe-backend.py:78-83 | a second pass over a block-aligned drive, and one pass over a drive one half-kilobyte past a block boundary, end in an error |
| BackendRaw.RawEndMeans | data-wipe-backend.py:78-83 | the loop completes iff there is no pass, the drive is empty, or there is one pass over a block-aligned drive |
| BackendRaw.RawTailUntouched | data-wipe-backend.py:81-82 | on an unaligned drive the bytes after the last whole block are never overwritten |
| BackendRaw.RewindingPass | data-wipe-backend.py:78-83 | the corrected pass seeks to 0 and cuts its last block at the end of the drive, so the whole drive holds the pass's data |
| BackendRaw.WipeDriveRewinding | data-wipe-backend.py:77-87 | with the corrected pass every run completes and leaves the drive holding the last pass's data |
| TestDemo.DemoRegion | testdemo1.py:29-30 | with the program's 128 MiB region and 1 MiB blocks every block lands exactly when the volume holds 128 MiB, and the digest then covers 128 MiB per pass |
| TestDemo.WriteBlocks | testdemo1.py:59-66 | the blocks land until a write fails; success iff every block landed; the hash is fed the landed blocks; the overall progress list grows by one value per landed block |
| TestDemo.DemoPass | testdemo1.py:57-66 | a pass seeks to 0 and succeeds iff the region fits the volume; it overwrites and hashes exactly the landed blocks |
| TestDemo.RunPasses | testdemo1.py:55-71 | the volume ends holding the region's passes (or the first pass cut at the failed block), the hash input is every pass in full or the landed part of the first, and the progress values are those of the landed blocks |
| TestDemo.WipeDrive | testdemo1.py:23-76 | a failed open or lock returns three `None`s and leaves the volume untouched; otherwise the digest of what was written is returned even after a write error, and the handle is closed on every path |
| TestDemo.ProgressShape | testdemo1.py:56-66 | for any region, block size and volume the overall progress never decreases; when every block lands it has one value per block of every pass, stays below 100 until the final block and reports 100 there; after a write error it has fewer values than one pass's blocks and never reports 100 |
| TestDemo.MethodPasses | testdemo1.py:113-118 | the number of passes is 1, 3 or 35 |
| TestDemo.MethodPassesTable | testdemo1.py:113-118 | the three menu entries select 1, 3 and 35 passes and an unknown name selects 1 |
| TestDemo.WriteErrorReportedAsSuccess | testdemo1.py:69-71 | a run whose writes fail part-way through still returns a truthy triple, so the worker announces success and issues a certificate |
| TestDemo.ShortVolumeReportedAsSuccess | testdemo1.py:127-130 | a 64 MiB volume, cut short in the first pass, is announced as successfully wiped |
| TestDemo.ReportedResult | testdemo1.py:127-133 | corrected: the worker announces success iff the volume locked and every block of every pass landed, and then reports the same digest |
| MobileFs.Child | src/services/DataWipingService.ts:299 | a child path is longer than its parent and starts with the parent followed by `/` |
| MobileFs.Append | src/services/DataWipingService.ts:261 | appending to a directory fails; otherwise a missing file is created, an existing one extended by the data, and nothing else changes |
| MobileFs.Move | src/services/DataWipingService.ts:266 | a move succeeds iff the source is a file and the destination is not a directory; then the source is gone, the destination holds the source's bytes and nothing else changes |
| MobileFs.Unlink | src/services/DataWipingService.ts:189 | unlinking succeeds iff the path exists; afterwards it no longer exists, and unlinking a file removes only that file |
| MobileFs.Volume.constructor | src/services/DataWipingService.ts:291 | the volume the service observes is the given file system |
| MobileWipe.PassesForMethod | src/services/DataWipingService.ts:272-283 | a non-zero custom pass count is used as given; otherwise each method's table value, always between 1 and 35 |
| MobileWipe.GutmannPattern | src/services/DataWipingService.ts:225-238 | a Gutmann buffer is 1024 bytes, every one of them the table entry at `(pass - 1) % 16` |
| MobileWipe.PatternForPass | src/services/DataWipingService.ts:195-220 | every pass's buffer is 1024 bytes long |
| MobileWipe.ChunksFrom | src/services/DataWipingService.ts:256-263 | the chunks appended from `written` to `size` are exactly `size - written` bytes |
| MobileWipe.StagedFromAll | src/services/DataWipingService.ts:256-263 | appending chunk by chunk from `written` bytes on has the effect of one append of all the remaining chunks, failing with the first append's error exactly when that append fails |
| MobileWipe.StagedInChunks | src/services/DataWipingService.ts:256-263 | the chunk loop from 0 stages exactly the repeated pattern that `Staged` describes |
| MobileWipe.AppendStep | src/services/DataWipingService.ts:261 | two appends to the same file equal one append of both pieces |
| MobileWipe.PassStep | src/services/DataWipingService.ts:175-186 | a pass that is not cancelled reports its number and overwrites the file; an error stops the file there, otherwise the next pass runs on the result |
| MobileWipe.FileStep | src/services/DataWipingService.ts:79-125 | the files loop handles the first file and continues with the rest from the new tally |
| MobileWipe.DataWipingService.constructor | src/services/DataWipingService.ts:36-37 | a new service is neither wiping nor cancelling |
| MobileWipe.DataWipingService.CancelWiping | src/services/DataWipingService.ts:341-343 | cancelling sets the flag the loops poll |
| MobileWipe.DataWipingService.IsWipingInProgress | src/services/DataWipingService.ts:348-350 | reports whether a wipe is running |
| MobileWipe.DataWipingService.VerifyWipe | src/services/DataWipingService.ts:329-336 | verification passes iff the target no longer exists |
| MobileWipe.DataWipingService.CheckCancel | src/services/DataWipingService.ts:80-82 | a poll of the flag sees a cancellation iff one was requested before this step |
| MobileWipe.DataWipingService.AppendChunks | src/services/DataWipingService.ts:256-263 | the loop appends the pattern's chunks to the temporary file exactly as the specification function stages them, and on an error leaves the file system as it was |
| MobileWipe.DataWipingService.OverwriteFile | src/services/DataWipingService.ts:251-267 | the file system and error after the overwrite are exactly those of staging the chunks then moving the temporary file over the target |
| MobileWipe.DataWipingService.WipeFile | src/services/DataWipingService.ts:162-190 | a file's wipe (stat, the passes, unlink) ends in the state, step, reported passes and error of its specification, and the cancel flag reflects the steps taken |
| MobileWipe.DataWipingService.PassNext | src/services/DataWipingService.ts:175-186 | one iteration of the passes loop: a cancellation or write error ends the file as the pass specification does, otherwise the remaining passes from the new state end as those from the old one |
| MobileWipe.DataWipingService.CalculateTotalBytes | src/services/DataWipingService.ts:311-324 | the loop sums the `stat` sizes of the listed paths, a path it cannot stat adding nothing |
| MobileWipe.DataWipingService.RunPasses | src/services/DataWipingService.ts:175-186 | the passes loop ends exactly as the recursive pass specification does |
| MobileWipe.DataWipingService.GetFilesToWipe | src/services/DataWipingService.ts:288-306 | the listing is the recursive listing: a file lists itself, a directory its entries' files in `readDir` order, anything else nothing, and a missing path fails |
| MobileWipe.DataWipingService.WipeData | src/services/DataWipingService.ts:49-157 | a call while a wipe runs is refused and changes nothing; otherwise the result and the file system are those of the specified run, and the service is idle again afterwards |
| MobileWipe.DataWipingService.WipeNext | src/services/DataWipingService.ts:84-124 | one iteration of the files loop gives the tally after that file's run |
| MobileWipe.DataWipingService.WipeEach | src/services/DataWipingService.ts:79-125 | the files loop gives the tally of the specified run over the list |
| MobileProperties.CustomZeroIgnored | src/services/DataWipingService.ts:273 | a custom pass count of 0 is ignored as if none were given |
| MobileProperties.PassesTable | src/services/DataWipingService.ts:275-282 | without a pass option DoD runs 3 passes, NIST 1, Gutmann 35, random 7, zero 1 and any other method 3 |
| MobileProperties.PatternBytes | src/services/DataWipingService.ts:195-238 | DoD pass 1 and zero fill write 0x00, DoD pass 2 writes 0xFF, Gutmann writes its table byte, and NIST, random, DoD from pass 3 and unknown methods write fresh random bytes |
| MobileProperties.GutmannPeriodic | src/services/DataWipingService.ts:229-234 | the Gutmann patterns repeat every 16 passes |
| MobileProperties.ChunksFromAt | src/services/DataWipingService.ts:256-263 | byte `j` of the appended chunks is pattern byte `j % pattern.length` |
| MobileProperties.ChunkedRepeats | src/services/DataWipingService.ts:256-263 | the staged bytes are `size` bytes of the pattern repeated |
| MobileProperties.TempDiffers | src/services/DataWipingService.ts:252 | the temporary path differs from the file's own path |
| MobileProperties.OverwriteFacts | src/services/DataWipingService.ts:251-267 | an overwrite never touches directories or other files; when it succeeds the temporary file is gone and the target holds the old temporary content followed by the repeated pattern |
| MobileProperties.EmptyFileNotOverwritten | src/services/DataWipingService.ts:256-266 | for an empty file no chunk is appended, so the move finds no temporary file and fails |
| MobileProperties.EmptyFileNeverWiped | src/services/DataWipingService.ts:162-190 | an empty file's first pass fails, the file survives and only pass 1 is reported |
| MobileProperties.StaleTempPrepended | src/services/DataWipingService.ts:252-266 | a leftover `.tmp` file is prepended to the overwrite, leaving the target longer than its size |
| MobileProperties.CorrectedOverwrite | src/services/DataWipingService.ts:251-267 | corrected: the temporary file is replaced rather than appended to, so on success the target holds exactly the repeated pattern and the temporary file is gone; it fails only when one of the two paths is a directory |
| MobileProperties.CorrectedOverwriteExact | src/services/DataWipingService.ts:251-267 | corrected: an overwrite of an existing file always succeeds and leaves exactly `size` bytes, byte `i` being pattern byte `i % pattern.length`, even for an empty file |
| MobileProperties.Range | src/services/DataWipingService.ts:175 | the pass numbers 1 to `passes` in order |
| MobileProperties.PassesKept | src/services/DataWipingService.ts:175-186 | however they end, the passes leave directories alone, never remove the file, and change no file but the target and its `.tmp` file; when they end without error they have created no file and changed none but the target |
| MobileProperties.PassesDone | src/services/DataWipingService.ts:175-186 | passes that end without error have reported every pass number, in order |
| MobileProperties.WipeFileFacts | src/services/DataWipingService.ts:162-190 | a file's wipe leaves directories alone and every file but the target and its `.tmp` file unchanged; it removes the file iff it ends without error, and then has reported every pass, and every remaining file is one that was there before with its old content |
| MobileProperties.WipeFilesFacts | src/services/DataWipingService.ts:79-125 | the files loop keeps earlier errors, never lowers the counts, ends a cancellation with the cancellation error, counts every file as wiped or failed otherwise, and without new errors removes every listed file |
| MobileProperties.WipeFilesFrame | src/services/DataWipingService.ts:79-125 | the files loop leaves every file that is neither listed nor the `.tmp` file of a listed path exactly as it was |
| MobileProperties.WipeFilesClean | src/services/DataWipingService.ts:79-118 | a loop that records no new error and does not abort had every listed file present, removed them all, changed no other file, and added to `bytesWiped` exactly what `calculateTotalBytes` gives for the list beforehand |
| MobileWipe.TotalBytes | src/services/DataWipingService.ts:311-324 | the sum of the sizes `stat` reports; `WipeFilesClean` ties it to `bytesWiped` |
| MobileProperties.RunSuccessIffNoErrors | src/services/DataWipingService.ts:127-132 | a run succeeds iff it recorded no error, and verification passes only when it was requested |
| MobileProperties.RunAccounts | src/services/DataWipingService.ts:79-125 | without cancellation every listed file is either wiped or has exactly one per-file error |
| MobileProperties.WipeFilesNoAbort | src/services/DataWipingService.ts:79-125 | without a cancellation the files loop never aborts and records only per-file errors |
| MobileProperties.CancelBeforeFirstFile | src/services/DataWipingService.ts:79-82 | a cancellation before the first file aborts the run with nothing wiped and the single cancellation error |
| MobileFs.UnderChild | src/services/DataWipingService.ts:299 | a path inside a child directory lies inside the parent |
| MobileProperties.ListedFiles | src/services/DataWipingService.ts:288-306 | every listed path is a file, equal to the target or inside it |
| MobileProperties.ListedEach | src/services/DataWipingService.ts:296-302 | every path listed from a directory's entries is a file inside it |
| MobileProperties.DirectoryTargetNeverVerified | src/services/DataWipingService.ts:128-129 | a directory target fails verification even when every file inside was wiped, since only its files are unlinked |
| MobileProperties.SuccessVerifiesListed | src/services/DataWipingService.ts:127-132 | corrected check: after a successful run none of the listed files exists |
| FileBrowser.ProtectedIgnoresCase | src/services/FileBrowserService.ts:223-227 | protection is decided on the lower-cased path: a path and its lower-case form are equally protected |
| FileBrowser.AddedPathProtected | src/services/FileBrowserService.ts:306-308 | once a path is added to the protected set, that path is protected |
| FileBrowser.PrefixNotDirectory | src/services/FileBrowserService.ts:226-230 | the prefix test is on characters, not path segments: `/systemx` is protected by `/system` |
| FileBrowser.PatternOutlivesRemoval | src/services/FileBrowserService.ts:233-244 | the fixed patterns protect a `.so` file even with every protected path removed |
| FileBrowser.LastDot | src/services/FileBrowserService.ts:278 | `lastIndexOf('.')` is -1 or the index of a dot with no dot after it |
| FileBrowser.Extension | src/services/FileBrowserService.ts:277-280 | the extension is lower-case and dot-free; it is empty iff the name has no dot after its first character or ends with a dot; otherwise the lower-cased name ends with a dot and the extension |
| FileBrowser.TypeOf | src/services/FileBrowserService.ts:285-301 | a name has each of the five categories exactly when its extension is in that category's list (the lists are disjoint), and is other exactly when the extension is in none |
| FileBrowser.NoExtensionIsOther | src/services/FileBrowserService.ts:277-301 | a name without a dot after its first character, such as a dot-file, is of type other |
| FileBrowser.Unique | src/services/FileBrowserService.ts:189 | removing duplicates keeps exactly the paths that occur |
| FileBrowser.Unprotected | src/services/FileBrowserService.ts:190 | the filter keeps exactly the paths that are not protected |
| FileBrowser.FirstIndex | src/services/FileBrowserService.ts:189 | the first index of a path holds it and no earlier index does |
| FileBrowser.FirstIndexPrefix | src/services/FileBrowserService.ts:189 | appending a path leaves every earlier path's first index unchanged |
| FileBrowser.FirstIndexLast | src/services/FileBrowserService.ts:189 | a new path appended at the end is first found there |
| FileBrowser.UniqueOrdered | src/services/FileBrowserService.ts:189 | `Array.from(new Set(...))` has no duplicate and keeps the order of first occurrence |
| FileBrowser.UnprotectedDistinct | src/services/FileBrowserService.ts:190 | filtering a duplicate-free list keeps it duplicate-free |
| FileBrowser.UnprotectedOrdered | src/services/FileBrowserService.ts:190 | filtering keeps the relative order |
| FileBrowser.WipeListFacts | src/services/FileBrowserService.ts:180-191 | the files to wipe are duplicate-free, are exactly the expanded files that are not protected, and appear in the order in which they were first expanded |
| FileBrowser.ExpandedFiles | src/services/FileBrowserService.ts:196-218 | a path expands only to regular files: itself, or files inside it |
| FileBrowser.ExpandedEach | src/services/FileBrowserService.ts:205-211 | a directory's entries expand only to files inside it |
| FileBrowser.ExpandAgreesWithListing | src/services/FileBrowserService.ts:196-218 | wherever the wiping service lists a target's files, the browser expands the target to the same list; the browser also gives the empty list where the service fails |
| FileBrowser.ExpandEachAgrees | src/services/FileBrowserService.ts:205-211 | the same agreement over a directory's entries |
| FileBrowser.BytesAppend | src/services/FileBrowserService.ts:159-165 | the total size of two lists of files is the sum of their sizes |
| FileBrowser.PathSizeIsExpandedBytes | src/services/FileBrowserService.ts:152-175 | a path's size is the total size of the files it expands to |
| FileBrowser.SizeEachIsExpandedBytes | src/services/FileBrowserService.ts:160-165 | a directory's entries add up to the size of the files they expand to |
| FileBrowser.SelectedSizeIsExpandedBytes | src/services/FileBrowserService.ts:134-147 | the selected size is the total size of every expanded file, counted once per time it is expanded |
| FileBrowser.ExpandAllAppend | src/services/FileBrowserService.ts:183-186 | selecting one more path appends its expansion to the list |
| FileBrowser.SelectedSizeAdds | src/services/FileBrowserService.ts:137-144 | selecting one more path adds its whole size to the selected size, whether or not it was already covered |
| FileBrowser.SelectedSizeCountsTwice | src/services/FileBrowserService.ts:134-147 | selecting a directory and a file inside it counts the file's bytes twice: 2 bytes reported for a 1-byte file |
| FileBrowser.UniqueBytes | src/services/FileBrowserService.ts:189 | removing duplicates never increases the total size |
| FileBrowser.UniqueAbsorbs | src/services/FileBrowserService.ts:189 | appending only paths already present leaves the de-duplicated list unchanged |
| FileBrowser.DistinctSelectedSize | src/services/FileBrowserService.ts:134-147 | corrected: the size of the distinct files the selection covers is never more than the size as written |
| FileBrowser.CoveredSelectionAddsNothing | src/services/FileBrowserService.ts:134-147 | corrected: selecting a path whose files are already covered leaves the size unchanged |
| FileBrowser.ItemOf | src/services/FileBrowserService.ts:59-77 | an entry yields an item iff it exists; the item carries its name, its path, whether it is a directory, its size, not selected, and its protection |
| FileBrowser.Collected | src/services/FileBrowserService.ts:58-78 | every collected item belongs to an entry and is that entry's item, and every existing entry's item is collected |
| FileBrowser.LexLeTotal | src/services/FileBrowserService.ts:84 | any two names are ordered one way or the other |
| FileBrowser.LexLeTransitive | src/services/FileBrowserService.ts:84 | the name order is transitive |
| FileBrowser.BeforeTotalPreorder | src/services/FileBrowserService.ts:81-85 | the comparator is a total preorder: directories first, then lower-cased names |
| FileBrowser.Insert | src/services/FileBrowserService.ts:81-85 | inserting adds exactly the one item |
| FileBrowser.SortItems | src/services/FileBrowserService.ts:81-85 | sorting is a permutation |
| FileBrowser.HeadBefore | src/services/FileBrowserService.ts:81-85 | the head of a sorted list comes before every later item |
| FileBrowser.InsertSorted | src/services/FileBrowserService.ts:81-85 | inserting into a sorted list keeps it sorted |
| FileBrowser.InsertAfterHead | src/services/FileBrowserService.ts:81-85 | an item inserted after the head leaves the head before every item of the rest |
| FileBrowser.SortItemsSorted | src/services/FileBrowserService.ts:81-85 | sorting gives a sorted permutation of the items |
| FileBrowser.BrowseFacts | src/services/FileBrowserService.ts:43-91 | browsing fails with "does not exist" iff the path is missing and with "not a directory" iff it is a file; otherwise the items are sorted, directories first, a permutation of the collected entries, and every existing entry is present |
| FileBrowser.FileBrowserService.constructor | src/services/FileBrowserService.ts:23-31 | a new service protects exactly the seven default paths |
| FileBrowser.FileBrowserService.AddProtectedPath | src/services/FileBrowserService.ts:306-308 | adding puts the path in the protected set and changes nothing else |
| FileBrowser.FileBrowserService.RemoveProtectedPath | src/services/FileBrowserService.ts:313-315 | removing takes the path out of the protected set and changes nothing else |
| FileBrowser.FileBrowserService.GetProtectedPaths | src/services/FileBrowserService.ts:320-322 | the list holds each protected path exactly once |
| FileBrowser.FileBrowserService.IsProtectedPath | src/services/FileBrowserService.ts:223-245 | the loop answers exactly whether the path is protected by a prefix or a pattern |
| FileBrowser.FileBrowserService.ExpandPathToFiles | src/services/FileBrowserService.ts:196-218 | the recursive loop builds exactly the expansion: a file lists itself, a directory its entries' files in order, a missing path nothing |
| FileBrowser.FileBrowserService.GetFilesToWipe | src/services/FileBrowserService.ts:180-191 | the loop builds exactly the de-duplicated, unprotected expansion of the selection |
| FileBrowser.FileBrowserService.CalculatePathSize | src/services/FileBrowserService.ts:152-175 | the recursive loop sums exactly the path's size: a file's length, a directory's entries, 0 for a missing path |
| FileBrowser.FileBrowserService.CalculateSelectedSize | src/services/FileBrowserService.ts:134-147 | the loop sums exactly the sizes of the selected paths |
| FileBrowser.FileBrowserService.BrowseDirectory | src/services/FileBrowserService.ts:43-91 | the loop builds exactly the browse result: a refusal for a missing path or a file, otherwise the sorted items of the directory's entries |
| EngineProperties.VerifyWipeMeans | secure-data-wiper/utils/wipe_engine.py:258-285 | `verify_wipe` returns True iff the file opens, is at least 1024 bytes long, and its first and last 1024 bytes each hold at most 102 distinct values; an unreadable or shorter file fails |
| EngineProperties.SolidFileVerifies | secure-data-wiper/utils/wipe_engine.py:273-279 | a file of one repeated byte, at least 1024 bytes long, passes the check |
| FileBrowser.ExtensionListsDisjoint | src/services/FileBrowserService.ts:285-301 | no extension is in two of the five type lists, so the first-match order of the classification never decides a type |

## Left out

- The graphical front ends are not modelled: the Tkinter windows, dialogs and threads, and the React Native screens. `CleanSlateApp` in `data-wipe-final.py` is modelled only for its countdown, undo and stop rules.
- Log lines, status printouts and message boxes are not modelled. `wipe_file`'s `verify=True` call to `verify_wipe` only logs, so the outcome of `wipe_file` does not depend on it. `verify_wipe` itself is modelled as `WipeEngine.VerifyWipe`.
- Randomness is not modelled as such. `os.urandom`, `uuid4`, `generate_random_data` and CryptoJS's random words become caller-supplied functions.
- SHA-256 and SHA-512 are parameters. They are assumed injective only in the tamper-detection lemmas.
- Clocks are parameters: the start and end times, the certificate timestamps, the file-name stamps, and the mobile `timeElapsed`.
- Windows raw-device calls are not modelled: opening, ioctl, lock, dismount and diskpart/format. An open failure is an input (`openOk` or `lockOk`) of the writers of `backedn_old.py`, `data-wipe-backend-new.py`, `data-wipe-backend.py` and `testdemo1.py`. `Prototype.WipeDrive` starts from an opened drive: an `os.open` that raises in `prototype_1.py` propagates before any write, and that path is not modelled. The size returned by `get_drive_size` in `prototype_1.py` and `backedn_old.py` is an input. The ioctl buffer decode of `data-wipe-backend.py` is modelled, but the ioctl call is not.
- The import-time call at `data-wipe-backend.py:112` is not part of the model. It is a script entry point that wipes a fixed physical drive.
- A write past the end of a raw device is modelled as a write that fails, and the wiped drive is the buffer given to the writer. Durability after `fsync` is not modelled; each fsync is only counted.
- `wipe_free_space` in `wipe_engine.py` is not part of this model. It creates and fills a temporary file on a whole drive.
- `calculate_wipe_time`, `estimateWipeTime` and `formatFileSize` are not modelled. They are floating-point estimates for display.
- `calculateTotalBytes` is modelled, but its result only feeds the progress callback of `wipeData`, which is not modelled.
- The progress callback of `wipeData` is not modelled. Mobile progress is display only.
- `getDirectoryTree` and `getSafePaths` of `FileBrowserService.ts` are not modelled. They are display helpers outside the wipe path.
- The modification time of a listed item is not modelled. A directory's `stat` size depends on the platform, so the model takes it as 0 in a listing.
- FileBrowser.ProtectedIgnoresCase: lower-casing is ASCII-only. JavaScript's `toLowerCase` also folds non-ASCII letters (U+212A KELVIN SIGN to "k", "Ä" to "ä"), so a path protected only through such a letter is not protected in the model.
- FileBrowser.FileBrowserService.IsProtectedPath: its lower-cased comparison is ASCII-only, for the same reason as above.
- FileBrowser.Protected: the protection test lower-cases ASCII letters only, as above.
- FileBrowser.Extension: the extension, and the name order `Before` used by the sort, are lower-cased in ASCII only; non-ASCII letters keep their case.
- FileBrowser.SortItems: the order is modelled with `localeCompare` taken as code-unit order, and the stability of `Array.sort` is not stated.
- FileBrowser.FileBrowserService.GetProtectedPaths: returns every member once, but does not state the insertion order that a JavaScript `Set` keeps.
- MobileWipe.DataWipingService.VerifyWipe: covers the normal path. The exception path of `RNFS.exists` is not modelled, because the path-string file system cannot raise there.
- MobileFs.Move: follows Android, where `RNFS.moveFile` renames over an existing file; the native dependencies in `react-native.config.js` are configured for Android only. On iOS `moveFile` fails when the destination exists, so there the overwrite of `DataWipingService.ts:266` would fail and is not modelled.
- The singleton `getInstance` of both services is not modelled. Each model class is one service instance.
- Concurrency is modelled only through the stop flag. Another thread raising it is an oracle indexed by the number of flag reads. For the mobile `shouldCancel` flag, the number of the first cancel check that sees it raised is an input. The 30-second sleep of the final-delete countdown is a loop of 30 ticks.
- Progress is modelled as exact arithmetic. The floats of `wipe_engine.py` and `data-wipe-final.py` are exact rationals. The integer percentages of the raw writers use `int()` truncation of non-negative values. Float rounding is not modelled.
- Json.DecodeValue: reads only the compact text `json.dumps` writes. The certificate file is written with `indent=2` (`certificate_generator.py:120`) and read back by `json.load` (`certificate_generator.py:301`); the model stores the value itself and takes that write-then-read to give the same value, so indented text is not parsed.
- `Json.Value` has no floating-point numbers. The `duration` that `main_old.py:636` computes with `total_seconds()` and passes at `main_old.py:653` is stored as `duration_seconds` at `certificate_generator.py:86`; the model takes it as an integer, so the float text `json.dumps` writes for it is not modelled.
- Rendering of the certificate is not modelled, neither the PDF nor the text file. Only the JSON certificate, its hashes and its verification are modelled.
- Python's `os.path` functions are modelled on paths as lists of components. `realpath` and symbolic links are not modelled: a path is taken as already resolved. A Windows path keeps its drive ("C:") as its first component.
- StagingEngine.SystemDriveMeans: the Windows drive is read from the first component only. UNC shares (`\\server\share`), which `splitdrive` also returns as a drive, are not modelled. The drive is upper-cased in ASCII only. A missing `%SYSTEMDRIVE%`, which raises `KeyError` in the source, is not modelled: the platform value carries the variable's text.
- StagingEngine.CommonPath: components are compared exactly. On Windows `ntpath.commonpath` and `relpath` compare them without case, so targets that differ only in letter case get a shorter common path, and other destinations under the staging directory, in the model. Targets that mix absolute and relative paths, which also make `commonpath` raise, are not modelled, because a path here is a list of components.
- StagingEngine.SecureWipeEngine.WipeTarget: a common path is decided once per wipe by `OneDrive`. The source calls `commonpath` again for each file, with the same targets and the same result.
- StagingEngine.EngineRoundTrip: it covers selections of distinct files that all lie strictly below the common path. Overlapping targets that select a file twice are not covered: the second move of that file fails and is skipped. A single file target is not covered either; it is the staging defect under "## Findings".
- `os.walk` order is an input listing. `os.path.isfile`/`isdir` are read from the modelled file system.

## Findings

| source | as written | input that shows it | evidently intended | confidence | as-written member | corrected member |
|---|---|---|---|---|---|---|
| secure-data-wiper/utils/wipe_engine.py:129-139 | a fixed pass writes `pattern_data[:chunk_size]`, at most 512 bytes, but advances its counter by `chunk_size`, up to 4096 | a 1024-byte file of 0xFF bytes under the first DoD pass: bytes 512 to 1023 keep 0xFF | the fixed pattern repeated over the whole chunk, so every byte of the file is overwritten | high, not executed | WipePlan.FixedPassLeavesOldBytes | WipePlan.CorrectedPassOverwrites |
| data-wipe-backend.py:78-83 | no seek to offset 0 between passes, so the second pass starts where the first ended | a 2 MiB drive wiped with 2 passes: the first write of pass 2 is past the end of the device and fails | each pass rewinds to offset 0 and overwrites the whole drive again | high, not executed | BackendRaw.RawFailures | BackendRaw.WipeDriveRewinding |
| data-wipe-backend.py:81-83 | whole blocks are written while `written < size`, so the last block runs past the end of an unaligned drive | a drive of 1 MiB + 512 bytes with 1 pass: the second block fails and the last 512 bytes are never overwritten | the last write of a pass cut to the bytes that remain | medium, not executed | BackendRaw.RawTailUntouched | BackendRaw.WipeDriveRewinding |
| testdemo1.py:69-71 | a write error returns the start time, the current time and the partial digest, and `wipe_worker` takes any such triple as success (lines 127-130) | a 64 MiB volume under the 128 MiB test region: the write error is reported as a completed wipe | a write error reported as a failure | high, not executed | TestDemo.ShortVolumeReportedAsSuccess | TestDemo.ReportedResult |
| data-wipe-final.py:120-125 | with a single target file, `commonpath` is the file itself and `relpath` is ".", so the file moves to the staging directory's own path and the undo entry records that directory | the target list holding only one file: undo moves the staging directory back, and the file ends up one level down, under its own name | the file staged under its own name, so undo returns it to its place | high, not executed | StagingEngine.SingleFileMisplaced | StagingEngine.SingleFileRestored |
| data-wipe-final.py:63-71 | `_overwrite_drive` writes the drive's total size into a file on that drive, which needs the whole drive to be free | a 1 GiB drive with one byte in use: the first pass runs out of space and the overwrite reports failure | each pass fills the free space of the drive | high, not executed | StagingEngine.OverwriteFailsOnUsedDrive | StagingEngine.FreeSpaceOverwriteCompletes |
| src/services/DataWipingService.ts:256-266 | for a file of size 0 the loop never creates the temp file, so `moveFile` fails | an empty file: its first pass raises and the file is never wiped or unlinked | an empty file is trivially overwritten and then removed | high, not executed | MobileProperties.EmptyFileNeverWiped | MobileProperties.CorrectedOverwriteExact |
| src/services/DataWipingService.ts:252-261 | chunks are appended to `${filePath}.tmp` without clearing a file already there | a stale `.tmp` file left by an earlier run: its bytes are prepended, and the file grows past its size | the temp file started empty, so each pass writes exactly `fileSize` bytes of pattern | medium, not executed | MobileProperties.StaleTempPrepended | MobileProperties.CorrectedOverwrite |
| src/services/DataWipingService.ts:128-129 | `verifyWipe(options.target)` checks the target itself, but a directory target is never unlinked, only its files (line 189) | a directory target with `verify` set: verification always fails, even after a clean wipe | verification that every listed file is gone | high, not executed | MobileProperties.DirectoryTargetNeverVerified | MobileProperties.SuccessVerifiesListed |
| src/services/FileBrowserService.ts:134-147 | the sizes of the selected paths are summed, so a file selected together with its directory is counted twice | file "/d/a" of 1 byte, with both "/d" and "/d/a" selected: the reported size is 2 | the size of the distinct files the selection would wipe, as `getFilesToWipe` deduplicates them | medium, not executed | FileBrowser.SelectedSizeCountsTwice | FileBrowser.CoveredSelectionAddsNothing |
