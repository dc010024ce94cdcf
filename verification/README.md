# Program auto-updater: version comparison and update workflow

This project models the core of a small desktop auto-updater (`AppUpdater`
in `updater.py`). At startup the updater fetches a version manifest and
compares the announced version with the locally recorded one. If the remote
version is newer, it downloads an archive, optionally checks its digest,
extracts it and records the new version, then launches the installed
program. A "check" button re-runs the comparison without installing, an
"update" button runs the install cycle without launching, and a "run"
button launches the program.

The model has four parts:

- `Strings` covers the Python string operations the model relies on. The
  comparison uses `split` on one character, `strip()`, `isdigit()` and
  `int()` on a digit string. `join` is there as the inverse of `split` in
  the round-trip lemmas. `endswith` is the ".zip" test of the extraction
  (line 440).
- `Versions` covers `compare_versions` with its nested `normalize_version`.
  Its contracts relate the padded, loop-based comparison of the source to an
  independent reference order. A version denotes the infinite sequence of
  its components followed by zeros. "Newer" is the lexicographic order on
  those sequences.
- `Updater` covers the workflow as pure functions over an immutable `State`:
  - the in-memory local and remote versions;
  - the version file, the temporary archive and the extracted files;
  - the three buttons and the status line;
  - a log of the I/O steps taken.

  Every I/O step is an abstract outcome passed in as a parameter: the
  manifest request, the download, the digest, the extraction and the
  version-file write. Whether the program file exists is read from the
  modelled disk: it is among the installed entries exactly when an
  extraction put it there.
- `UpdaterProperties` proves properties that relate several operations. The
  central one: over any sequence of commands, the local version and the
  version file change only through a version-file write that comes straight
  after a successful extraction. The rest are the version-file round trip
  and concrete scenarios, including the situations in which the program does
  less than one might expect.

Several safeguards an updater might be expected to have are absent from
the code, and the model does not add them:

- no retry of a failed download;
- no repair when the versions are equal but the program is missing;
- no guard against a second update running at the same time;
- no write-then-rename of the version file;
- no creation of a missing version file at startup.

`UpdaterProperties.MissingProgramIsNotRepaired`,
`UpdaterProperties.FailedExtractionLeavesStaleRecord`,
`UpdaterProperties.FailedSaveRepeatsDownload` and
`UpdaterProperties.FailedWriteAllowsDowngrade` state this behaviour
explicitly. A failed extraction has already emptied the extraction directory
but leaves the record naming the previous version. So the invariant
"the recorded version is the installed version" does not hold after such a
failure. A version write that fails after `open` has truncated the file is
worse. The next start cannot parse the file and falls back to "0.0.0", so
any version announced then that is newer than "0.0.0" counts as newer,
including one older than the version installed. A version that normalises
to all zeros, such as the "0.0.0" assumed when the manifest has no
"version" key, still only launches.

## Model

| member | source | states |
|---|---|---|
| Strings.Split | updater.py:44 | `str.split('.')`: at least one piece, and no piece contains the separator |
| Strings.JoinSplit | updater.py:44 | joining the pieces of a split with the separator gives back the original string |
| Strings.SplitJoin | updater.py:44 | splitting a join of separator-free pieces gives back the pieces, so split is injective on them |
| Strings.Strip | updater.py:44 | `strip()` returns a slice of the input whose ends are not white space, everything cut off is white space, and a string without white space at its ends is returned unchanged |
| Strings.DecimalValue | updater.py:45 | `int()` of a digit string is zero exactly when every digit is '0' (its round trips with the canonical spelling are the two rows below) |
| Strings.DecimalString | updater.py:45 | the canonical digit string of `n` is all digits, has no superfluous leading zero, and `int()` of it is `n` |
| Strings.DecimalStringOfValue | updater.py:45 | a digit string without a superfluous leading zero is the canonical spelling of its own `int()` value |
| Strings.LeadingZeroIgnored | updater.py:45 | `int()` ignores leading zeros |
| Versions.Segments | updater.py:44 | a stripped version splits into at least one segment |
| Versions.Normalize | updater.py:43-45 | one component per segment (at least one); an all-digit segment becomes its decimal value and every other segment becomes 0 |
| Versions.NormalizeRender | updater.py:43-45 | normalising the canonical dotted spelling of a component sequence gives back that sequence |
| Versions.NormalizeJoin | updater.py:43-45 | a dotted string without white space at its ends normalises segment by segment |
| Versions.Pad | updater.py:50-53 | right-padding with zeros to length `n` keeps the prefix, fills with zeros, and denotes the same version |
| Versions.Lex | updater.py:55-60 | the scan of two equal-length sequences returns one of -1, 0, 1, and 0 exactly when they are equal |
| Versions.LexSpec | updater.py:55-60 | the scan returns 1 exactly when the first sequence is later in the reference order, and -1 exactly when the second is |
| Versions.CompareParts | updater.py:50-60 | padding then scanning gives -1, 0 or 1, agreeing with the reference order in all three cases |
| Versions.Compare | updater.py:35-60 | `compare_versions` returns 1 exactly when `v1` is newer, -1 exactly when `v2` is newer, and 0 exactly when both denote the same version; on the strings modelled (ASCII digits) it does not fail |
| Versions.CompareReflexive | updater.py:35-60 | every version compares equal to itself |
| Versions.CompareAntisymmetric | updater.py:35-60 | swapping the arguments negates the result |
| Versions.CompareTransitive | updater.py:35-60 | "newer" is transitive |
| Versions.ExceedsTransitive | updater.py:55-60 | the reference order is transitive |
| Versions.ZeroIsOldest | updater.py:43-60 | no version compares older than "0.0.0", whatever its text |
| Versions.NewerThanZero | updater.py:43-60 | a version newer than any version is newer than "0.0.0" |
| Versions.CompareEqualSubstitutes | updater.py:35-60 | versions that compare equal compare alike with every third version |
| Versions.SameVersionCongruent | updater.py:50-53 | sequences that differ only in trailing zeros compare alike |
| Versions.ExceedsTail | updater.py:55-60 | an equal first component leaves the decision to the rest |
| Versions.NonNumericIsZero | updater.py:45 | a version with no all-digit segment (empty, garbage) compares equal to "0.0.0" |
| Versions.ShorterEqualsPadded | updater.py:50-53 | "1.2" and "1.2.0" denote the same version (compare as 0) |
| Versions.NonNumericSegmentIsZero | updater.py:45 | "1.x.0" and "1.0.0" denote the same version (compare as 0) |
| Versions.FirstComponentDecides | updater.py:55-60 | "2.0.0" is newer than "1.9.9" and not the reverse (compares as 1) |
| Versions.ExtraComponentDecides | updater.py:50-60 | "1.0.1" is newer than "1.0" and not the reverse (so "1.0" against "1.0.1" compares as -1) |
| Versions.MinorReleaseIsNewer | updater.py:55-60 | "1.1.0" is newer than "1.0.0" and not the reverse |
| Versions.OlderMajorIsOlder | updater.py:55-60 | "2.0.0" is newer than "1.5.0" and not the reverse |
| Versions.FirstDifferenceDecides | updater.py:55-60 | when two component sequences agree before position `k` and the first is larger at `k`, the first is the later version and not the other way round, whatever follows |
| Versions.PaddedIsSame | updater.py:50-53 | a sequence and its extension by zeros denote the same version |
| Updater.DefaultConfig | updater.py:82-93 | the configured archive path ends in ".zip" and no digest is expected |
| Updater.CycleEvents | updater.py:356-396 | every cycle starts with a download, a successful extraction occurs exactly in a completed cycle, the digest check comes second exactly when a digest is configured, and there is none otherwise |
| Updater.CycleEventsWellFormed | updater.py:356-396 | the steps of a cycle come in the source's order, a failed download, digest check or extraction is the last step, and a version write follows straight after a successful extraction |
| Updater.InOrderIsStrictlyIncreasing | updater.py:356-396 | steps in adjacent order are in order pairwise, so no step repeats within a cycle |
| Updater.LoadLocalVersion | updater.py:276-286 | an absent file keeps the current version, a record without "version" reads as "0.0.0", an unreadable file keeps the version and reports a failure, and nothing on disk changes |
| Updater.SaveLocalVersion | updater.py:288-296 | a successful write records `version` in the file and only then changes the in-memory version; a failed `open` leaves the file untouched, and a write that fails after `open` leaves it unreadable; both report a failure and keep the old version |
| Updater.Startup | updater.py:96-105 | versions start at "0.0.0", only the check button is enabled, and the local version is the one recorded on disk ("0.0.0" when there is none) |
| Updater.DownloadArchive | updater.py:398-429 | a received archive is on disk; a failed transfer leaves no archive (the partial file is removed); the version file, the installed files, both versions, the buttons and the status are unchanged |
| Updater.ExtractArchive | updater.py:431-460 | extraction succeeds exactly when the path ends in ".zip", the archive is present and every entry extracts; the directory then holds exactly the archive's entries, and it is empty after a format or missing-archive failure |
| Updater.RemoveArchiveIfPresent | updater.py:394-396 | the archive is gone afterwards, and a removal is logged only when there was one |
| Updater.RunProgram | updater.py:462-478 | the launch succeeds exactly when the program file is installed; nothing else changes |
| Updater.PerformUpdate | updater.py:356-396 | the cycle's steps and ending are determined by the I/O outcomes; the local version and the version file keep their values unless the cycle completes; a completed cycle with a successful write records the remote version, one whose `open` fails leaves the file as it was, and one whose write fails after `open` leaves it unreadable; a digest crash, like a failed download or a mismatch, leaves the installed files untouched; the archive is left only after a failed extraction or a digest crash; a digest mismatch removes it |
| Updater.VerifyArchive | updater.py:367-379 | the digest is checked only when one is configured; a mismatch removes the archive and stops; an uncomputable digest ends the cycle without re-enabling the check button |
| Updater.Install | updater.py:381-396 | the version is saved only after a successful extraction; the status reads "update complete" even when the save failed |
| Updater.PerformUpdateAuto | updater.py:231-274 | the same cycle as the manual update, followed by one launch exactly when it completes: the new steps launch the program once after a completed cycle and never otherwise |
| Updater.CheckUpdate | updater.py:319-350 | the manual check enables update and disables run exactly when the remote version is newer, the reverse otherwise, re-enables the check button, and touches neither the local version nor the disk |
| Updater.CheckUpdateAuto | updater.py:189-225 | an unreachable manifest neither updates nor launches; a version that is not newer launches at once with nothing on disk changed; a newer one records the announced version as remote, starts with a download, and moves the local version to it only when the cycle completes and the write succeeds; a completed cycle installs the archive's entries and leaves the version file recording the announced version, unchanged, or unreadable, as the write succeeded, failed to open, or failed after opening; the program is launched exactly once unless a newer version fails to install |
| Updater.UpdateThenLaunch | updater.py:203-274 | after a newer version is found: the buttons end as (check, not update, run when it was or when the cycle completed); the first new step is the download; the local version and file become the announced version only after a completed cycle with a successful write, and a completed cycle whose write fails leaves the file unchanged (failed `open`) or unreadable (failed write); a completed cycle leaves the archive's entries installed, the archive removed and ends with one launch; any other ending keeps the version file and launches nothing |
| Updater.LaunchWithoutUpdate | updater.py:208-224 | without a newer version the program is launched once, and the version and disk are unchanged |
| UpdaterProperties.SaveThenLoad | updater.py:276-296 | the file is read only at startup: after a successful write the next start reads the saved version; after a failed `open` it reads what it would have read before; after a write that fails past `open` it reports a load failure and reads "0.0.0" |
| UpdaterProperties.SaveFailureIsReportedAsComplete | updater.py:388-390 | a cycle whose version write fails ends with the same status and buttons as one whose write succeeds, while the local version stays old |
| UpdaterProperties.Apply | updater.py:169-182 | every button and the startup check only append to the log, and a change of the local version or the version file comes with a version write among the new steps |
| UpdaterProperties.CycleSteps | updater.py:356-396 | an update cycle writes the version only after a successful extraction, and changes the version only with a write |
| UpdaterProperties.CycleWrites | updater.py:381-396 | every version write of a cycle follows a successful extraction, a completed cycle always writes, and the write is logged as successful when it succeeded |
| UpdaterProperties.AutoCycleSteps | updater.py:231-274 | the same holds for the automatic cycle with its launch |
| UpdaterProperties.CheckUpdateAutoSteps | updater.py:189-225 | the same holds for the automatic check |
| UpdaterProperties.ApplyStep | updater.py:169-182 | one command keeps the log's writes after extractions, and a version change is witnessed by such a write |
| UpdaterProperties.VersionAdvancesOnlyAfterExtraction | updater.py:381-390 | over any sequence of commands, the local version and the version file change only through a write straight after a successful extraction, so a failed download, digest check or extraction never changes them |
| UpdaterProperties.RepeatedCheckDoesNotDownload | updater.py:96-108 | after a start whose automatic check completed and saved an update to `v`, the next start reads `v`, and its automatic check announcing `v` downloads nothing and only launches |
| UpdaterProperties.FailedSaveRepeatsDownload | updater.py:276-296 | after a start whose update to `v` completed but whose save failed, the next start reads the old version (failed `open`) or "0.0.0" (failed write), and its automatic check announcing `v` downloads it again |
| UpdaterProperties.FailedWriteAllowsDowngrade | updater.py:288-296 | after an update to `v` whose write fails past `open`, `v` is installed but the next start reads "0.0.0", so an older version announced then, provided it is newer than "0.0.0", is downloaded, and installed over `v` when its cycle completes; a manifest without a "version" key then only launches |
| UpdaterProperties.MissingProgramIsNotRepaired | updater.py:208-219 | a version that is not newer never triggers a download, even when the program is missing; the launch fails |
| UpdaterProperties.FailedExtractionLeavesStaleRecord | updater.py:381-386 | a failed extraction leaves the old version recorded while the program is missing, and after a restart the automatic check announcing that version does not repair it: it only launches, and the launch fails |
| UpdaterProperties.CleanAutoUpdate | updater.py:189-274 | with no failure and no digest configured, the automatic check downloads, extracts, records the announced version, removes the archive and launches once |
| UpdaterProperties.CleanCycle | updater.py:356-396 | with no failure and no digest configured, the update cycle takes exactly the four steps and records the remote version |
| UpdaterProperties.CleanLaunch | updater.py:231-274 | with no failure and no digest configured, the automatic cycle ends with the program launched |
| UpdaterProperties.UpgradeScenario | updater.py:189-274 | a program at "1.0.0" offered "1.1.0" ends with "1.1.0" recorded, the program installed, the archive gone and one successful launch |
| UpdaterProperties.DowngradeIsNotInstalled | updater.py:201-219 | a program at "2.0.0" offered "1.5.0" downloads nothing and launches what is installed |
| UpdaterProperties.UnreachableManifestDoesNothing | updater.py:220-225 | an unreachable manifest leaves the log empty, the disk and version unchanged, and reports a failed check |

## Left out

- The tkinter window, labels, progress bars and message boxes. Only the
  status message an operation leaves behind is modelled, as a `Status`
  value. Intermediate messages that are overwritten before the operation
  returns have no `Status` value: "checking for updates", "starting the
  download", "download finished", "download error", "starting the
  extraction", "extraction finished", "extraction error" and "starting the
  program". Progress values are not modelled.
- HTTP details (URLs, timeouts, chunked streaming, `Content-Length`). A
  download is `Received(archive)` or `TransferError`. A manifest reply is
  `Unreachable` (request, HTTP status or JSON failure) or a reply whose
  "version" key may be missing.
- Threads. The update cycle of the automatic check runs on a worker thread.
  It is modelled as running after the check's `finally` clause. That clause
  only re-enables the check button, so every interleaving ends in the same
  state. Interleavings with user commands while the worker runs are not
  modelled: pressing "update" starts a second cycle, and pressing "check"
  (re-enabled by that `finally` clause at line 225) runs `_check_update`,
  which can replace the remote version (line 328) before the worker saves
  it (line 264) and can disable the run button (line 336) after the worker
  enabled it (line 266).
- MD5 and `calculate_file_hash`. A digest is an abstract hex string or an
  error. Comparing it with the expected digest is modelled exactly,
  including Python truthiness: an empty expected digest means "not
  configured".
- The internals of `zipfile` and `shutil.rmtree`. An extraction outcome
  names the entries left under the extraction directory. Only the launched
  program's path (`jiaoyu_win/LuckyAi.exe`) is inspected.
- `subprocess.Popen` failures other than a missing program file.
- `get_exe_dir`, `resource_path`, the pip bootstrap and `main`. Paths are
  modelled as the archive path only. The version file, extraction directory
  and program path are fixed parts of `Disk`.
- Versions.Normalize: `str.isdigit` and `int` are modelled on the ASCII
  digits only. Python also accepts other Unicode decimal digits, and
  `isdigit` accepts superscript digits, on which `int` raises.
- Versions.Compare: the source raises instead of returning on three kinds
  of input, and the model returns a result for all of them. A version that
  is not a string (JSON `null` or a number) raises at `strip`. A segment of
  superscript digits passes `isdigit` and then raises in `int`. On Python
  3.11 and later, `int` also raises on a segment longer than 4300 digits.
- Updater.CheckUpdate and Updater.CheckUpdateAuto: a manifest "version"
  that is not a string is not modelled. `ManifestReply` holds an optional
  string. In the source such a value is stored as the remote version
  before the comparison raises, and the check reports a failure with the
  remote version already replaced. `Unreachable` keeps the remote version
  unchanged. If the update button is still enabled from an earlier check,
  a later update saves the non-string value to the version file. Every
  later comparison then raises, including after a restart.
- Updater.LoadLocalVersion: a "version" value in the JSON file that is not a
  string is not modelled. The record holds an optional string.
- Updater.ExtractArchive: a failure of `rmtree` or `makedirs` is folded into
  `ExtractError(left)` with whatever `left` the caller chooses.
- Failures of `os.remove` are not modelled. Removal of the archive always
  succeeds.
