/** The update workflow of `AppUpdater` in updater.py, as an immutable state
    advanced by pure functions.

    Every I/O step is an abstract outcome passed in as a parameter: the
    manifest request (`ManifestReply`), the archive download
    (`DownloadResult`), the digest computation (`DigestResult`), the
    extraction (`ExtractResult`) and the version-file write (`WriteResult`).
    The state holds what the workflow reads and writes: the in-memory local
    and remote versions, the three relevant files on disk, the enablement of
    the three buttons, the status line, and a log of the I/O steps taken. */
module Updater {
  import opened Wrappers
  import opened Strings
  import Versions

  /* ---------------------------------------------------------------------
     Configuration
     --------------------------------------------------------------------- */

  /** The version assumed when none is known (`"0.0.0"` throughout the source). */
  const DefaultVersion: string := "0.0.0"

  /** File name of the temporary archive inside the updater's directory. */
  const ArchiveName: string := "temp_update.zip"

  /** Path of the launched program relative to the extraction directory
      (`installed_program/jiaoyu_win/LuckyAi.exe` relative to the updater). */
  const ProgramEntry: string := "jiaoyu_win/LuckyAi.exe"

  /** The configuration entries the workflow consults. */
  datatype Config = Config(archiveSavePath: string, expectedHash: Option<string>)

  /** The configuration built in `__init__` for an updater installed in `baseDir`:
      the archive is saved beside the updater and no digest is expected. */
  function DefaultConfig(baseDir: string): (cfg: Config)
    ensures EndsWith(cfg.archiveSavePath, ".zip")
    ensures !HashConfigured(cfg)
  {
    var path := baseDir + "/" + ArchiveName;
    assert path[|path| - 4..] == ".zip";
    Config(path, None)
  }

  /** `if self.config["expected_hash"]`: Python truthiness, so an empty
      string counts as not configured. */
  predicate HashConfigured(cfg: Config) {
    cfg.expectedHash.Some? && cfg.expectedHash.value != ""
  }

  /* ---------------------------------------------------------------------
     State
     --------------------------------------------------------------------- */

  /** A downloaded archive, known by the entries it extracts to. */
  datatype Archive = Archive(entries: set<string>)

  /** The version file `local_version.json`: absent, a JSON object whose
      "version" key may be missing, or something `json.load` rejects. */
  datatype VersionFile = NoFile | Record(version: Option<string>) | Unreadable

  /** The files the workflow touches: the version file, the temporary
      archive, and the entries present under the extraction directory. */
  datatype Disk = Disk(versionFile: VersionFile, archive: Option<Archive>, installed: set<string>)

  datatype Buttons = Buttons(check: bool, update: bool, run: bool)

  /** The status line, as last set by an operation. */
  datatype Status =
    | Ready
    | LoadFailed
    | CheckFailed
    | NewVersionFound
    | UpToDate
    | LocalIsNewer
    | DownloadFailed
    | VerifyingIntegrity
    | HashMismatch
    | ExtractFailed
    | SaveFailed
    | UpdateComplete
    | ProgramStarted
    | LaunchFailed

  /** The I/O steps of an update cycle, in the order the source performs them. */
  datatype Step = Download | HashCheck | Extract | SaveVersion | RemoveArchive | Launch

  /** One step taken, and whether it succeeded. */
  datatype Event = Event(step: Step, ok: bool)

  datatype State = State(
    local: string,
    remote: string,
    disk: Disk,
    buttons: Buttons,
    status: Status,
    log: seq<Event>)

  /* ---------------------------------------------------------------------
     Abstract I/O outcomes
     --------------------------------------------------------------------- */

  /** The manifest request: a failure of the request, of the HTTP status or
      of JSON decoding, or a JSON object whose "version" key may be missing. */
  datatype ManifestReply = Unreachable | Reply(version: Option<string>)

  datatype DownloadResult = Received(archive: Archive) | TransferError

  /** `calculate_file_hash`: a hex digest, or an exception (unreadable file,
      unknown algorithm). */
  datatype DigestResult = Digest(hex: string) | DigestError

  /** The extraction loop: every entry written, or a failure that leaves
      `left` under the extraction directory. */
  datatype ExtractResult = Extracted | ExtractError(left: set<string>)

  /** The version-file write: done, `open` failed (file untouched), or the
      write failed after `open` truncated the file. */
  datatype WriteResult = Written | OpenError | WriteError

  /** The outcomes one update cycle may meet. */
  datatype CycleIO = CycleIO(
    download: DownloadResult,
    digest: DigestResult,
    extract: ExtractResult,
    write: WriteResult)

  /** How an update cycle ended. `CrashedAtHash` is the uncaught exception
      of `calculate_file_hash`, which ends the worker thread. */
  datatype Ending = Completed | StoppedAtDownload | StoppedAtHash | CrashedAtHash | StoppedAtExtract

  datatype Cycle = Cycle(state: State, end: Ending)

  /* ---------------------------------------------------------------------
     The event sequences a cycle may produce
     --------------------------------------------------------------------- */

  /** Position of a step in the source's fixed order. */
  function Rank(step: Step): nat {
    match step
    case Download => 0
    case HashCheck => 1
    case Extract => 2
    case SaveVersion => 3
    case RemoveArchive => 4
    case Launch => 5
  }

  /** Each step comes later in the source's order than the one before it. */
  ghost predicate InOrder(events: seq<Event>) {
    forall i :: 0 < i < |events| ==> Rank(events[i - 1].step) < Rank(events[i].step)
  }

  /** Steps in order occur at most once each, in the source's order. */
  lemma {:induction false} InOrderIsStrictlyIncreasing(events: seq<Event>)
    requires InOrder(events)
    ensures forall i, j :: 0 <= i < j < |events| ==> Rank(events[i].step) < Rank(events[j].step)
    decreases |events|
  {
    if |events| > 1 {
      var init := events[..|events| - 1];
      assert InOrder(init) by {
        forall i | 0 < i < |init| ensures Rank(init[i - 1].step) < Rank(init[i].step) {
          assert init[i - 1] == events[i - 1] && init[i] == events[i];
        }
      }
      InOrderIsStrictlyIncreasing(init);
      forall i, j | 0 <= i < j < |events| ensures Rank(events[i].step) < Rank(events[j].step) {
        if j < |events| - 1 {
          assert init[i] == events[i] && init[j] == events[j];
        } else if i < j - 1 {
          assert init[i] == events[i] && init[j - 1] == events[j - 1];
        }
      }
    }
  }

  /** A failed download, digest check or extraction is the last step taken. */
  ghost predicate StopsAtFailure(events: seq<Event>) {
    forall i :: 0 <= i < |events| && !events[i].ok && Rank(events[i].step) <= Rank(Extract) ==> i == |events| - 1
  }

  /** Every version-file write comes straight after a successful extraction. */
  ghost predicate SavesFollowExtraction(events: seq<Event>) {
    forall i :: 0 <= i < |events| && events[i].step == SaveVersion ==> 0 < i && events[i - 1] == Event(Extract, true)
  }

  /** How many times the program was launched in a run of steps. */
  function Launches(events: seq<Event>): nat
    decreases |events|
  {
    if |events| == 0 then 0
    else Launches(events[..|events| - 1]) + (if events[|events| - 1].step == Launch then 1 else 0)
  }

  /** Launches are counted step by step, so they add up over concatenation. */
  lemma {:induction false} LaunchesAppend(a: seq<Event>, b: seq<Event>)
    ensures Launches(a + b) == Launches(a) + Launches(b)
    decreases |b|
  {
    if |b| == 0 {
      assert a + b == a;
    } else {
      var init := b[..|b| - 1];
      assert (a + b)[..|a + b| - 1] == a + init;
      assert (a + b)[|a + b| - 1] == b[|b| - 1];
      LaunchesAppend(a, init);
    }
  }

  /** Steps none of which is a launch launch nothing, and a step that is
      one launches once. */
  lemma {:induction false} LaunchesCount(events: seq<Event>)
    ensures (forall i :: 0 <= i < |events| ==> events[i].step != Launch) ==> Launches(events) == 0
    ensures |events| == 1 ==> Launches(events) == (if events[0].step == Launch then 1 else 0)
    decreases |events|
  {
    if |events| > 0 {
      LaunchesCount(events[..|events| - 1]);
    }
  }

  /** The steps an update cycle takes, given how it ended. */
  function CycleEvents(cfg: Config, end: Ending, written: bool): (events: seq<Event>)
    ensures |events| > 0 && events[0] == Event(Download, !end.StoppedAtDownload?)
    ensures forall i :: 0 <= i < |events| ==> events[i].step != Launch
    ensures Event(Extract, true) in events <==> end.Completed?
    ensures HashConfigured(cfg) && !end.StoppedAtDownload? ==> |events| > 1 && events[1].step == HashCheck
    ensures !HashConfigured(cfg) && (end.Completed? || end.StoppedAtExtract?) ==>
      forall i :: 0 <= i < |events| ==> events[i].step != HashCheck
  {
    var hashed := HashConfigured(cfg);
    match end
    case StoppedAtDownload => [Event(Download, false)]
    case StoppedAtHash => [Event(Download, true), Event(HashCheck, false)]
    case CrashedAtHash => [Event(Download, true), Event(HashCheck, false)]
    case StoppedAtExtract =>
      if hashed then [Event(Download, true), Event(HashCheck, true), Event(Extract, false)]
      else [Event(Download, true), Event(Extract, false)]
    case Completed =>
      if hashed then
        [Event(Download, true), Event(HashCheck, true), Event(Extract, true),
         Event(SaveVersion, written), Event(RemoveArchive, true)]
      else
        [Event(Download, true), Event(Extract, true), Event(SaveVersion, written), Event(RemoveArchive, true)]
  }

  /** Every cycle takes its steps in order, stops at the first failed
      download, digest check or extraction, and writes the version file
      only straight after a successful extraction. */
  lemma CycleEventsWellFormed(cfg: Config, end: Ending, written: bool)
    ensures var events := CycleEvents(cfg, end, written);
      InOrder(events) && StopsAtFailure(events) && SavesFollowExtraction(events)
  {
  }

  /* ---------------------------------------------------------------------
     The version file
     --------------------------------------------------------------------- */

  /** `_load_local_version` (lines 276-286). An absent file keeps the current
      version; a record without "version" reads as "0.0.0"; an unreadable
      file keeps the current version and sets a status message. Nothing is
      written back. */
  function LoadLocalVersion(s: State): (t: State)
    ensures t.disk == s.disk && t.log == s.log && t.buttons == s.buttons && t.remote == s.remote
    ensures !s.disk.versionFile.Record? ==> t.local == s.local
    ensures s.disk.versionFile.Record? ==> t.local == s.disk.versionFile.version.GetOr(DefaultVersion)
    ensures t.status == (if s.disk.versionFile.Unreadable? then LoadFailed else s.status)
  {
    match s.disk.versionFile
    case NoFile => s
    case Record(v) => s.(local := v.GetOr(DefaultVersion))
    case Unreadable => s.(status := LoadFailed)
  }

  /** `_save_local_version` (lines 288-296). The in-memory version changes
      only once the file write has succeeded; a failure only sets a status
      message (and a write that fails after `open` leaves a truncated file). */
  function SaveLocalVersion(s: State, version: string, w: WriteResult): (t: State)
    ensures t.log == s.log + [Event(SaveVersion, w.Written?)]
    ensures t.local == (if w.Written? then version else s.local)
    ensures w.OpenError? ==> t.disk == s.disk
    ensures t.disk.versionFile == (match w
      case Written => Record(Some(version))
      case OpenError => s.disk.versionFile
      case WriteError => Unreadable)
    ensures !w.Written? ==> t.status == SaveFailed
    ensures w.Written? ==> t.status == s.status
    ensures t.remote == s.remote && t.buttons == s.buttons
    ensures t.disk.archive == s.disk.archive && t.disk.installed == s.disk.installed
  {
    var s' := s.(log := s.log + [Event(SaveVersion, w.Written?)]);
    match w
    case Written => s'.(local := version, disk := s.disk.(versionFile := Record(Some(version))))
    case OpenError => s'.(status := SaveFailed)
    case WriteError => s'.(disk := s.disk.(versionFile := Unreadable), status := SaveFailed)
  }

  /** `__init__` (lines 96-105): versions start at "0.0.0", only the check
      button is enabled, and the local version is loaded from disk. */
  function Startup(disk: Disk): (s: State)
    ensures s.disk == disk && s.log == [] && s.remote == DefaultVersion
    ensures s.buttons == Buttons(true, false, false)
    ensures s.local == (if disk.versionFile.Record? then disk.versionFile.version.GetOr(DefaultVersion) else DefaultVersion)
    ensures s.status == (if disk.versionFile.Unreadable? then LoadFailed else Ready)
  {
    LoadLocalVersion(State(DefaultVersion, DefaultVersion, disk, Buttons(true, false, false), Ready, []))
  }

  /* ---------------------------------------------------------------------
     The I/O steps
     --------------------------------------------------------------------- */

  /** `_download_archive` (lines 398-429). On success the archive is on
      disk; on failure whatever was written at the archive path is removed. */
  function DownloadArchive(s: State, d: DownloadResult): (t: State)
    ensures t.log == s.log + [Event(Download, d.Received?)]
    ensures d.Received? ==> t.disk.archive == Some(d.archive)
    ensures d.TransferError? ==> t.disk.archive.None?
    ensures t.disk.versionFile == s.disk.versionFile && t.disk.installed == s.disk.installed
    ensures t.local == s.local && t.remote == s.remote && t.buttons == s.buttons && t.status == s.status
  {
    match d
    case Received(a) => s.(disk := s.disk.(archive := Some(a)), log := s.log + [Event(Download, true)])
    case TransferError => s.(disk := s.disk.(archive := None), log := s.log + [Event(Download, false)])
  }

  /** Whether `_extract_archive` succeeds: the archive path must end in
      ".zip", the archive must be on disk, and every entry must extract. */
  predicate ExtractWorks(s: State, cfg: Config, e: ExtractResult) {
    EndsWith(cfg.archiveSavePath, ".zip") && s.disk.archive.Some? && e.Extracted?
  }

  /** `_extract_archive` (lines 431-460). The extraction directory is removed
      and re-created first, so on success it holds exactly the archive's
      entries; a failure leaves it partly populated (empty when the format
      check or opening the archive fails). The archive itself stays. */
  function ExtractArchive(s: State, cfg: Config, e: ExtractResult): (t: State)
    ensures t.log == s.log + [Event(Extract, ExtractWorks(s, cfg, e))]
    ensures ExtractWorks(s, cfg, e) ==> t.disk.installed == s.disk.archive.value.entries
    ensures !EndsWith(cfg.archiveSavePath, ".zip") || s.disk.archive.None? ==> t.disk.installed == {}
    ensures t.disk.archive == s.disk.archive && t.disk.versionFile == s.disk.versionFile
    ensures t.local == s.local && t.remote == s.remote && t.buttons == s.buttons && t.status == s.status
  {
    if !EndsWith(cfg.archiveSavePath, ".zip") || s.disk.archive.None? then
      s.(disk := s.disk.(installed := {}), log := s.log + [Event(Extract, false)])
    else
      match e
      case Extracted =>
        s.(disk := s.disk.(installed := s.disk.archive.value.entries), log := s.log + [Event(Extract, true)])
      case ExtractError(left) =>
        s.(disk := s.disk.(installed := left), log := s.log + [Event(Extract, false)])
  }

  /** Lines 270-271: remove the temporary archive if it exists. */
  function RemoveArchiveIfPresent(s: State): (t: State)
    ensures t.disk.archive.None?
    ensures t.log == s.log + (if s.disk.archive.Some? then [Event(RemoveArchive, true)] else [])
    ensures t.disk.versionFile == s.disk.versionFile && t.disk.installed == s.disk.installed
    ensures t.local == s.local && t.remote == s.remote && t.buttons == s.buttons && t.status == s.status
  {
    if s.disk.archive.Some? then
      s.(disk := s.disk.(archive := None), log := s.log + [Event(RemoveArchive, true)])
    else s
  }

  /** `_run_program` (lines 462-478): the launch is attempted, and fails
      when the program file is absent. */
  function RunProgram(s: State): (t: State)
    ensures t.log == s.log + [Event(Launch, ProgramEntry in s.disk.installed)]
    ensures t.status == (if ProgramEntry in s.disk.installed then ProgramStarted else LaunchFailed)
    ensures t.disk == s.disk && t.local == s.local && t.remote == s.remote && t.buttons == s.buttons
  {
    var present := ProgramEntry in s.disk.installed;
    s.(status := if present then ProgramStarted else LaunchFailed, log := s.log + [Event(Launch, present)])
  }

  /* ---------------------------------------------------------------------
     The update cycle
     --------------------------------------------------------------------- */

  /** The outcomes under which an update cycle runs to completion: the
      download succeeds, the digest matches when one is configured, and the
      archive extracts. */
  predicate Succeeds(cfg: Config, io: CycleIO) {
    && io.download.Received?
    && (!HashConfigured(cfg) || io.digest == Digest(cfg.expectedHash.value))
    && io.extract.Extracted?
    && EndsWith(cfg.archiveSavePath, ".zip")
  }

  /** `_perform_update` (lines 356-396), which `_perform_update_auto`
      (lines 231-271) repeats: download, check the digest when one is
      configured, extract, save the remote version, remove the archive. Each
      failure returns before the version is saved. */
  function PerformUpdate(s: State, cfg: Config, io: CycleIO): (c: Cycle)
    ensures |c.state.log| > |s.log| && c.state.log[..|s.log|] == s.log
    ensures c.state.log[|s.log|..] == CycleEvents(cfg, c.end, io.write.Written?)
    // which ending is reached
    ensures c.end.StoppedAtDownload? <==> io.download.TransferError?
    ensures c.end.StoppedAtHash? <==>
      io.download.Received? && HashConfigured(cfg) && io.digest.Digest? && io.digest.hex != cfg.expectedHash.value
    ensures c.end.CrashedAtHash? <==> io.download.Received? && HashConfigured(cfg) && io.digest.DigestError?
    ensures c.end.Completed? <==> Succeeds(cfg, io)
    // the local version advances only after a successful extraction
    ensures !c.end.Completed? ==> c.state.local == s.local && c.state.disk.versionFile == s.disk.versionFile
    ensures c.end.Completed? && io.write.Written? ==>
      c.state.local == s.remote && c.state.disk.versionFile == Record(Some(s.remote))
    ensures !io.write.Written? ==> c.state.local == s.local
    ensures c.end.Completed? && !io.write.Written? ==>
      c.state.disk.versionFile == (if io.write.OpenError? then s.disk.versionFile else Unreadable)
    // what is left on disk
    ensures c.end.Completed? ==> c.state.disk.installed == io.download.archive.entries
    ensures c.state.disk.archive.Some? <==> c.end.StoppedAtExtract? || c.end.CrashedAtHash?
    ensures c.end.StoppedAtDownload? || c.end.StoppedAtHash? || c.end.CrashedAtHash? ==>
      c.state.disk.installed == s.disk.installed
    ensures c.end.StoppedAtExtract? && !EndsWith(cfg.archiveSavePath, ".zip") ==> c.state.disk.installed == {}
    ensures c.end.StoppedAtExtract? && EndsWith(cfg.archiveSavePath, ".zip") && io.extract.ExtractError? ==>
      c.state.disk.installed == io.extract.left
    // buttons and status
    ensures c.state.remote == s.remote && !c.state.buttons.update
    ensures c.state.buttons.run == (s.buttons.run || c.end.Completed?)
    ensures c.state.buttons.check == (s.buttons.check || !c.end.CrashedAtHash?)
    ensures c.end.Completed? ==> c.state.status == UpdateComplete
  {
    var s0 := s.(buttons := s.buttons.(update := false));
    var s1 := DownloadArchive(s0, io.download);
    if io.download.TransferError? then
      Cycle(s1.(status := DownloadFailed, buttons := s1.buttons.(check := true)), StoppedAtDownload)
    else
      VerifyArchive(s1, cfg, io)
  }

  /** Lines 367-379: with a digest configured, a digest that cannot be
      computed ends the worker thread and a different digest removes the
      archive; either way extraction is never reached. */
  function VerifyArchive(s: State, cfg: Config, io: CycleIO): (c: Cycle)
    requires s.disk.archive.Some?
    ensures !c.end.StoppedAtDownload?
    ensures c.state.log == s.log + CycleEvents(cfg, c.end, io.write.Written?)[1..]
    ensures c.end.StoppedAtHash? <==> HashConfigured(cfg) && io.digest.Digest? && io.digest.hex != cfg.expectedHash.value
    ensures c.end.CrashedAtHash? <==> HashConfigured(cfg) && io.digest.DigestError?
    ensures c.end.Completed? <==> Succeeds(cfg, io.(download := Received(s.disk.archive.value)))
    ensures !c.end.Completed? ==> c.state.local == s.local && c.state.disk.versionFile == s.disk.versionFile
    ensures c.end.Completed? && io.write.Written? ==>
      c.state.local == s.remote && c.state.disk.versionFile == Record(Some(s.remote))
    ensures !io.write.Written? ==> c.state.local == s.local
    ensures c.end.Completed? && !io.write.Written? ==>
      c.state.disk.versionFile == (if io.write.OpenError? then s.disk.versionFile else Unreadable)
    ensures c.end.Completed? ==> c.state.disk.installed == s.disk.archive.value.entries
    ensures c.state.disk.archive.Some? <==> c.end.StoppedAtExtract? || c.end.CrashedAtHash?
    ensures c.end.StoppedAtHash? || c.end.CrashedAtHash? ==> c.state.disk.installed == s.disk.installed
    ensures c.end.StoppedAtExtract? && !EndsWith(cfg.archiveSavePath, ".zip") ==> c.state.disk.installed == {}
    ensures c.end.StoppedAtExtract? && EndsWith(cfg.archiveSavePath, ".zip") && io.extract.ExtractError? ==>
      c.state.disk.installed == io.extract.left
    ensures c.state.remote == s.remote && c.state.buttons.update == s.buttons.update
    ensures c.state.buttons.run == (s.buttons.run || c.end.Completed?)
    ensures c.state.buttons.check == (s.buttons.check || !c.end.CrashedAtHash?)
    ensures c.end.Completed? ==> c.state.status == UpdateComplete
  {
    if HashConfigured(cfg) then
      match io.digest
      case DigestError =>
        Cycle(s.(status := VerifyingIntegrity, log := s.log + [Event(HashCheck, false)]), CrashedAtHash)
      case Digest(hex) =>
        if hex != cfg.expectedHash.value then
          Cycle(s.(disk := s.disk.(archive := None), status := HashMismatch,
                   buttons := s.buttons.(check := true), log := s.log + [Event(HashCheck, false)]),
                StoppedAtHash)
        else
          Install(s.(log := s.log + [Event(HashCheck, true)]), cfg, io)
    else
      Install(s, cfg, io)
  }

  /** Lines 381-396: extract, and only on success save the version, enable
      the run button and remove the archive. */
  function Install(s: State, cfg: Config, io: CycleIO): (c: Cycle)
    requires s.disk.archive.Some?
    ensures c.end.Completed? || c.end.StoppedAtExtract?
    ensures c.end.Completed? <==> ExtractWorks(s, cfg, io.extract)
    ensures c.state.log == s.log + (if c.end.Completed? then
      [Event(Extract, true), Event(SaveVersion, io.write.Written?), Event(RemoveArchive, true)]
      else [Event(Extract, false)])
    ensures c.end.StoppedAtExtract? ==>
      c.state.local == s.local && c.state.disk.versionFile == s.disk.versionFile && c.state.disk.archive == s.disk.archive
    ensures c.end.Completed? ==> c.state.disk.installed == s.disk.archive.value.entries && c.state.disk.archive.None?
    ensures c.end.StoppedAtExtract? && !EndsWith(cfg.archiveSavePath, ".zip") ==> c.state.disk.installed == {}
    ensures c.end.StoppedAtExtract? && EndsWith(cfg.archiveSavePath, ".zip") && io.extract.ExtractError? ==>
      c.state.disk.installed == io.extract.left
    ensures c.end.Completed? && io.write.Written? ==>
      c.state.local == s.remote && c.state.disk.versionFile == Record(Some(s.remote))
    ensures !io.write.Written? ==> c.state.local == s.local
    ensures c.end.Completed? && !io.write.Written? ==>
      c.state.disk.versionFile == (if io.write.OpenError? then s.disk.versionFile else Unreadable)
    ensures c.state.remote == s.remote && c.state.buttons.check && c.state.buttons.update == s.buttons.update
    ensures c.state.buttons.run == (s.buttons.run || c.end.Completed?)
    ensures c.end.Completed? ==> c.state.status == UpdateComplete
  {
    var s1 := ExtractArchive(s, cfg, io.extract);
    if !ExtractWorks(s, cfg, io.extract) then
      Cycle(s1.(status := ExtractFailed, buttons := s1.buttons.(check := true)), StoppedAtExtract)
    else
      var s2 := SaveLocalVersion(s1, s1.remote, io.write);
      // the status set by a failed save is overwritten at once
      var s3 := s2.(status := UpdateComplete, buttons := s2.buttons.(run := true, check := true));
      Cycle(RemoveArchiveIfPresent(s3), Completed)
  }

  /** `_perform_update_auto` (lines 231-274): the same cycle, followed by a
      launch when it completed. */
  function PerformUpdateAuto(s: State, cfg: Config, io: CycleIO): (c: Cycle)
    ensures c.end == PerformUpdate(s, cfg, io).end
    ensures c.state.log == PerformUpdate(s, cfg, io).state.log
      + (if c.end.Completed? then [Event(Launch, ProgramEntry in io.download.archive.entries)] else [])
    ensures c.state.local == PerformUpdate(s, cfg, io).state.local
    ensures c.state.disk == PerformUpdate(s, cfg, io).state.disk
    ensures c.state.buttons == PerformUpdate(s, cfg, io).state.buttons
    ensures c.end.Completed? ==>
      c.state.status == (if ProgramEntry in io.download.archive.entries then ProgramStarted else LaunchFailed)
    // the program is launched exactly once when the cycle completes, and never otherwise
    ensures Launches(c.state.log[|s.log|..]) == (if c.end.Completed? then 1 else 0)
  {
    var c := PerformUpdate(s, cfg, io);
    if c.end.Completed? then
      var launch := [Event(Launch, ProgramEntry in io.download.archive.entries)];
      SliceOfAppend(c.state.log, |s.log|, launch);
      CycleThenLaunch(cfg, c.end, io.write.Written?, launch);
      Cycle(RunProgram(c.state), Completed)
    else
      CycleThenLaunch(cfg, c.end, io.write.Written?, []);
      assert CycleEvents(cfg, c.end, io.write.Written?) + [] == CycleEvents(cfg, c.end, io.write.Written?);
      c
  }

  /** Appending to a log appends to each of its suffixes. */
  lemma SliceOfAppend(log: seq<Event>, from: nat, tail: seq<Event>)
    requires from <= |log|
    ensures (log + tail)[from..] == log[from..] + tail
  {
  }

  /** A cycle's steps followed by at most one launch launch exactly as
      often as the launches appended. */
  lemma CycleThenLaunch(cfg: Config, end: Ending, written: bool, tail: seq<Event>)
    requires |tail| <= 1 && (|tail| == 1 ==> tail[0].step == Launch)
    ensures Launches(CycleEvents(cfg, end, written) + tail) == |tail|
  {
    var cycle := CycleEvents(cfg, end, written);
    LaunchesCount(cycle);
    LaunchesCount(tail);
    LaunchesAppend(cycle, tail);
  }

  /* ---------------------------------------------------------------------
     Checking for an update
     --------------------------------------------------------------------- */

  /** The remote version announced by a manifest reply ("0.0.0" when the
      "version" key is missing). */
  function Announced(m: ManifestReply): string
    requires m.Reply?
  {
    m.version.GetOr(DefaultVersion)
  }

  /** `_check_update` (lines 319-350), the manual check. It only records the
      remote version and sets the buttons: update enabled and run disabled
      exactly when the remote version is newer, the reverse otherwise, and
      the check button enabled again in every case. */
  function CheckUpdate(s: State, m: ManifestReply): (t: State)
    ensures t.buttons.check
    ensures t.local == s.local && t.disk == s.disk && t.log == s.log
    ensures m.Reply? ==> t.remote == Announced(m)
    ensures m.Reply? ==> (t.buttons.update <==> Versions.Newer(Announced(m), s.local))
    ensures m.Reply? ==> (t.buttons.run <==> !Versions.Newer(Announced(m), s.local))
    ensures m.Unreachable? ==>
      t.remote == s.remote && t.buttons.update == s.buttons.update && t.buttons.run == s.buttons.run
      && t.status == CheckFailed
  {
    match m
    case Unreachable => s.(status := CheckFailed, buttons := s.buttons.(check := true))
    case Reply(_) =>
      var remote := Announced(m);
      var r := Versions.Compare(remote, s.local);
      s.(remote := remote,
         status := if r > 0 then NewVersionFound else if r == 0 then UpToDate else LocalIsNewer,
         buttons := Buttons(true, r > 0, r <= 0))
  }

  /** The state in which `_check_update_auto` starts the update thread
      (lines 203-207): remote version recorded, update button enabled, and
      the check button already re-enabled by the `finally` clause. */
  function UpdateStarted(s: State, m: ManifestReply): State
    requires m.Reply?
  {
    s.(remote := Announced(m), status := NewVersionFound,
       buttons := s.buttons.(update := true, check := true))
  }

  /** `_check_update_auto` (lines 189-225), run once at startup. A newer
      remote version starts the update cycle (which launches the program
      when it completes); an equal or older one launches the program at
      once. A failed manifest request neither updates nor launches.

      The cycle runs on a worker thread in the source; it is modelled as
      running after the `finally` clause, which only re-enables the check
      button, so every interleaving ends in the same state. */
  function CheckUpdateAuto(s: State, cfg: Config, m: ManifestReply, io: CycleIO): (t: State)
    ensures t.buttons.check
    ensures |t.log| >= |s.log| && t.log[..|s.log|] == s.log
    ensures m.Unreachable? ==> t.log == s.log && t.local == s.local && t.disk == s.disk && t.status == CheckFailed
    ensures m.Reply? && !Versions.Newer(Announced(m), s.local) ==>
      && t.log == s.log + [Event(Launch, ProgramEntry in s.disk.installed)]
      && t.local == s.local && t.disk == s.disk && t.buttons.run && !t.buttons.update
    // the program is launched once, unless a newer version fails to install
    ensures m.Reply? ==>
      |t.log| >= |s.log| && Launches(t.log[|s.log|..]) == (if Versions.Newer(Announced(m), s.local) && !Succeeds(cfg, io) then 0 else 1)
    ensures m.Reply? && Versions.Newer(Announced(m), s.local) ==> UpdatedTo(s, cfg, Announced(m), io, t)
  {
    match m
    case Unreachable => s.(status := CheckFailed, buttons := s.buttons.(check := true))
    case Reply(_) =>
      if Versions.Compare(Announced(m), s.local) > 0 then
        UpdateThenLaunch(s, cfg, m, io)
      else
        var t := LaunchWithoutUpdate(s, m);
        assert t.log[|s.log|..] == [Event(Launch, ProgramEntry in s.disk.installed)];
        LaunchesCount(t.log[|s.log|..]);
        t
  }

  /** What the automatic check leaves behind once it has found the newer
      version `v` and run the update cycle for it, starting from `s`:
      the buttons end as (check, not update, run when it was or when the
      cycle completed); the remote version is `v`; the first new step is
      the download; the local version becomes `v` only when the cycle
      completes and the write succeeds; the version file then records `v`,
      stays as it was after a failed `open`, is unreadable after a write
      that failed past `open`, and is untouched by a cycle that did not
      complete; a completed cycle installs the archive's entries, removes
      the archive and ends with the one launch of the program, and any
      other cycle launches nothing. */
  predicate UpdatedTo(s: State, cfg: Config, v: string, io: CycleIO, t: State) {
    && t.buttons == Buttons(true, false, s.buttons.run || Succeeds(cfg, io))
    && t.remote == v
    && |t.log| > |s.log| && t.log[..|s.log|] == s.log
    && t.log[|s.log|] == Event(Download, io.download.Received?)
    && t.local == (if Succeeds(cfg, io) && io.write.Written? then v else s.local)
    && t.disk.versionFile == (if !Succeeds(cfg, io) then s.disk.versionFile else match io.write
         case Written => Record(Some(v))
         case OpenError => s.disk.versionFile
         case WriteError => Unreadable)
    && (Succeeds(cfg, io) ==>
          && t.disk.installed == io.download.archive.entries && t.disk.archive.None?
          && t.log[|t.log| - 1] == Event(Launch, ProgramEntry in io.download.archive.entries))
    && Launches(t.log[|s.log|..]) == (if Succeeds(cfg, io) then 1 else 0)
  }

  /** Lines 203-207 and the `finally` clause: the remote version is
      recorded and the update cycle of `_perform_update_auto` runs, followed
      by a launch when it completes. */
  function UpdateThenLaunch(s: State, cfg: Config, m: ManifestReply, io: CycleIO): (t: State)
    requires m.Reply?
    ensures UpdatedTo(s, cfg, Announced(m), io, t)
  {
    StartedCycleState(s, cfg, m, io);
    StartedCycleLog(s, cfg, m, io);
    StartedCycleLaunches(s, cfg, m, io);
    StartedCycleEndsWithLaunch(s, cfg, m, io);
    PerformUpdateAuto(UpdateStarted(s, m), cfg, io).state
  }

  /** The buttons, versions and files after the cycle started by the
      automatic check. */
  lemma StartedCycleState(s: State, cfg: Config, m: ManifestReply, io: CycleIO)
    requires m.Reply?
    ensures var t := PerformUpdateAuto(UpdateStarted(s, m), cfg, io).state;
      && t.buttons == Buttons(true, false, s.buttons.run || Succeeds(cfg, io))
      && t.local == (if Succeeds(cfg, io) && io.write.Written? then Announced(m) else s.local)
      && t.disk.versionFile == (if !Succeeds(cfg, io) then s.disk.versionFile else match io.write
           case Written => Record(Some(Announced(m)))
           case OpenError => s.disk.versionFile
           case WriteError => Unreadable)
      && (Succeeds(cfg, io) ==> t.disk.installed == io.download.archive.entries && t.disk.archive.None?)
  {
  }

  /** The steps taken by the cycle started by the automatic check. */
  lemma StartedCycleLog(s: State, cfg: Config, m: ManifestReply, io: CycleIO)
    requires m.Reply?
    ensures var t := PerformUpdateAuto(UpdateStarted(s, m), cfg, io).state;
      && t.remote == Announced(m)
      && |t.log| > |s.log| && t.log[..|s.log|] == s.log
      && t.log[|s.log|] == Event(Download, io.download.Received?)
  {
    var s0 := UpdateStarted(s, m);
    var c := PerformUpdate(s0, cfg, io);
    var t := PerformUpdateAuto(s0, cfg, io).state;
    assert c.state.log[|s.log|] == CycleEvents(cfg, c.end, io.write.Written?)[0];
    assert t.log[|s.log|] == c.state.log[|s.log|];
  }

  /** A completed cycle started by the automatic check ends with the launch
      of the program it installed. */
  lemma StartedCycleEndsWithLaunch(s: State, cfg: Config, m: ManifestReply, io: CycleIO)
    requires m.Reply?
    ensures var t := PerformUpdateAuto(UpdateStarted(s, m), cfg, io).state;
      Succeeds(cfg, io) ==>
        |t.log| > 0 && t.log[|t.log| - 1] == Event(Launch, ProgramEntry in io.download.archive.entries)
  {
  }

  /** The cycle started by the automatic check launches the program once
      when it completes, and not at all otherwise. */
  lemma StartedCycleLaunches(s: State, cfg: Config, m: ManifestReply, io: CycleIO)
    requires m.Reply?
    ensures var t := PerformUpdateAuto(UpdateStarted(s, m), cfg, io).state;
      |t.log| >= |s.log| && Launches(t.log[|s.log|..]) == (if Succeeds(cfg, io) then 1 else 0)
  {
  }

  /** Lines 208-219 and the `finally` clause: no newer version, so the
      update button is disabled, the run button enabled and the launch
      attempted; nothing on disk changes. */
  function LaunchWithoutUpdate(s: State, m: ManifestReply): (t: State)
    requires m.Reply?
    ensures t.log == s.log + [Event(Launch, ProgramEntry in s.disk.installed)]
    ensures t.local == s.local && t.remote == Announced(m) && t.disk == s.disk
    ensures t.buttons == Buttons(true, false, true)
  {
    var r := Versions.Compare(Announced(m), s.local);
    var s1 := s.(remote := Announced(m),
                 status := if r == 0 then UpToDate else LocalIsNewer,
                 buttons := s.buttons.(update := false, run := true));
    var s2 := RunProgram(s1);
    s2.(buttons := s2.buttons.(check := true))
  }
}
