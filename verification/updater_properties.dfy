/** Properties of the update workflow that relate several operations: the
    version file round trip, what a sequence of button presses can do to the
    recorded version, and the behaviour of the source in a few concrete
    situations, including the ones where it does less than one might expect
    (no repair of a missing program, no retry after a failed save). */
module UpdaterProperties {
  import opened Wrappers
  import opened Strings
  import opened Updater
  import Versions

  /* ---------------------------------------------------------------------
     The version file round trip
     --------------------------------------------------------------------- */

  /** The version file is read only at startup, so what a save leaves
      behind shows at the next start. After a successful write that start
      reads the saved version. A failed `open` leaves the file as it was,
      so the start reads what it would have read before the save. A write
      that fails after `open` leaves a file that cannot be parsed, so the
      start reports a failure and falls back to "0.0.0", forgetting the
      version installed before. */
  lemma SaveThenLoad(s: State, version: string, w: WriteResult)
    ensures var r := Startup(SaveLocalVersion(s, version, w).disk);
      && (w.Written? ==> r.local == version && r.status == Ready)
      && (w.OpenError? ==> r == Startup(s.disk))
      && (w.WriteError? ==> r.local == DefaultVersion && r.status == LoadFailed)
  {
  }

  /** A save whose write fails is reported as a completed update all the
      same: the status set by the failed save is overwritten, so a cycle
      ends with the same status whatever the write did. Only the log and
      the local version tell the two apart. */
  lemma SaveFailureIsReportedAsComplete(s: State, cfg: Config, io: CycleIO)
    requires Succeeds(cfg, io) && !io.write.Written?
    ensures var failed := PerformUpdate(s, cfg, io).state;
      var saved := PerformUpdate(s, cfg, io.(write := Written)).state;
      && failed.status == saved.status == UpdateComplete
      && failed.buttons == saved.buttons
      && failed.local == s.local
      && Event(SaveVersion, false) in failed.log[|s.log|..]
  {
    var events := CycleEvents(cfg, Completed, false);
    assert events[|events| - 2] == Event(SaveVersion, false);
  }

  /* ---------------------------------------------------------------------
     Sequences of user actions
     --------------------------------------------------------------------- */

  /** What can happen to the updater after startup: the automatic check
      (once, at startup, in the source), the "check" button, the "update"
      button and the "run" button, each with the outcomes its I/O meets. */
  datatype Command =
    | AutoCheck(reply: ManifestReply, io: CycleIO)
    | ManualCheck(reply: ManifestReply)
    | ManualUpdate(io: CycleIO)
    | RunButton

  /** The version file is written only by a SaveVersion step. */
  ghost predicate Saves(events: seq<Event>) {
    exists i :: 0 <= i < |events| && events[i].step == SaveVersion
  }

  /** The button bindings of `_build_ui` (lines 169-182) and the
      startup check (line 108). Each command extends the log; the local
      version changes only through a successful SaveVersion step and the
      version file only through some SaveVersion step, and every such step
      comes straight after a successful extraction. */
  function Apply(s: State, cfg: Config, cmd: Command): (t: State)
    ensures |t.log| >= |s.log| && t.log[..|s.log|] == s.log
    ensures SavesFollowExtraction(t.log[|s.log|..])
    ensures t.local != s.local ==> Event(SaveVersion, true) in t.log[|s.log|..]
    ensures t.disk.versionFile != s.disk.versionFile ==> Saves(t.log[|s.log|..])
  {
    match cmd
    case AutoCheck(m, io) =>
      var t := CheckUpdateAuto(s, cfg, m, io);
      CheckUpdateAutoSteps(s, cfg, m, io);
      t
    case ManualCheck(m) => CheckUpdate(s, m)
    case ManualUpdate(io) =>
      var c := PerformUpdate(s, cfg, io);
      CycleSteps(s, cfg, io);
      c.state
    case RunButton =>
      var t := RunProgram(s);
      assert t.log[|s.log|..] == [Event(Launch, ProgramEntry in s.disk.installed)];
      t
  }

  /** The new steps of an update cycle: saves only after an extraction, and
      the version changes only together with a save. */
  lemma CycleSteps(s: State, cfg: Config, io: CycleIO)
    ensures var c := PerformUpdate(s, cfg, io);
      var events := c.state.log[|s.log|..];
      && SavesFollowExtraction(events)
      && (c.state.local != s.local ==> Event(SaveVersion, true) in events)
      && (c.state.disk.versionFile != s.disk.versionFile ==> Saves(events))
  {
    var c := PerformUpdate(s, cfg, io);
    CycleWrites(cfg, c.end, io.write.Written?);
  }

  /** A completed cycle writes the version file, successfully when the
      write succeeded, and every write follows a successful extraction. */
  lemma CycleWrites(cfg: Config, end: Ending, written: bool)
    ensures var events := CycleEvents(cfg, end, written);
      && SavesFollowExtraction(events)
      && (end.Completed? ==> Saves(events))
      && (end.Completed? && written ==> Event(SaveVersion, true) in events)
  {
    var events := CycleEvents(cfg, end, written);
    CycleEventsWellFormed(cfg, end, written);
    if end.Completed? {
      var k := if HashConfigured(cfg) then 3 else 2;
      assert events[k] == Event(SaveVersion, written);
    }
  }

  /** The new steps of `_perform_update_auto`: an update cycle, followed by
      a launch when it completes. */
  lemma AutoCycleSteps(s: State, cfg: Config, io: CycleIO)
    ensures var t := PerformUpdateAuto(s, cfg, io).state;
      var events := t.log[|s.log|..];
      && SavesFollowExtraction(events)
      && (t.local != s.local ==> Event(SaveVersion, true) in events)
      && (t.disk.versionFile != s.disk.versionFile ==> Saves(events))
  {
    var c := PerformUpdate(s, cfg, io);
    CycleSteps(s, cfg, io);
    var tail := if c.end.Completed? then [Event(Launch, ProgramEntry in io.download.archive.entries)] else [];
    AppendLaunch(c.state.log, |s.log|, tail);
  }

  /** Launch steps appended to a log add no write and keep every write
      where it was. */
  lemma AppendLaunch(log: seq<Event>, from: nat, tail: seq<Event>)
    requires from <= |log|
    requires forall i :: 0 <= i < |tail| ==> tail[i].step == Launch
    ensures var events := (log + tail)[from..];
      && (SavesFollowExtraction(log[from..]) ==> SavesFollowExtraction(events))
      && (Event(SaveVersion, true) in log[from..] ==> Event(SaveVersion, true) in events)
      && (Saves(log[from..]) ==> Saves(events))
  {
    var events := (log + tail)[from..];
    assert events == log[from..] + tail;
    if SavesFollowExtraction(log[from..]) {
      AppendKeepsSavesAfterExtraction(log[from..], tail);
    }
    if Saves(log[from..]) {
      var k :| 0 <= k < |log[from..]| && log[from..][k].step == SaveVersion;
      assert events[k] == log[from..][k];
    }
  }

  /** The new steps of the automatic check: the steps above, a launch
      alone, or nothing at all. */
  lemma CheckUpdateAutoSteps(s: State, cfg: Config, m: ManifestReply, io: CycleIO)
    ensures var t := CheckUpdateAuto(s, cfg, m, io);
      var events := t.log[|s.log|..];
      && SavesFollowExtraction(events)
      && (t.local != s.local ==> Event(SaveVersion, true) in events)
      && (t.disk.versionFile != s.disk.versionFile ==> Saves(events))
  {
    var t := CheckUpdateAuto(s, cfg, m, io);
    if m.Reply? {
      if Versions.Newer(Announced(m), s.local) {
        AutoCycleSteps(UpdateStarted(s, m), cfg, io);
      } else {
        assert t.log[|s.log|..] == [Event(Launch, ProgramEntry in s.disk.installed)];
      }
    } else {
      assert t.log[|s.log|..] == [];
    }
  }

  /** The state after the commands in order. */
  function Run(s: State, cfg: Config, cmds: seq<Command>): (t: State)
    ensures |t.log| >= |s.log| && t.log[..|s.log|] == s.log
    decreases |cmds|
  {
    if |cmds| == 0 then s else Run(Apply(s, cfg, cmds[0]), cfg, cmds[1..])
  }

  /** Appending steps that write only after an extraction to a log that
      writes only after an extraction keeps it so. */
  lemma AppendKeepsSavesAfterExtraction(log: seq<Event>, events: seq<Event>)
    requires SavesFollowExtraction(log) && SavesFollowExtraction(events)
    ensures SavesFollowExtraction(log + events)
  {
    var all := log + events;
    forall i | 0 <= i < |all| && all[i].step == SaveVersion
      ensures 0 < i && all[i - 1] == Event(Extract, true)
    {
      if i >= |log| {
        assert events[i - |log|] == all[i];
        if i - |log| > 0 {
          assert events[i - |log| - 1] == all[i - 1];
        }
      }
    }
  }

  /** The log holds, at or after position `from`, a version-file write
      (a successful one when `okOnly`) straight after a successful
      extraction. */
  ghost predicate WrittenAfterExtraction(log: seq<Event>, from: nat, okOnly: bool) {
    exists i :: from <= i < |log| && 0 < i && log[i].step == SaveVersion && (okOnly ==> log[i].ok)
                && log[i - 1] == Event(Extract, true)
  }

  /** A write among the new steps of a log that writes only after an
      extraction is such a write. */
  lemma WriteAmongNewSteps(log: seq<Event>, from: nat, okOnly: bool)
    requires from <= |log| && SavesFollowExtraction(log)
    requires exists k :: 0 <= k < |log[from..]| && log[from..][k].step == SaveVersion && (okOnly ==> log[from..][k].ok)
    ensures WrittenAfterExtraction(log, from, okOnly)
  {
    var k :| 0 <= k < |log[from..]| && log[from..][k].step == SaveVersion && (okOnly ==> log[from..][k].ok);
    var i := from + k;
    assert log[i] == log[from..][k];
    assert 0 < i && log[i - 1] == Event(Extract, true);
  }

  /** Such a write stays where it is when the log grows, and counts from
      any earlier position too. */
  lemma WriteKept(log: seq<Event>, longer: seq<Event>, from: nat, from': nat, okOnly: bool)
    requires |log| <= |longer| && longer[..|log|] == log
    requires from' <= from && WrittenAfterExtraction(log, from, okOnly)
    ensures WrittenAfterExtraction(longer, from', okOnly)
  {
    var i :| from <= i < |log| && 0 < i && log[i].step == SaveVersion && (okOnly ==> log[i].ok)
             && log[i - 1] == Event(Extract, true);
    assert longer[i] == log[i] && longer[i - 1] == log[i - 1];
  }

  /** One command keeps every write after an extraction, and a change of
      the local version or of the version file comes with such a write
      among its new steps. */
  lemma ApplyStep(s: State, cfg: Config, cmd: Command)
    requires SavesFollowExtraction(s.log)
    ensures var u := Apply(s, cfg, cmd);
      && SavesFollowExtraction(u.log)
      && (u.local != s.local ==> WrittenAfterExtraction(u.log, |s.log|, true))
      && (u.disk.versionFile != s.disk.versionFile ==> WrittenAfterExtraction(u.log, |s.log|, false))
  {
    var u := Apply(s, cfg, cmd);
    LogGrows(s.log, u.log, u.local != s.local, u.disk.versionFile != s.disk.versionFile);
  }

  /** A log that writes only after an extraction, extended by steps that
      do the same, still does; a successful (or any) write among the new
      steps is one that follows an extraction. */
  lemma LogGrows(log: seq<Event>, longer: seq<Event>, okWrite: bool, anyWrite: bool)
    requires SavesFollowExtraction(log)
    requires |longer| >= |log| && longer[..|log|] == log
    requires SavesFollowExtraction(longer[|log|..])
    requires okWrite ==> Event(SaveVersion, true) in longer[|log|..]
    requires anyWrite ==> Saves(longer[|log|..])
    ensures SavesFollowExtraction(longer)
    ensures okWrite ==> WrittenAfterExtraction(longer, |log|, true)
    ensures anyWrite ==> WrittenAfterExtraction(longer, |log|, false)
  {
    assert longer == log + longer[|log|..];
    AppendKeepsSavesAfterExtraction(log, longer[|log|..]);
    if okWrite {
      WriteAmongNewSteps(longer, |log|, true);
    }
    if anyWrite {
      WriteAmongNewSteps(longer, |log|, false);
    }
  }

  /** However the user drives the updater, the version file is written
      only straight after a successful extraction, and the local version
      moves only when such a write succeeds. A failed download, digest
      check or extraction can therefore never change either. */
  lemma {:induction false} VersionAdvancesOnlyAfterExtraction(s: State, cfg: Config, cmds: seq<Command>)
    requires SavesFollowExtraction(s.log)
    ensures var t := Run(s, cfg, cmds);
      && SavesFollowExtraction(t.log)
      && (t.local != s.local ==> WrittenAfterExtraction(t.log, |s.log|, true))
      && (t.disk.versionFile != s.disk.versionFile ==> WrittenAfterExtraction(t.log, |s.log|, false))
    decreases |cmds|
  {
    if |cmds| > 0 {
      var t := Run(s, cfg, cmds);
      var u := Apply(s, cfg, cmds[0]);
      assert t == Run(u, cfg, cmds[1..]);
      ApplyStep(s, cfg, cmds[0]);
      VersionAdvancesOnlyAfterExtraction(u, cfg, cmds[1..]);
      if t.local != s.local {
        if u.local != s.local {
          WriteKept(u.log, t.log, |s.log|, |s.log|, true);
        } else {
          WriteKept(t.log, t.log, |u.log|, |s.log|, true);
        }
      }
      if t.disk.versionFile != s.disk.versionFile {
        if u.disk.versionFile != s.disk.versionFile {
          WriteKept(u.log, t.log, |s.log|, |s.log|, false);
        } else {
          WriteKept(t.log, t.log, |u.log|, |s.log|, false);
        }
      }
    }
  }

  /* ---------------------------------------------------------------------
     Repeated checks
     --------------------------------------------------------------------- */

  /** The automatic check runs once per start (line 108), after the
      version file has been read. Once an update to `v` has completed and
      been saved, the next start reads `v`, and its check announcing `v`
      again downloads nothing: it only launches the program. */
  lemma RepeatedCheckDoesNotDownload(disk: Disk, cfg: Config, v: string, io: CycleIO, io2: CycleIO)
    requires Versions.Newer(v, Startup(disk).local)
    requires Succeeds(cfg, io) && io.write.Written?
    ensures var t := CheckUpdateAuto(Startup(disk), cfg, Reply(Some(v)), io);
      var r := Startup(t.disk);
      && t.local == v && r.local == v
      && CheckUpdateAuto(r, cfg, Reply(Some(v)), io2).log == [Event(Launch, ProgramEntry in t.disk.installed)]
  {
    var t := CheckUpdateAuto(Startup(disk), cfg, Reply(Some(v)), io);
    CompletedCheck(Startup(disk), cfg, v, io);
    var r := Startup(t.disk);
    assert r.local == v;
    Versions.CompareReflexive(v);
    assert !Versions.Newer(v, r.local);
  }

  /** An automatic check announcing a newer version whose cycle completes:
      the program is installed, and the version file is what the write
      left. */
  lemma CompletedCheck(s: State, cfg: Config, v: string, io: CycleIO)
    requires Versions.Newer(v, s.local) && Succeeds(cfg, io)
    ensures var t := CheckUpdateAuto(s, cfg, Reply(Some(v)), io);
      && t.local == (if io.write.Written? then v else s.local)
      && t.disk.installed == io.download.archive.entries
      && t.disk.versionFile == (match io.write
           case Written => Record(Some(v))
           case OpenError => s.disk.versionFile
           case WriteError => Unreadable)
  {
  }

  /** An automatic check announcing a newer version starts with the
      download, and installs that version when its cycle completes. */
  lemma NewerIsDownloaded(s: State, cfg: Config, v: string, io: CycleIO)
    requires s.log == [] && Versions.Newer(v, s.local)
    ensures var t := CheckUpdateAuto(s, cfg, Reply(Some(v)), io);
      && |t.log| > 0 && t.log[0] == Event(Download, io.download.Received?)
      && (Succeeds(cfg, io) ==> t.disk.installed == io.download.archive.entries)
      && (Succeeds(cfg, io) && io.write.Written? ==> t.local == v)
  {
  }

  /** A save that fails leaves the recorded version behind, so at the next
      start the same version is announced as newer and downloaded again.
      After a failed `open` the start reads the version read before the
      update; after a write that fails past `open` it reads "0.0.0". */
  lemma FailedSaveRepeatsDownload(disk: Disk, cfg: Config, v: string, io: CycleIO, io2: CycleIO)
    requires Versions.Newer(v, Startup(disk).local)
    requires Succeeds(cfg, io) && !io.write.Written?
    ensures var t := CheckUpdateAuto(Startup(disk), cfg, Reply(Some(v)), io);
      var r := Startup(t.disk);
      && t.local == Startup(disk).local
      && r.local == (if io.write.OpenError? then Startup(disk).local else DefaultVersion)
      && var t2 := CheckUpdateAuto(r, cfg, Reply(Some(v)), io2);
         |t2.log| > 0 && t2.log[0] == Event(Download, io2.download.Received?)
  {
    var s := Startup(disk);
    var t := CheckUpdateAuto(s, cfg, Reply(Some(v)), io);
    CompletedCheck(s, cfg, v, io);
    var r := Startup(t.disk);
    assert r.local == (if io.write.OpenError? then s.local else DefaultVersion);
    Versions.NewerThanZero(v, s.local);
    NewerIsDownloaded(r, cfg, v, io2);
  }

  /** A write that fails past `open` undoes the protection against
      downgrades. The update to `v` is installed, but the next start reads
      "0.0.0", so any older version announced then (newer than "0.0.0") is
      downloaded and installed over `v`. A manifest without a "version"
      key still only launches, since its "0.0.0" is not newer. */
  lemma FailedWriteAllowsDowngrade(disk: Disk, cfg: Config, v: string, older: string, io: CycleIO, io2: CycleIO)
    requires Versions.Newer(v, Startup(disk).local)
    requires Succeeds(cfg, io) && io.write.WriteError?
    requires Versions.Newer(v, older) && Versions.Newer(older, DefaultVersion)
    ensures var t := CheckUpdateAuto(Startup(disk), cfg, Reply(Some(v)), io);
      var r := Startup(t.disk);
      && t.disk.installed == io.download.archive.entries
      && r.local == DefaultVersion && r.status == LoadFailed
      && CheckUpdateAuto(r, cfg, Reply(None), io2).log == [Event(Launch, ProgramEntry in t.disk.installed)]
      && var t2 := CheckUpdateAuto(r, cfg, Reply(Some(older)), io2);
         && |t2.log| > 0 && t2.log[0] == Event(Download, io2.download.Received?)
         && (Succeeds(cfg, io2) ==> t2.disk.installed == io2.download.archive.entries)
         && (Succeeds(cfg, io2) && io2.write.Written? ==> t2.local == older)
  {
    var t := CheckUpdateAuto(Startup(disk), cfg, Reply(Some(v)), io);
    CompletedCheck(Startup(disk), cfg, v, io);
    var r := Startup(t.disk);
    assert r.local == DefaultVersion;
    NewerIsDownloaded(r, cfg, older, io2);
    Versions.CompareReflexive(DefaultVersion);
  }

  /** The program is never repaired: when the announced version is not
      newer, a missing program is not downloaded again and the launch
      fails. */
  lemma MissingProgramIsNotRepaired(s: State, cfg: Config, m: ManifestReply, io: CycleIO)
    requires m.Reply? && !Versions.Newer(Announced(m), s.local)
    requires ProgramEntry !in s.disk.installed
    ensures var t := CheckUpdateAuto(s, cfg, m, io);
      t.log == s.log + [Event(Launch, false)] && t.disk == s.disk
  {
  }

  /** A failed extraction has already emptied the extraction directory, but
      the version record keeps the version installed before; the program is
      then missing while the record claims it is present, and an automatic
      check announcing that same version does not repair it. */
  lemma FailedExtractionLeavesStaleRecord(s: State, cfg: Config, io: CycleIO, io2: CycleIO)
    requires s.disk.versionFile == Record(Some(s.local))
    requires io.download.Received? && io.digest == Digest(cfg.expectedHash.GetOr(""))
    requires EndsWith(cfg.archiveSavePath, ".zip")
    requires io.extract.ExtractError? && ProgramEntry !in io.extract.left
    ensures var t := PerformUpdate(s, cfg, io).state;
      && t.disk.versionFile == Record(Some(s.local))
      && ProgramEntry !in t.disk.installed
      && CheckUpdateAuto(Startup(t.disk), cfg, Reply(Some(s.local)), io2).log == [Event(Launch, false)]
  {
    Versions.CompareReflexive(s.local);
  }

  /* ---------------------------------------------------------------------
     Scenarios
     --------------------------------------------------------------------- */

  /** An automatic check that finds a newer version and meets no failure
      (no digest configured, archive path ending in ".zip", nothing
      downloaded yet): the archive is downloaded and extracted, the version
      recorded, the archive removed and the program launched once. */
  lemma CleanAutoUpdate(s: State, cfg: Config, m: ManifestReply, io: CycleIO)
    requires m.Reply? && Versions.Newer(Announced(m), s.local)
    requires !HashConfigured(cfg) && Succeeds(cfg, io) && io.write.Written?
    ensures var t := CheckUpdateAuto(s, cfg, m, io);
      && t.local == Announced(m)
      && t.disk == Disk(Record(Some(Announced(m))), None, io.download.archive.entries)
      && t.log == s.log + [Event(Download, true), Event(Extract, true), Event(SaveVersion, true),
                           Event(RemoveArchive, true), Event(Launch, ProgramEntry in io.download.archive.entries)]
      && t.status == (if ProgramEntry in io.download.archive.entries then ProgramStarted else LaunchFailed)
  {
    CleanLaunch(UpdateStarted(s, m), cfg, io);
  }

  /** The update cycle of the clean automatic update above, with its launch. */
  lemma CleanLaunch(s: State, cfg: Config, io: CycleIO)
    requires !HashConfigured(cfg) && Succeeds(cfg, io) && io.write.Written?
    ensures var t := PerformUpdateAuto(s, cfg, io).state;
      && t.local == s.remote
      && t.disk == Disk(Record(Some(s.remote)), None, io.download.archive.entries)
      && t.log == s.log + [Event(Download, true), Event(Extract, true), Event(SaveVersion, true),
                           Event(RemoveArchive, true), Event(Launch, ProgramEntry in io.download.archive.entries)]
      && t.status == (if ProgramEntry in io.download.archive.entries then ProgramStarted else LaunchFailed)
  {
    CleanCycle(s, cfg, io);
  }

  /** The update cycle of the clean automatic update above. */
  lemma CleanCycle(s: State, cfg: Config, io: CycleIO)
    requires !HashConfigured(cfg) && Succeeds(cfg, io) && io.write.Written?
    ensures var c := PerformUpdate(s, cfg, io);
      && c.end.Completed?
      && c.state.local == s.remote
      && c.state.disk == Disk(Record(Some(s.remote)), None, io.download.archive.entries)
      && c.state.log == s.log + [Event(Download, true), Event(Extract, true), Event(SaveVersion, true),
                                 Event(RemoveArchive, true)]
  {
    var c := PerformUpdate(s, cfg, io);
    assert c.state.log == s.log + CycleEvents(cfg, Completed, true);
  }

  /** A program at "1.0.0", a manifest announcing "1.1.0" and every I/O
      step succeeding: the automatic check downloads, extracts, records
      "1.1.0", removes the archive and launches the program once. */
  lemma UpgradeScenario(baseDir: string)
    ensures var s := Startup(Disk(Record(Some("1.0.0")), None, {}));
      var io := CycleIO(Received(Archive({ProgramEntry})), DigestError, Extracted, Written);
      var t := CheckUpdateAuto(s, DefaultConfig(baseDir), Reply(Some("1.1.0")), io);
      && t.local == "1.1.0"
      && t.disk == Disk(Record(Some("1.1.0")), None, {ProgramEntry})
      && t.log == [Event(Download, true), Event(Extract, true), Event(SaveVersion, true),
                   Event(RemoveArchive, true), Event(Launch, true)]
      && t.status == ProgramStarted
  {
    var s := Startup(Disk(Record(Some("1.0.0")), None, {}));
    var io := CycleIO(Received(Archive({ProgramEntry})), DigestError, Extracted, Written);
    Versions.MinorReleaseIsNewer();
    CleanAutoUpdate(s, DefaultConfig(baseDir), Reply(Some("1.1.0")), io);
  }

  /** A program at "2.0.0" and a manifest announcing "1.5.0": nothing is
      downloaded and the program is launched as it is. */
  lemma DowngradeIsNotInstalled(installed: set<string>, cfg: Config, io: CycleIO)
    ensures var s := Startup(Disk(Record(Some("2.0.0")), None, installed));
      var t := CheckUpdateAuto(s, cfg, Reply(Some("1.5.0")), io);
      && t.local == "2.0.0"
      && t.disk == s.disk
      && t.log == [Event(Launch, ProgramEntry in installed)]
      && t.status == (if ProgramEntry in installed then ProgramStarted else LaunchFailed)
  {
    Versions.OlderMajorIsOlder();
  }

  /** A manifest that cannot be fetched neither updates nor launches. */
  lemma UnreachableManifestDoesNothing(disk: Disk, cfg: Config, io: CycleIO)
    ensures var s := Startup(disk);
      var t := CheckUpdateAuto(s, cfg, Unreachable, io);
      && t.log == [] && t.disk == disk && t.local == s.local && t.status == CheckFailed
  {
  }
}
