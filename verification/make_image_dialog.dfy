/**
 * The "Make Image" workflow: back up a removable drive into an image file,
 * hash the image, and record the digests as the image's whole-disk
 * expectation (partition 0) in the digest log and the configuration store.
 * While the backup runs, a one-second poller watches the output file's size
 * to report progress and to warn about a missing or stalled file.
 * Each handler is a function from the dialog's state (and what the handler
 * observes) to the new state; the label shows the last notice posted.
 */
module MakeImageDialog {
  import opened Common
  import CW = CloneWorker
  import DM = DriveManager
  import HW = HashWorker
  import HC = HashConfig
  import HL = HashLog

  /** Seconds without an output file before the poller warns. */
  const MISSING_TICKS: nat := 8
  /** Consecutive polls with an unchanged size before the poller warns. */
  const STALL_TICKS: nat := 15
  const STEP_COUNT: nat := 3

  datatype StepState = Pending | StepRunning | StepDone | StepFailed

  /** The text classes the status label shows. */
  datatype Notice =
    | Ready
    | NoDriveSelected
    | NotRemovable(letter: string)
    | NoOutput
    | BackingUp
    | MissingOutput(seconds: nat)
    | Writing(pct: Option<int>)
    | Stalled(seconds: nat)
    | BackupComplete
    | StoppedByUser
    | BackupFailed
    | ComputingHash
    | HashFailed
    | SetupComplete
    | ConfigSaveFailed

  /** The image hash job: the whole output file, and the status its stop flag gives it. */
  datatype HashJob = HashJob(path: string, offset: nat, byteCount: int, status: HW.HashStatus)

  datatype Dialog = Dialog(
    open: bool,
    odinc: string,
    drives: seq<DM.DriveInfo>,
    backupFlags: seq<string>,
    outputPath: string,
    worker: Option<CW.Worker>,
    hasher: Option<HashJob>,
    polling: bool,
    ticks: nat,
    lastSize: int,
    stallTicks: nat,
    driveSize: int,
    progress: int,
    steps: seq<StepState>,
    busy: bool,
    notice: Notice)

  predicate Valid(d: Dialog) { |d.steps| == STEP_COUNT }

  /** The dialog as it opens: the drive list scanned once, the default backup flags, nothing running. */
  function NewDialog(odinc: string, drives: seq<DM.DriveInfo>): (d: Dialog)
    ensures Valid(d) && d.open && !d.polling && !d.busy
    ensures d.backupFlags == CW.DefaultBackupFlags
    ensures d.worker.None? && d.hasher.None? && d.lastSize == -1
  {
    Dialog(true, odinc, drives, CW.DefaultBackupFlags, "", None, None, false, 0, -1, 0, 0, 0,
           [Pending, Pending, Pending], false, Ready)
  }

  /** `_open_options`: a confirmed options dialog replaces the backup flags; a cancelled one changes nothing. */
  function SetOptions(d: Dialog, result: Option<seq<string>>): (e: Dialog)
    ensures result.None? ==> e == d
    ensures result.Some? ==> e == d.(backupFlags := result.value)
  {
    if result.Some? then d.(backupFlags := result.value) else d
  }

  // ----- starting the backup ---------------------------------------------------------

  /** Why `_start` refused, in the order it checks, or that it went ahead. */
  datatype StartCheck = BadIndex | NotRemovableDrive | MissingOutputPath | Accepted

  function CheckStart(d: Dialog, win: DM.Win32, idx: int, outputText: string): (c: StartCheck)
    ensures c == Accepted <==>
      0 <= idx < |d.drives| && DM.IsRemovable(win, d.drives[idx].firstLetter) && Strip(outputText) != ""
    ensures c == BadIndex <==> !(0 <= idx < |d.drives|)
  {
    if idx < 0 || idx >= |d.drives| then BadIndex
    else if !DM.IsRemovable(win, d.drives[idx].firstLetter) then NotRemovableDrive
    else if Strip(outputText) == "" then MissingOutputPath
    else Accepted
  }

  /**
   * `_start`: a refusal only posts its notice. Otherwise a backup worker is
   * started reading the whole physical disk into the stripped output path
   * with the chosen flags, steps reset with the first running, and the
   * poller armed from scratch.
   */
  function Start(d: Dialog, win: DM.Win32, idx: int, outputText: string): (e: Dialog)
    requires Valid(d)
    ensures Valid(e)
    ensures CheckStart(d, win, idx, outputText) != Accepted ==> e == d.(notice := e.notice)
    ensures CheckStart(d, win, idx, outputText) == BadIndex ==> e.notice == NoDriveSelected
    ensures CheckStart(d, win, idx, outputText) == NotRemovableDrive ==>
      e.notice == NotRemovable(d.drives[idx].firstLetter)
    ensures CheckStart(d, win, idx, outputText) == MissingOutputPath ==> e.notice == NoOutput
    ensures CheckStart(d, win, idx, outputText) == Accepted ==>
      e.outputPath == Strip(outputText) && e.driveSize == d.drives[idx].sizeBytes
      && e.polling && e.ticks == 0 && e.lastSize == -1 && e.stallTicks == 0
      && e.steps == [StepRunning, Pending, Pending] && e.busy && e.progress == 0
      && e.worker.Some? && e.worker.value.status == CW.Running
      && CW.Command(e.worker.value) ==
         [d.odinc, "-backup"] + d.backupFlags
         + ["-source=" + DM.TargetPath(d.drives[idx].diskNumber), "-target=" + Strip(outputText)]
  {
    match CheckStart(d, win, idx, outputText)
    case BadIndex => d.(notice := NoDriveSelected)
    case NotRemovableDrive => d.(notice := NotRemovable(d.drives[idx].firstLetter))
    case MissingOutputPath => d.(notice := NoOutput)
    case Accepted =>
      var drive := d.drives[idx];
      var output := Strip(outputText);
      var w := CW.NewWorker(d.odinc, output, DM.TargetPath(drive.diskNumber), CW.Backup, Some(d.backupFlags));
      d.(outputPath := output, driveSize := drive.sizeBytes, progress := 0, busy := true,
         steps := [StepRunning, Pending, Pending], notice := BackingUp,
         worker := Some(CW.Start(w).0),
         polling := true, ticks := 0, lastSize := -1, stallTicks := 0)
  }

  // ----- the file-size poller ---------------------------------------------------------

  /**
   * `_poll_backup_file`, one tick. `size` is what `getsize` returned, -1 when
   * it raised. Once the dialog is closed or the backup has ended the tick
   * does nothing and is not rescheduled; otherwise it is always rescheduled.
   */
  function Poll(d: Dialog, size: int): (r: (Dialog, bool))
    ensures r.1 <==> d.open && d.polling
    ensures !r.1 ==> r.0 == d
    ensures r.1 ==> r.0.ticks == d.ticks + 1
    ensures r.1 && size < 0 ==>
      r.0 == d.(ticks := d.ticks + 1, notice := r.0.notice)
      && (d.ticks + 1 >= MISSING_TICKS ==> r.0.notice == MissingOutput(d.ticks + 1))
      && (d.ticks + 1 < MISSING_TICKS ==> r.0.notice == d.notice)
    ensures r.1 && size >= 0 ==>
      r.0.lastSize == size
      && r.0.stallTicks == (if size == d.lastSize then d.stallTicks + 1 else 0)
      && (r.0.notice.Stalled? <==> r.0.stallTicks >= STALL_TICKS)
      && (d.driveSize > 0 ==> r.0.progress == HW.Pct(size, d.driveSize))
      && (d.driveSize <= 0 ==> r.0.progress == d.progress)
  {
    if !d.open || !d.polling then (d, false)
    else
      var t := d.ticks + 1;
      if size < 0 then
        (d.(ticks := t, notice := if t >= MISSING_TICKS then MissingOutput(t) else d.notice), true)
      else
        var stall := if size == d.lastSize then d.stallTicks + 1 else 0;
        var pct := if d.driveSize > 0 then Some(HW.Pct(size, d.driveSize)) else None;
        var e := d.(ticks := t, stallTicks := stall, lastSize := size,
                    progress := if pct.Some? then pct.value else d.progress,
                    notice := Writing(pct));
        (if stall >= STALL_TICKS then e.(notice := Stalled(stall)) else e, true)
  }

  /** Successive ticks observing the given sizes, stopping early if the poller is not rescheduled. */
  function PollAll(d: Dialog, sizes: seq<int>): Dialog
    decreases |sizes|
  {
    if |sizes| == 0 then d
    else
      var r := Poll(d, sizes[0]);
      if r.1 then PollAll(r.0, sizes[1..]) else r.0
  }

  /** Ticks only observe sizes; they never end the polling themselves. */
  lemma {:induction false} PollKeepsPolling(d: Dialog, sizes: seq<int>)
    requires d.open && d.polling
    ensures PollAll(d, sizes).polling && PollAll(d, sizes).open
    ensures PollAll(d, sizes).ticks == d.ticks + |sizes|
    decreases |sizes|
  {
    if |sizes| > 0 {
      PollKeepsPolling(Poll(d, sizes[0]).0, sizes[1..]);
    }
  }

  /**
   * A file that stops growing: after a first tick that sees a new size and
   * `k` more ticks that see the same size, the stall counter is `k`.
   */
  lemma {:induction false} StallCountsUnchangedTicks(d: Dialog, size: nat, k: nat)
    requires d.open && d.polling && d.lastSize != size
    ensures PollAll(d, seq(k + 1, _ => size as int)).stallTicks == k
    ensures PollAll(d, seq(k + 1, _ => size as int)).lastSize == size
    decreases k
  {
    var sizes := seq(k + 1, _ => size as int);
    if k == 0 {
      assert sizes[1..] == [];
    } else {
      var shorter := seq(k, _ => size as int);
      StallFrom(Poll(d, size).0, size, k);
      assert sizes[1..] == shorter;
    }
  }

  /** From a state that has already seen `size`, `k` more ticks of it add `k` to the stall counter. */
  lemma {:induction false} StallFrom(d: Dialog, size: nat, k: nat)
    requires d.open && d.polling && d.lastSize == size
    ensures PollAll(d, seq(k, _ => size as int)).stallTicks == d.stallTicks + k
    ensures PollAll(d, seq(k, _ => size as int)).lastSize == size
    decreases k
  {
    var sizes := seq(k, _ => size as int);
    if k > 0 {
      assert sizes[0] == size;
      assert sizes[1..] == seq(k - 1, _ => size as int);
      StallFrom(Poll(d, size).0, size, k - 1);
    }
  }

  /**
   * The stall warning: a size seen on a tick and then unchanged for 15 more
   * ticks is reported as stalled, and not before.
   */
  lemma StallWarningAfterFifteen(d: Dialog, size: nat, k: nat)
    requires d.open && d.polling && d.lastSize != size
    ensures PollAll(d, seq(k + 1, _ => size as int)).notice.Stalled? <==> k >= STALL_TICKS
  {
    var sizes := seq(k + 1, _ => size as int);
    StallCountsUnchangedTicks(d, size, k);
    LastTickNotice(d, sizes);
  }

  /** After at least one tick on an existing file, the label reflects the last tick's stall count. */
  lemma {:induction false} LastTickNotice(d: Dialog, sizes: seq<int>)
    requires d.open && d.polling && |sizes| > 0 && sizes[|sizes| - 1] >= 0
    ensures PollAll(d, sizes).notice.Stalled? <==> PollAll(d, sizes).stallTicks >= STALL_TICKS
    decreases |sizes|
  {
    var r := Poll(d, sizes[0]);
    if |sizes| > 1 {
      assert sizes[1..][|sizes[1..]| - 1] == sizes[|sizes| - 1];
      LastTickNotice(r.0, sizes[1..]);
    } else {
      assert sizes[1..] == [];
    }
  }

  /** While the backup runs, the shown progress grows with the file and stays below 100. */
  lemma PollProgressRises(d: Dialog, s1: nat, s2: nat)
    requires d.open && d.polling && d.driveSize > 0 && s1 <= s2
    ensures Poll(d, s1).0.progress <= Poll(Poll(d, s1).0, s2).0.progress <= 99
  {
    HW.PctMonotone(s1, s2, d.driveSize);
  }

  // ----- the backup outcome -------------------------------------------------------------

  function SetStep(steps: seq<StepState>, i: nat, s: StepState): (r: seq<StepState>)
    requires i < |steps|
    ensures |r| == |steps| && r[i] == s
    ensures forall j :: 0 <= j < |steps| && j != i ==> r[j] == steps[j]
  {
    steps[i := s]
  }

  /** The backup worker after its `_fire_done`: it holds the final status. */
  function Finished(w: Option<CW.Worker>, status: CW.CloneStatus): Option<CW.Worker>
  {
    if w.Some? then Some(w.value.(status := status)) else None
  }

  /**
   * The backup worker's `_fire_done` followed by `_on_backup_done`: the
   * worker takes its final status whether or not the dialog is open. In an
   * open dialog the poller stops; a finished backup marks step 1 done and
   * either starts hashing the whole image (automatic mode) or ends with the
   * bar full; a stopped or failed one marks step 1 failed and empties the bar.
   */
  function OnBackupDone(d: Dialog, status: CW.CloneStatus, auto: bool): (e: Dialog)
    requires Valid(d)
    ensures Valid(e)
    ensures d.worker.Some? ==> e.worker == Some(d.worker.value.(status := status))
    ensures d.worker.None? ==> e.worker.None?
    ensures !d.open ==> e == d.(worker := e.worker)
    ensures d.open ==> !e.polling
    ensures d.open && status == CW.Done ==>
      e.steps[0] == StepDone
      && (auto ==> e.steps[1] == StepRunning && e.progress == 0 && e.busy == d.busy
                   && e.hasher == Some(HashJob(d.outputPath, 0, -1, HW.Running)))
      && (!auto ==> e.progress == 100 && !e.busy && e.notice == BackupComplete && e.hasher == d.hasher)
    ensures d.open && status != CW.Done ==>
      e.steps[0] == StepFailed && e.progress == 0 && !e.busy && e.hasher == d.hasher
      && e.steps[1..] == d.steps[1..]
      && e.notice == (if status == CW.Stopped then StoppedByUser else BackupFailed)
  {
    var d0 := d.(worker := Finished(d.worker, status));
    if !d.open then d0
    else
      var e := d0.(polling := false);
      if status == CW.Done then
        var e1 := e.(steps := SetStep(e.steps, 0, StepDone));
        if auto then StartHash(e1)
        else e1.(progress := 100, notice := BackupComplete, busy := false)
      else
        e.(progress := 0, steps := SetStep(e.steps, 0, StepFailed), busy := false,
           notice := if status == CW.Stopped then StoppedByUser else BackupFailed)
  }

  /** A finished backup is not stopped again: Stop and Close leave its worker as it is and kill nothing. */
  lemma FinishedBackupIsLeftAlone(d: Dialog, status: CW.CloneStatus, auto: bool, processAlive: bool)
    requires Valid(d) && d.worker.Some?
    requires status in {CW.Done, CW.Failed, CW.Stopped}
    ensures var e := OnBackupDone(d, status, auto);
      e.worker.value.status == status
      && Stop(e, processAlive).0.worker == e.worker && !Stop(e, processAlive).1
      && Close(e, processAlive).0.worker == e.worker && !Close(e, processAlive).1
  {
  }

  /** `_start_hash`: a new hash job over the whole output file, step 2 running. */
  function StartHash(d: Dialog): (e: Dialog)
    requires Valid(d)
    ensures Valid(e)
    ensures e.hasher == Some(HashJob(d.outputPath, 0, -1, HW.Start(HW.Idle).0))
    ensures e.steps == d.steps[1 := StepRunning] && e.progress == 0 && e.notice == ComputingHash
  {
    d.(progress := 0, steps := SetStep(d.steps, 1, StepRunning), notice := ComputingHash,
       hasher := Some(HashJob(d.outputPath, 0, -1, HW.Start(HW.Idle).0)))
  }

  // ----- the hash outcome and the saved configuration --------------------------------------

  /** The whole-disk expectation the workflow saves: both digests, both enabled, both failing on mismatch. */
  function ImageCfg(sha256: string, sha1: string): (c: HC.PartitionCfg)
    ensures c.sha1Value == sha1 && c.sha256Value == sha256
    ensures c.sha1Enabled && c.sha1Fail && c.sha256Enabled && c.sha256Fail
  {
    HC.PartitionCfg(sha1, true, true, sha256, true, true)
  }

  datatype Stores = Stores(log: HL.Log, config: HC.Store)

  /**
   * How `_save_config` ends. Loading the log or the configuration file can
   * raise (a permission or decoding error), while writing errors are
   * swallowed; the log is loaded and saved before the configuration.
   */
  datatype SaveOutcome = Saved | LogLoadRaises | ConfigLoadRaises

  /**
   * `_on_hash_done` and `_save_config`: a finished hash marks step 2 done,
   * fills the bar, logs the digests with the time and saves them as
   * partition 0 of the image, marking step 3 done; when a load raises,
   * step 3 fails, the failure is reported and what was saved before the
   * raise stays saved. Any other hash outcome marks step 2 failed and
   * saves nothing.
   */
  function OnHashDone(d: Dialog, st: Stores, status: HW.HashStatus, sha256: string, sha1: string,
                      now: string, save: SaveOutcome): (r: (Dialog, Stores))
    requires Valid(d)
    ensures Valid(r.0)
    ensures !d.open ==> r == (d, st)
    ensures d.open ==> !r.0.busy
    ensures d.open && status == HW.Done ==>
      r.0.steps == [d.steps[0], StepDone, if save == Saved then StepDone else StepFailed]
      && r.0.progress == 100 && r.0.notice == (if save == Saved then SetupComplete else ConfigSaveFailed)
      && r.1.log == (if save == LogLoadRaises then st.log else HL.SaveEntry(st.log, d.outputPath, sha256, sha1, now))
      && r.1.config == (if save == Saved then HC.SavePartition(st.config, d.outputPath, 0, ImageCfg(sha256, sha1))
                        else st.config)
    ensures d.open && status != HW.Done ==>
      r.1 == st && r.0.steps == d.steps[1 := StepFailed] && r.0.notice == HashFailed
  {
    if !d.open then (d, st)
    else if status == HW.Done then
      var log := if save == LogLoadRaises then st.log else HL.SaveEntry(st.log, d.outputPath, sha256, sha1, now);
      var config := if save == Saved then HC.SavePartition(st.config, d.outputPath, 0, ImageCfg(sha256, sha1))
                    else st.config;
      var e := HashedDialog(d);
      (if save == Saved then e else e.(steps := SetStep(e.steps, 2, StepFailed), notice := ConfigSaveFailed),
       Stores(log, config))
    else
      (d.(steps := SetStep(d.steps, 1, StepFailed), notice := HashFailed, busy := false), st)
  }

  /** The dialog after a finished hash: steps 2 and 3 done, progress full, no longer busy. */
  function HashedDialog(d: Dialog): (e: Dialog)
    requires Valid(d)
    ensures Valid(e) && !e.busy
    ensures e.steps == [d.steps[0], StepDone, StepDone] && e.progress == 100 && e.notice == SetupComplete
  {
    var steps := SetStep(SetStep(d.steps, 1, StepDone), 2, StepDone);
    assert steps == [d.steps[0], StepDone, StepDone];
    d.(progress := 100, steps := steps, notice := SetupComplete, busy := false)
  }

  /**
   * After the workflow's save, the image has an enabled whole-disk
   * expectation, and both of its checks accept exactly the digests that were
   * just logged for it.
   */
  lemma SavedConfigAcceptsLoggedDigests(d: Dialog, st: Stores, sha256: string, sha1: string, now: string)
    requires Valid(d) && d.open
    requires sha256 != "" && sha1 != ""
    ensures var s := OnHashDone(d, st, HW.Done, sha256, sha1, now, Saved).1;
      HL.GetEntry(s.log, d.outputPath) == Some(HL.LogEntry(Basename(d.outputPath), sha256, sha1, Some(now)))
      && HC.GetPartition(s.config, d.outputPath, 0) == ImageCfg(sha256, sha1)
      && HC.HasAnyEnabled(s.config, d.outputPath)
      && 0 in HC.GetEnabledPartitions(s.config, d.outputPath)
  {
    var s := OnHashDone(d, st, HW.Done, sha256, sha1, now, Saved).1;
    HL.SaveThenGet(st.log, d.outputPath, sha256, sha1, now);
    HC.SaveThenGet(st.config, d.outputPath, 0, ImageCfg(sha256, sha1));
    assert 0 in HC.PartitionsOf(s.config, d.outputPath);
    assert HC.AnyEnabled(HC.PartitionsOf(s.config, d.outputPath)[0]);
  }

  /**
   * When loading the configuration raises, the log entry written just before
   * stays and reads back, the image's configuration is as it was, and the
   * dialog reports the failed save.
   */
  lemma FailedConfigSaveKeepsLog(d: Dialog, st: Stores, sha256: string, sha1: string, now: string)
    requires Valid(d) && d.open
    ensures var r := OnHashDone(d, st, HW.Done, sha256, sha1, now, ConfigLoadRaises);
      HL.GetEntry(r.1.log, d.outputPath) == Some(HL.LogEntry(Basename(d.outputPath), sha256, sha1, Some(now)))
      && HC.GetPartition(r.1.config, d.outputPath, 0) == HC.GetPartition(st.config, d.outputPath, 0)
      && r.0.steps[2] == StepFailed && r.0.notice == ConfigSaveFailed
  {
    HL.SaveThenGet(st.log, d.outputPath, sha256, sha1, now);
  }

  // ----- stopping and closing ------------------------------------------------------------

  /**
   * `_stop`: a running backup worker is stopped (the bool says whether its
   * process tree is killed) and any hash job gets its stop flag.
   */
  function Stop(d: Dialog, processAlive: bool): (r: (Dialog, bool))
    ensures r.0.worker.Some? && d.worker.Some? && d.worker.value.status == CW.Running ==>
      r.0.worker.value.status == CW.Stopped
    ensures r.1 <==> d.worker.Some? && d.worker.value.status == CW.Running && processAlive
    ensures d.worker.None? || d.worker.value.status != CW.Running ==> r.0.worker == d.worker
    ensures r.0.worker.Some? <==> d.worker.Some?
    ensures d.hasher.Some? ==> r.0.hasher == Some(d.hasher.value.(status := HW.Stopped))
    ensures d.hasher.None? ==> r.0.hasher.None?
    ensures r.0 == d.(worker := r.0.worker, hasher := r.0.hasher)
  {
    var (w, killed) :=
      if d.worker.Some? && d.worker.value.status == CW.Running then
        var s := CW.Stop(d.worker.value, processAlive); (Some(s.0), s.1)
      else (d.worker, false);
    var h := if d.hasher.Some? then Some(d.hasher.value.(status := HW.Stop(d.hasher.value.status))) else None;
    (d.(worker := w, hasher := h), killed)
  }

  /** `_on_close`: stops like the Stop button and closes; every later callback is ignored. */
  function Close(d: Dialog, processAlive: bool): (r: (Dialog, bool))
    ensures !r.0.open
    ensures r == (Stop(d, processAlive).0.(open := false), Stop(d, processAlive).1)
  {
    var s := Stop(d, processAlive);
    (s.0.(open := false), s.1)
  }

  /** Once closed, no poll or hash outcome changes the dialog or the stores, and a backup outcome only reaches its worker. */
  lemma ClosedDialogIgnoresCallbacks(d: Dialog, processAlive: bool, size: int, cs: CW.CloneStatus,
                                     auto: bool, st: Stores, hs: HW.HashStatus,
                                     sha256: string, sha1: string, now: string, save: SaveOutcome)
    requires Valid(d)
    ensures var c := Close(d, processAlive).0;
      Poll(c, size) == (c, false)
      && OnBackupDone(c, cs, auto) == c.(worker := Finished(c.worker, cs))
      && OnHashDone(c, st, hs, sha256, sha1, now, save) == (c, st)
  {
  }
}
