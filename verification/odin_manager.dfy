/**
 * The native imager's operation manager: which worker threads and buffer
 * queues a copy sets up, how their handles are listed and compacted while
 * waiting, which error message is reported, and which byte counts feed the
 * progress line. Threads, streams and queues are represented by what these
 * decisions read from them.
 */
module OdinManager {
  import opened Common

  const DO_COPY_BUFFER_COUNT: nat := 8
  const DEFAULT_READ_BLOCK_SIZE: nat := 1048576

  datatype CompressionFormat = NoCompression | GZip | BZip2 | LZ4 | LZ4HC | ZSTD

  /** The persisted options (section `Options` of the settings file). */
  datatype Options = Options(
    compressionMode: CompressionFormat,
    saveAllBlocks: bool,
    splitFiles: bool,
    splitFileSize: nat,
    readBlockSize: nat,
    takeVSSSnapshot: bool)

  /** The option defaults the constructor registers. */
  function DefaultOptions(): (o: Options)
    ensures o.compressionMode == NoCompression && !o.saveAllBlocks && !o.splitFiles
    ensures o.splitFileSize == 0 && o.readBlockSize == DEFAULT_READ_BLOCK_SIZE && !o.takeVSSSnapshot
  {
    Options(NoCompression, false, false, 0, DEFAULT_READ_BLOCK_SIZE, false)
  }

  /** A worker thread: its handle, error flag and message (None for NULL), bytes done, cancel request. */
  datatype Worker = Worker(handle: nat, errorFlag: bool, errorMessage: Option<string>, bytesProcessed: nat, cancelled: bool)

  /** An image stream as the byte totals see it. */
  datatype Stream = Stream(size: nat, allocatedBytes: nat)

  datatype Manager = Manager(
    options: Options,
    readThread: Option<Worker>,
    writeThread: Option<Worker>,
    compThread: Option<Worker>,
    source: Option<Stream>,
    target: Option<Stream>,
    readerQueues: bool,
    compQueues: bool,
    splitCallback: bool,
    isSaving: bool,
    isRestoring: bool,
    vss: bool,
    multiVolumeMode: bool,
    multiVolumeIndex: nat,
    wasCancelled: bool)

  /** Nothing of an operation is left: no threads, streams, queues, snapshot or volume list. */
  predicate Idle(m: Manager)
  {
    m.readThread.None? && m.writeThread.None? && m.compThread.None? &&
    m.source.None? && m.target.None? && !m.readerQueues && !m.compQueues && !m.splitCallback &&
    !m.isSaving && !m.isRestoring && !m.vss && !m.multiVolumeMode && m.multiVolumeIndex == 0
  }

  /** The per-operation parts `Reset` releases in every mode. */
  function ReleaseOperation(m: Manager): (r: Manager)
    ensures r.readThread.None? && r.writeThread.None? && r.compThread.None?
    ensures r.source.None? && r.target.None? && !r.readerQueues && !r.compQueues && !r.splitCallback
    ensures r.options == m.options && r.vss == m.vss && r.multiVolumeMode == m.multiVolumeMode
    ensures r.multiVolumeIndex == m.multiVolumeIndex && r.isSaving == m.isSaving && r.isRestoring == m.isRestoring
  {
    m.(readThread := None, writeThread := None, compThread := None, source := None, target := None,
       readerQueues := false, compQueues := false, splitCallback := false)
  }

  /**
   * `Init`: everything released, multi-volume mode off; the snapshot option
   * is switched off on a platform without VSS.
   */
  function Init(m: Manager, vssSupported: bool): (r: Manager)
    ensures Idle(r)
    ensures r.options == m.options.(takeVSSSnapshot := r.options.takeVSSSnapshot)
    ensures r.options.takeVSSSnapshot <==> m.options.takeVSSSnapshot && vssSupported
    ensures r.wasCancelled == m.wasCancelled
  {
    ReleaseOperation(m).(isSaving := false, isRestoring := false, vss := false, multiVolumeMode := false,
      multiVolumeIndex := 0,
      options := m.options.(takeVSSSnapshot := m.options.takeVSSSnapshot && vssSupported))
  }

  /** The manager the constructor builds from the stored options. */
  function NewManager(stored: Options, vssSupported: bool): (m: Manager)
    ensures Idle(m) && !m.wasCancelled
    ensures m.options.takeVSSSnapshot ==> vssSupported
  {
    Init(Manager(stored, None, None, None, None, None, false, false, false, false, false, false, false, 0, false),
         vssSupported)
  }

  /**
   * `Reset`: in multi-volume mode only the operation and the saving and
   * restoring flags go (the snapshot stays for the next volume); otherwise
   * the snapshot is dropped and the manager re-initialised.
   */
  function Reset(m: Manager, vssSupported: bool): (r: Manager)
    ensures m.multiVolumeMode ==> r == ReleaseOperation(m).(isSaving := false, isRestoring := false)
    ensures !m.multiVolumeMode ==> r == Init(m, vssSupported)
  {
    var released := ReleaseOperation(m);
    if m.multiVolumeMode then released.(isSaving := false, isRestoring := false)
    else Init(released.(vss := false), vssSupported)
  }

  /** `Terminate`: outside multi-volume mode the snapshot is released before the reset. */
  function Terminate(m: Manager, vssSupported: bool): Manager
  {
    Reset(m.(vss := m.vss && m.multiVolumeMode), vssSupported)
  }

  /** After a reset no thread is left, nothing is being saved or restored, and a second reset changes nothing. */
  lemma ResetQuiesces(m: Manager, vssSupported: bool)
    ensures var r := Reset(m, vssSupported);
      ThreadCount(r) == 0 && !r.isSaving && !r.isRestoring &&
      r.multiVolumeMode == m.multiVolumeMode && (r.vss <==> m.vss && m.multiVolumeMode) &&
      Reset(r, vssSupported) == r
  {
  }

  /** Terminating a single-volume operation leaves the manager idle; a multi-volume one keeps its snapshot and index. */
  lemma TerminateLeavesIdle(m: Manager, vssSupported: bool)
    ensures !m.multiVolumeMode ==> Idle(Terminate(m, vssSupported))
    ensures m.multiVolumeMode ==>
      Terminate(m, vssSupported).vss == m.vss && Terminate(m, vssSupported).multiVolumeIndex == m.multiVolumeIndex
    ensures GetTotalBytesToProcess(Terminate(m, vssSupported)) == Some(0)
    ensures GetBytesProcessed(Terminate(m, vssSupported)) == 0 && !WasError(Terminate(m, vssSupported))
  {
  }

  // ----- cancelling -----------------------------------------------------------------------

  function CancelWorker(w: Option<Worker>): (r: Option<Worker>)
    ensures r.Some? <==> w.Some?
    ensures r.Some? ==> r.value == w.value.(cancelled := true)
  {
    if w.Some? then Some(w.value.(cancelled := true)) else None
  }

  /** `CancelOperation`: records the cancel and asks every existing thread to stop. */
  function CancelOperation(m: Manager): (r: Manager)
    ensures r.wasCancelled
    ensures ThreadCount(r) == ThreadCount(m) && Handles(r) == Handles(m)
    ensures forall w :: w in {r.readThread, r.writeThread, r.compThread} && w.Some? ==> w.value.cancelled
    ensures r == m.(wasCancelled := true, readThread := r.readThread, writeThread := r.writeThread,
                    compThread := r.compThread)
  {
    m.(wasCancelled := true, readThread := CancelWorker(m.readThread),
       writeThread := CancelWorker(m.writeThread), compThread := CancelWorker(m.compThread))
  }

  // ----- thread handles -------------------------------------------------------------------

  /** `GetThreadCount`: two for a reader and writer pair, one more for a (de)compressor. */
  function ThreadCount(m: Manager): (n: nat)
    ensures n <= 3
    ensures n == |Handles(m)| <==> (m.readThread.Some? <==> m.writeThread.Some?)
  {
    (if m.readThread.Some? && m.writeThread.Some? then 2 else 0) + (if m.compThread.Some? then 1 else 0)
  }

  function HandleOf(w: Option<Worker>): seq<nat>
  {
    if w.Some? then [w.value.handle] else []
  }

  /** The handles of the existing threads in reader, writer, (de)compressor order. */
  function Handles(m: Manager): (hs: seq<nat>)
    ensures |hs| == |HandleOf(m.readThread)| + |HandleOf(m.writeThread)| + |HandleOf(m.compThread)|
  {
    HandleOf(m.readThread) + HandleOf(m.writeThread) + HandleOf(m.compThread)
  }

  /**
   * What `GetThreadHandles` does to a buffer of `size` slots: refuses a
   * buffer shorter than the thread count, writes past the end when a
   * reader or writer exists without its partner (the count then leaves it
   * out), and otherwise fills the handles in order followed by zeros.
   */
  datatype HandlesOutcome = TooSmall | Overrun | Filled(handles: seq<nat>)

  function GetThreadHandles(m: Manager, size: nat): (r: HandlesOutcome)
    ensures r == TooSmall <==> size < ThreadCount(m)
    ensures r == Overrun <==> ThreadCount(m) <= size < |Handles(m)|
    ensures r.Filled? ==> |r.handles| == size && r.handles[..|Handles(m)|] == Handles(m)
    ensures r.Filled? ==> forall i :: |Handles(m)| <= i < size ==> r.handles[i] == 0
  {
    if size < ThreadCount(m) then TooSmall
    else if size < |Handles(m)| then Overrun
    else Filled(Handles(m) + seq(size - |Handles(m)|, _ => 0))
  }

  /** Threads come in reader and writer pairs in every state a copy builds (see `DoCopyStarts`). */
  predicate PairedThreads(m: Manager)
  {
    m.readThread.Some? <==> m.writeThread.Some?
  }

  /** With paired threads a buffer of exactly the thread count is filled with every handle. */
  lemma PairedHandlesFit(m: Manager)
    requires PairedThreads(m)
    ensures GetThreadHandles(m, ThreadCount(m)) == Filled(Handles(m))
  {
    assert Handles(m) + seq(0, _ => 0) == Handles(m);
  }

  /** A lone reader with a compressor: the count is 1 but two handles are written. */
  lemma LoneReaderOverruns(w: Worker, c: Worker)
    ensures var m := NewManager(DefaultOptions(), false).(readThread := Some(w), compThread := Some(c));
      ThreadCount(m) == 1 && GetThreadHandles(m, 1) == Overrun
  {
  }

  /**
   * The wait loop's compaction after the handle at `signalled` fires and
   * the live count has dropped to `live`: the first `live` slots hold the
   * others in their old order, and the slots after them are untouched.
   */
  method CompactHandles(handles: seq<nat>, signalled: nat, live: nat) returns (r: seq<nat>)
    requires signalled <= live && live < |handles|
    ensures |r| == |handles|
    ensures r[..live] == handles[..signalled] + handles[signalled + 1..live + 1]
    ensures r[live..] == handles[live..]
  {
    r := handles;
    var i := signalled;
    while i < live
      invariant signalled <= i <= live
      invariant |r| == |handles|
      invariant r[..signalled] == handles[..signalled]
      invariant forall k :: signalled <= k < i ==> r[k] == handles[k + 1]
      invariant r[i..] == handles[i..]
    {
      r := r[i := r[i + 1]];
      i := i + 1;
    }
    assert r[..live] == handles[..signalled] + handles[signalled + 1..live + 1] by {
      forall k | 0 <= k < live
        ensures r[..live][k] == (handles[..signalled] + handles[signalled + 1..live + 1])[k]
      {
      }
    }
  }

  /** Compaction drops exactly the signalled handle from the live ones. */
  lemma CompactionDropsSignalled(handles: seq<nat>, signalled: nat, live: nat, r: seq<nat>)
    requires signalled <= live && live < |handles| && live <= |r|
    requires r[..live] == handles[..signalled] + handles[signalled + 1..live + 1]
    ensures multiset(r[..live]) + multiset{handles[signalled]} == multiset(handles[..live + 1])
  {
    assert handles[..live + 1] == handles[..signalled] + [handles[signalled]] + handles[signalled + 1..live + 1];
  }

  // ----- errors -------------------------------------------------------------------------

  predicate Flagged(w: Option<Worker>)
  {
    w.Some? && w.value.errorFlag
  }

  /** The message a thread contributes: its own when its flag is set. */
  function MessageOf(w: Option<Worker>): (msg: Option<string>)
    ensures msg.Some? ==> Flagged(w) && msg == w.value.errorMessage
    ensures Flagged(w) && w.value.errorMessage.Some? ==> msg == w.value.errorMessage
  {
    if Flagged(w) then w.value.errorMessage else None
  }

  /** `WasError`: some thread has its error flag set. */
  predicate WasError(m: Manager)
  {
    Flagged(m.readThread) || Flagged(m.writeThread) || Flagged(m.compThread)
  }

  /**
   * `GetErrorMessage`: the message of the first flagged thread that has one,
   * in reader, writer, (de)compressor order; a flagged thread without a
   * message passes the turn on.
   */
  function GetErrorMessage(m: Manager): (msg: Option<string>)
    ensures MessageOf(m.readThread).Some? ==> msg == MessageOf(m.readThread)
    ensures MessageOf(m.readThread).None? && MessageOf(m.writeThread).Some? ==> msg == MessageOf(m.writeThread)
    ensures MessageOf(m.readThread).None? && MessageOf(m.writeThread).None? ==> msg == MessageOf(m.compThread)
  {
    if MessageOf(m.readThread).Some? then MessageOf(m.readThread)
    else if MessageOf(m.writeThread).Some? then MessageOf(m.writeThread)
    else MessageOf(m.compThread)
  }

  /**
   * A message is reported only after an error, and an error goes without a
   * message exactly when every flagged thread lacks one.
   */
  lemma ErrorMessageMeansError(m: Manager)
    ensures GetErrorMessage(m).Some? ==> WasError(m)
    ensures GetErrorMessage(m).None? <==>
      (forall w :: w in [m.readThread, m.writeThread, m.compThread] && Flagged(w) ==> w.value.errorMessage.None?)
  {
    var ws := [m.readThread, m.writeThread, m.compThread];
    if GetErrorMessage(m).None? {
      forall w | w in ws && Flagged(w) ensures w.value.errorMessage.None? {
        assert w == ws[0] || w == ws[1] || w == ws[2];
      }
    }
  }

  /** When every thread that fails leaves a message, reporting a message and having failed coincide. */
  lemma MessageIffError(m: Manager)
    requires forall w :: w in [m.readThread, m.writeThread, m.compThread] && Flagged(w) ==> w.value.errorMessage.Some?
    ensures GetErrorMessage(m).Some? <==> WasError(m)
  {
    var ws := [m.readThread, m.writeThread, m.compThread];
    assert ws[0] in ws && ws[1] in ws && ws[2] in ws;
  }

  // ----- progress totals ----------------------------------------------------------------

  /** A stream's used bytes: its allocated bytes, or its size when none are known (raw disks). */
  function UsedBytes(s: Stream): (n: nat)
    ensures n == s.allocatedBytes || (s.allocatedBytes == 0 && n == s.size)
    ensures s.allocatedBytes <= s.size ==> n <= s.size
    ensures n == 0 ==> s.size == 0 && s.allocatedBytes == 0
  {
    if s.allocatedBytes == 0 then s.size else s.allocatedBytes
  }

  /**
   * `GetTotalBytesToProcess`. Saving and verifying count the source
   * (its size when all blocks are saved, else its used bytes), restoring
   * counts the target's size or the image's used bytes, and an idle manager
   * counts 0. None stands for the restore branch reading a missing source.
   */
  function GetTotalBytesToProcess(m: Manager): (total: Option<nat>)
    ensures !m.isSaving && !m.isRestoring ==> total == Some(0)
    ensures total.None? <==> !m.isSaving && m.isRestoring && m.target.Some? && !m.options.saveAllBlocks && m.source.None?
    ensures (m.isSaving || m.isRestoring) && m.source.Some? && m.source.value.allocatedBytes <= m.source.value.size &&
      (m.target.Some? && m.isRestoring && !m.isSaving && m.options.saveAllBlocks ==> m.target.value.size <= m.source.value.size)
      ==> total.Some? && total.value <= m.source.value.size
  {
    if m.isSaving || (m.isRestoring && m.target.None?) then
      if m.source.Some? then
        Some(if m.options.saveAllBlocks then m.source.value.size else UsedBytes(m.source.value))
      else Some(0)
    else if m.isRestoring then
      if m.options.saveAllBlocks then Some(m.target.value.size)
      else if m.source.Some? then Some(UsedBytes(m.source.value))
      else None
    else Some(0)
  }

  /** `GetBytesProcessed`: the writer's count when restoring, else the reader's when saving, else 0. */
  function GetBytesProcessed(m: Manager): (n: nat)
    ensures m.isRestoring && m.writeThread.Some? ==> n == m.writeThread.value.bytesProcessed
    ensures !(m.isRestoring && m.writeThread.Some?) && m.isSaving && m.readThread.Some? ==> n == m.readThread.value.bytesProcessed
    ensures n > 0 ==> (m.isRestoring || m.isSaving) && (m.readThread.Some? || m.writeThread.Some?)
  {
    if m.isRestoring && m.writeThread.Some? then m.writeThread.value.bytesProcessed
    else if m.isSaving && m.readThread.Some? then m.readThread.value.bytesProcessed
    else 0
  }

  // ----- starting a copy ----------------------------------------------------------------

  datatype Operation = Backup | Restore | Verify | NoOperation

  /** What `DoCopy` reads from the selected drive. */
  datatype DriveInfo = DriveInfo(completeHardDisk: bool, mountPoint: string, deviceName: string, clusterSize: nat)

  /**
   * What the disk and files report while a copy is set up: the image
   * header's compression (restore and verify), the snapshot device name
   * (None for NULL), whether the source volume is mounted, the boot
   * sector's cluster size, the image file position after the allocation
   * map, the two streams and the three new threads' handles.
   */
  datatype CopyEnv = CopyEnv(
    imageCompression: CompressionFormat,
    snapshotDevice: Option<string>,
    sourceMounted: bool,
    bootSectorClusterSize: nat,
    headerPosition: nat,
    sourceStream: Stream,
    targetStream: Stream,
    readHandle: nat,
    writeHandle: nat,
    compHandle: nat)

  /** The choices a copy made: the device opened, snapshot use, forced save-all and the writer's input queue. */
  datatype Plan = Plan(deviceName: string, useSnapshot: bool, saveAllBlocks: bool, writerReadsCompQueue: bool)

  datatype CopyOutcome = Started(m: Manager, plan: Plan) | InputTypeNotSet | ChunkSizeTooSmall | MissingDrive

  /** The compression format a restore or verify decodes; a backup decodes nothing. */
  function DecompressionFormat(op: Operation, env: CopyEnv): (f: CompressionFormat)
    ensures f != NoCompression ==> (op == Restore || op == Verify) && f == env.imageCompression
  {
    if op == Restore || op == Verify then env.imageCompression else NoCompression
  }

  /** The writer reads the (de)compression queues when either the option or the image asks for compression. */
  predicate WriterReadsCompQueueAsWritten(o: Options, op: Operation, env: CopyEnv)
  {
    o.compressionMode != NoCompression || DecompressionFormat(op, env) != NoCompression
  }

  /** A (de)compression thread is started: a compressor for a compressing backup, a decompressor for a compressed image. */
  predicate HasCompThread(o: Options, op: Operation, env: CopyEnv)
  {
    if op == Backup then o.compressionMode != NoCompression else DecompressionFormat(op, env) != NoCompression
  }

  /** The writer takes from the queue a (de)compression thread fills, and only then. */
  predicate WriterReadsCompQueue(o: Options, op: Operation, env: CopyEnv)
  {
    HasCompThread(o, op, env)
  }

  /**
   * With a compression option stored, restoring an uncompressed image points
   * the writer at the (de)compression queue though no thread fills it.
   */
  lemma UncompressedRestoreStarvesWriter(o: Options, env: CopyEnv)
    requires o.compressionMode == GZip && env.imageCompression == NoCompression
    ensures WriterReadsCompQueueAsWritten(o, Restore, env) && !HasCompThread(o, Restore, env)
  {
  }

  /** The corrected choice feeds the writer from a filled queue: the producer exists exactly when the writer waits on it. */
  lemma WriterQueueHasProducer(o: Options, op: Operation, env: CopyEnv)
    requires op != NoOperation
    ensures WriterReadsCompQueue(o, op, env) <==> HasCompThread(o, op, env)
    ensures WriterReadsCompQueue(o, op, env) ==> WriterReadsCompQueueAsWritten(o, op, env)
    ensures op == Backup ==> (WriterReadsCompQueue(o, op, env) <==> WriterReadsCompQueueAsWritten(o, op, env))
  {
  }

  /** Backup saves every block when asked to, for a whole disk, an unmounted volume or an unknown cluster size. */
  predicate ForcedSaveAll(o: Options, drive: Option<DriveInfo>, env: CopyEnv)
  {
    o.saveAllBlocks || (drive.Some? && drive.value.completeHardDisk) || !env.sourceMounted || ClusterSize(drive, env) == 0
  }

  /** The cluster size a backup uses: the drive's, or the boot sector's when the drive reports none. */
  function ClusterSize(drive: Option<DriveInfo>, env: CopyEnv): (n: nat)
    ensures n == 0 ==> env.bootSectorClusterSize == 0
    ensures drive.Some? && drive.value.clusterSize > 0 ==> n == drive.value.clusterSize
  {
    var c := if drive.Some? then drive.value.clusterSize else 0;
    if c == 0 then env.bootSectorClusterSize else c
  }

  /** A backup takes a snapshot when the option is on and the drive has a mount point. */
  predicate UsesSnapshot(o: Options, op: Operation, drive: Option<DriveInfo>)
    requires op != Backup || !o.takeVSSSnapshot || drive.Some?
  {
    op == Backup && o.takeVSSSnapshot && drive.value.mountPoint != ""
  }

  /** The device the source is read from: the snapshot's when it has a non-empty name, else the drive's. */
  function SourceDevice(drive: Option<DriveInfo>, useSnapshot: bool, env: CopyEnv): (dev: string)
    ensures useSnapshot && env.snapshotDevice.Some? && env.snapshotDevice.value != "" ==> dev == env.snapshotDevice.value
    ensures !(useSnapshot && env.snapshotDevice.Some? && env.snapshotDevice.value != "") ==>
      dev == (if drive.Some? then drive.value.deviceName else "")
  {
    if useSnapshot && env.snapshotDevice.Some? && env.snapshotDevice.value != "" then env.snapshotDevice.value
    else if drive.Some? then drive.value.deviceName else ""
  }

  function NewWorker(handle: nat): Worker
  {
    Worker(handle, false, None, 0, false)
  }

  /**
   * `DoCopy`, as far as it decides things: which streams, queues and threads
   * exist afterwards, the saving/restoring flag, the snapshot bookkeeping,
   * the forced save-all mode and the used-block split check. `noFiles` is the
   * number of split files a restore or verify reads. `writerReadsComp` is the
   * writer's choice of input queue, which the two definitions below make.
   */
  function StartCopy(m: Manager, op: Operation, drive: Option<DriveInfo>, noFiles: nat, env: CopyEnv,
                     writerReadsComp: bool): CopyOutcome
  {
    if op == NoOperation then InputTypeNotSet
    else if op == Backup && m.options.takeVSSSnapshot && drive.None? then MissingDrive
    else
      var o := m.options;
      var snap := UsesSnapshot(o, op, drive);
      var saveAll := op == Backup && ForcedSaveAll(o, drive, env);
      if op == Backup && !saveAll && o.splitFileSize > 0 && env.headerPosition > o.splitFileSize then ChunkSizeTooSmall
      else
        var comp := HasCompThread(o, op, env);
        var m1 := m.(
          source := Some(env.sourceStream),
          target := if op == Verify then None else Some(env.targetStream),
          splitCallback := if op == Backup then o.splitFileSize > 0 else noFiles > 0,
          readerQueues := true,
          compQueues := writerReadsComp,
          readThread := Some(NewWorker(env.readHandle)),
          writeThread := Some(NewWorker(env.writeHandle)),
          compThread := if comp then Some(NewWorker(env.compHandle)) else None,
          vss := m.vss || (snap && !m.multiVolumeMode),
          multiVolumeIndex := if snap && !m.multiVolumeMode then 0 else m.multiVolumeIndex,
          isSaving := m.isSaving || op == Backup,
          isRestoring := m.isRestoring || op != Backup,
          wasCancelled := false);
        Started(m1, Plan(SourceDevice(drive, snap, env), snap, saveAll, writerReadsComp))
  }

  /** `DoCopy` as written: the writer's queue follows `WriterReadsCompQueueAsWritten`. */
  function DoCopy(m: Manager, op: Operation, drive: Option<DriveInfo>, noFiles: nat, env: CopyEnv): CopyOutcome
  {
    StartCopy(m, op, drive, noFiles, env, WriterReadsCompQueueAsWritten(m.options, op, env))
  }

  /** `DoCopy` corrected: the writer's queue follows `WriterReadsCompQueue`, and nothing else differs. */
  function DoCopyCorrected(m: Manager, op: Operation, drive: Option<DriveInfo>, noFiles: nat, env: CopyEnv): CopyOutcome
  {
    StartCopy(m, op, drive, noFiles, env, WriterReadsCompQueue(m.options, op, env))
  }

  /**
   * As written, a restore of an uncompressed image started while gzip is the
   * stored compression option builds the (de)compression queues and points
   * the writer at them, yet starts no thread that fills them.
   */
  lemma DoCopyStarvesWriter(m: Manager, drive: Option<DriveInfo>, noFiles: nat, env: CopyEnv)
    requires m.options.compressionMode == GZip && env.imageCompression == NoCompression
    ensures DoCopy(m, Restore, drive, noFiles, env).Started?
    ensures var r := DoCopy(m, Restore, drive, noFiles, env);
      r.plan.writerReadsCompQueue && r.m.compQueues && r.m.compThread.None?
  {
  }

  /**
   * The corrected copy starts exactly when the written one does and differs
   * from it only in the writer's queue; for a backup the two are the same.
   */
  lemma DoCopyCorrectedDiffersOnlyInQueue(m: Manager, op: Operation, drive: Option<DriveInfo>, noFiles: nat, env: CopyEnv)
    ensures var a := DoCopy(m, op, drive, noFiles, env);
      var c := DoCopyCorrected(m, op, drive, noFiles, env);
      (a.Started? <==> c.Started?) && (!a.Started? ==> a == c) &&
      (a.Started? ==> c.m == a.m.(compQueues := c.m.compQueues) &&
                      c.plan == a.plan.(writerReadsCompQueue := c.plan.writerReadsCompQueue))
    ensures op == Backup ==> DoCopy(m, op, drive, noFiles, env) == DoCopyCorrected(m, op, drive, noFiles, env)
  {
  }

  /** When a copy starts, and when the used-block image header does not fit the first split file. */
  lemma DoCopyOutcomes(m: Manager, op: Operation, drive: Option<DriveInfo>, noFiles: nat, env: CopyEnv)
    ensures DoCopy(m, op, drive, noFiles, env) == InputTypeNotSet <==> op == NoOperation
    ensures DoCopy(m, op, drive, noFiles, env) == ChunkSizeTooSmall <==>
      op == Backup && (m.options.takeVSSSnapshot ==> drive.Some?) && !ForcedSaveAll(m.options, drive, env) &&
      m.options.splitFileSize > 0 && env.headerPosition > m.options.splitFileSize
    ensures DoCopy(m, op, drive, noFiles, env).Started? ==>
      DoCopy(m, op, drive, noFiles, env).plan.saveAllBlocks ==
        (op == Backup && ForcedSaveAll(m.options, drive, env))
  {
  }

  /**
   * A started copy from an idle manager: a reader and writer pair plus a
   * (de)compressor exactly when one is needed, every handle fits a buffer
   * of the thread count, the flags match the operation, the total is
   * readable and nothing is processed yet; the stored options do not change.
   */
  lemma DoCopyStarts(m: Manager, op: Operation, drive: Option<DriveInfo>, noFiles: nat, env: CopyEnv)
    requires Idle(m)
    requires DoCopy(m, op, drive, noFiles, env).Started?
    ensures var s := DoCopy(m, op, drive, noFiles, env).m;
      PairedThreads(s) && s.readThread.Some? &&
      ThreadCount(s) == (if HasCompThread(m.options, op, env) then 3 else 2) &&
      GetThreadHandles(s, ThreadCount(s)) == Filled(Handles(s)) &&
      (s.isSaving <==> op == Backup) && (s.isRestoring <==> op != Backup) &&
      (s.target.None? <==> op == Verify) &&
      GetTotalBytesToProcess(s).Some? && GetBytesProcessed(s) == 0 && !WasError(s) &&
      s.options == m.options && (s.vss <==> UsesSnapshot(m.options, op, drive))
  {
    var s := DoCopy(m, op, drive, noFiles, env).m;
    PairedHandlesFit(s);
  }

  /**
   * The progress total of a started copy: the source's size or used bytes
   * for a backup or verify, the target's size or the image's used bytes for
   * a restore. It follows the stored save-all option, not the forced one.
   */
  lemma DoCopyTotal(m: Manager, op: Operation, drive: Option<DriveInfo>, noFiles: nat, env: CopyEnv)
    requires Idle(m)
    requires DoCopy(m, op, drive, noFiles, env).Started?
    ensures var total := GetTotalBytesToProcess(DoCopy(m, op, drive, noFiles, env).m);
      total.Some? &&
      (op != Restore ==> total.value == (if m.options.saveAllBlocks then env.sourceStream.size else UsedBytes(env.sourceStream))) &&
      (op == Restore ==> total.value == (if m.options.saveAllBlocks then env.targetStream.size else UsedBytes(env.sourceStream)))
  {
  }

  /**
   * A copy started by the corrected definition: its writer takes from the
   * (de)compression queue exactly when a (de)compression thread fills it, and
   * from the reader's queue otherwise.
   */
  lemma DoCopyFeedsWriter(m: Manager, op: Operation, drive: Option<DriveInfo>, noFiles: nat, env: CopyEnv)
    requires DoCopyCorrected(m, op, drive, noFiles, env).Started?
    ensures var r := DoCopyCorrected(m, op, drive, noFiles, env);
      (r.plan.writerReadsCompQueue <==> r.m.compThread.Some?) && (r.m.compQueues <==> r.m.compThread.Some?) &&
      r.m.readThread.Some? && r.m.readerQueues
  {
  }

  /** A whole-disk backup with the used-blocks option saves every block, yet its total counts only the used bytes. */
  lemma WholeDiskTotalUsesAllocated(m: Manager, drive: DriveInfo, env: CopyEnv)
    requires Idle(m) && !m.options.saveAllBlocks && !m.options.takeVSSSnapshot && drive.completeHardDisk
    requires env.sourceStream.allocatedBytes > 0
    ensures DoCopy(m, Backup, Some(drive), 0, env).Started?
    ensures DoCopy(m, Backup, Some(drive), 0, env).plan.saveAllBlocks
    ensures GetTotalBytesToProcess(DoCopy(m, Backup, Some(drive), 0, env).m) == Some(env.sourceStream.allocatedBytes)
  {
  }
}
