/**
 * The multi-drive front-end's controller: five slots bound to the removable
 * disks in disk-number order, one clone worker per slot, the start/stop
 * buttons and the auto-clone of newly inserted disks. Every eligible slot is
 * started at once: there is no admission queue and no concurrency cap.
 * The window is reduced to the status and progress it shows per slot; log
 * lines are not modelled.
 */
module App {
  import opened Common
  import CW = CloneWorker
  import DM = DriveManager

  const NUM_SLOTS: nat := 5
  /** The slot indices 0..4. */
  const SLOTS: set<nat> := {0, 1, 2, 3, 4}

  /** What a handler finds around it: the image field, the file system, the settings, the drives. */
  datatype Host = Host(
    image: string,
    imageExists: bool,
    autoClone: bool,
    odinc: string,
    win: DM.Win32)

  datatype App = App(
    drives: seq<Option<DM.DriveInfo>>,
    workers: map<nat, CW.Worker>,
    shownStatus: map<nat, CW.CloneStatus>,
    shownProgress: map<nat, int>)

  predicate Valid(a: App) { |a.drives| == NUM_SLOTS }

  function NewApp(): (a: App)
    ensures Valid(a) && a.workers == map[]
    ensures forall i :: 0 <= i < NUM_SLOTS ==> a.drives[i].None?
  {
    App(seq(NUM_SLOTS, _ => None), map[], map[], map[])
  }

  // ----- one slot -----------------------------------------------------------------

  /** Why `_start_slot` refused, checked in this order, or that it went ahead. */
  datatype StartCheck = NoImage | ImageMissing | NoDrive | NotRemovable | Accepted

  function CheckStart(a: App, host: Host, idx: nat): (c: StartCheck)
    requires Valid(a) && idx < NUM_SLOTS
    ensures c == Accepted <==>
      host.image != "" && host.imageExists && a.drives[idx].Some?
      && DM.IsRemovable(host.win, a.drives[idx].value.firstLetter)
  {
    if host.image == "" then NoImage
    else if !host.imageExists then ImageMissing
    else if a.drives[idx].None? then NoDrive
    else if !DM.IsRemovable(host.win, a.drives[idx].value.firstLetter) then NotRemovable
    else Accepted
  }

  /**
   * `_start_slot`: a refusal changes nothing; otherwise a new restore worker
   * replaces whatever worker the slot had (running or not), the slot shows
   * Running and the worker is started.
   */
  function StartSlot(a: App, host: Host, idx: nat): (r: (App, StartCheck))
    requires Valid(a) && idx < NUM_SLOTS
    ensures r.1 == CheckStart(a, host, idx)
    ensures r.1 != Accepted ==> r.0 == a
    ensures r.1 == Accepted ==>
      r.0.drives == a.drives && r.0.shownProgress == a.shownProgress
      && r.0.shownStatus == a.shownStatus[idx := CW.Running]
      && idx in r.0.workers && r.0.workers == a.workers[idx := r.0.workers[idx]]
      && r.0.workers[idx].status == CW.Running
      && CW.Command(r.0.workers[idx])
         == [host.odinc, "-restore", "-source=" + host.image,
             "-target=" + DM.TargetPath(a.drives[idx].value.diskNumber), "-force"]
  {
    var c := CheckStart(a, host, idx);
    if c != Accepted then (a, c)
    else
      var drive := a.drives[idx].value;
      var w := CW.NewWorker(host.odinc, host.image, DM.TargetPath(drive.diskNumber), CW.Restore, None);
      var started := CW.Start(w).0;
      (a.(workers := a.workers[idx := started], shownStatus := a.shownStatus[idx := CW.Running]), c)
  }

  /** `_stop_slot`: forwards the stop to the slot's worker whatever its status; the bool is the tree kill. */
  function StopSlot(a: App, idx: nat, processAlive: bool): (r: (App, bool))
    ensures idx !in a.workers ==> r.0 == a && !r.1
    ensures idx in a.workers ==>
      r.0 == a.(workers := a.workers[idx := a.workers[idx].(status := CW.Stopped)])
      && (r.1 <==> processAlive)
  {
    if idx in a.workers then
      var s := CW.Stop(a.workers[idx], processAlive);
      (a.(workers := a.workers[idx := s.0]), s.1)
    else (a, false)
  }

  // ----- starting many slots ----------------------------------------------------------

  /** A slot may be (re)started: it holds a drive and has no running worker. */
  predicate Eligible(a: App, i: nat)
    requires Valid(a) && i < NUM_SLOTS
  {
    a.drives[i].Some? && (i !in a.workers || a.workers[i].status != CW.Running)
  }

  /** Eligible, and its disk was not bound to a slot before (`prev`). */
  predicate Wanted(a: App, prev: set<int>, i: nat)
    requires Valid(a) && i < NUM_SLOTS
  {
    Eligible(a, i) && a.drives[i].value.diskNumber !in prev
  }

  /**
   * Visits slots i..4 in ascending order and calls `_start_slot` on every
   * wanted one; returns the final state and the slots it was called for.
   */
  function StartEach(a: App, host: Host, prev: set<int>, i: nat): (r: (App, seq<nat>))
    requires Valid(a) && i <= NUM_SLOTS
    ensures Valid(r.0) && r.0.drives == a.drives
    decreases NUM_SLOTS - i
  {
    if i == NUM_SLOTS then (a, [])
    else if Wanted(a, prev, i) then
      var rest := StartEach(StartSlot(a, host, i).0, host, prev, i + 1);
      (rest.0, [i] + rest.1)
    else StartEach(a, host, prev, i + 1)
  }

  /** A start on slot i leaves every other slot's worker and shown status alone. */
  lemma StartSlotFrame(a: App, host: Host, idx: nat, k: nat)
    requires Valid(a) && idx < NUM_SLOTS && k != idx
    ensures var b := StartSlot(a, host, idx).0;
      (k in b.workers <==> k in a.workers)
      && (k in a.workers ==> b.workers[k] == a.workers[k])
      && (k in b.shownStatus <==> k in a.shownStatus)
      && (k in a.shownStatus ==> b.shownStatus[k] == a.shownStatus[k])
  {
  }

  /**
   * The slots started are exactly the wanted ones among i..4, judged on the
   * state before the sweep.
   */
  lemma {:induction false} StartEachCalls(a: App, host: Host, prev: set<int>, i: nat)
    requires Valid(a) && i <= NUM_SLOTS
    ensures forall k: nat :: k in StartEach(a, host, prev, i).1 <==> i <= k < NUM_SLOTS && Wanted(a, prev, k)
    decreases NUM_SLOTS - i
  {
    if i < NUM_SLOTS {
      if Wanted(a, prev, i) {
        var b := StartSlot(a, host, i).0;
        StartEachCalls(b, host, prev, i + 1);
        forall k | i < k < NUM_SLOTS
          ensures Wanted(b, prev, k) <==> Wanted(a, prev, k)
        {
          StartSlotFrame(a, host, i, k);
        }
      } else {
        StartEachCalls(a, host, prev, i + 1);
      }
    }
  }

  /** The sweep calls `_start_slot` on slot k and that call is accepted. */
  predicate Launches(a: App, host: Host, prev: set<int>, i: nat, k: nat)
    requires Valid(a)
  {
    i <= k < NUM_SLOTS && Wanted(a, prev, k) && CheckStart(a, host, k) == Accepted
  }

  /** Slot k's worker and shown status are the same in both states. */
  predicate SlotKept(a: App, b: App, k: nat)
  {
    (k in b.workers <==> k in a.workers) && (k in a.workers ==> b.workers[k] == a.workers[k])
    && (k in b.shownStatus <==> k in a.shownStatus) && (k in a.shownStatus ==> b.shownStatus[k] == a.shownStatus[k])
  }

  /**
   * After the sweep over i..4, every slot whose start was accepted has a
   * running worker and shows Running; every other slot, including a wanted
   * one that `_start_slot` refused, keeps its worker and shown status.
   */
  lemma {:induction false} StartEachOutcome(a: App, host: Host, prev: set<int>, i: nat, k: nat)
    requires Valid(a) && i <= NUM_SLOTS
    ensures var b := StartEach(a, host, prev, i).0;
      (Launches(a, host, prev, i, k) ==>
        k in b.workers && b.workers[k].status == CW.Running && k in b.shownStatus && b.shownStatus[k] == CW.Running)
      && (!Launches(a, host, prev, i, k) ==> SlotKept(a, b, k))
    decreases NUM_SLOTS - i
  {
    if i < NUM_SLOTS {
      if Wanted(a, prev, i) {
        var c := StartSlot(a, host, i).0;
        var b := StartEach(c, host, prev, i + 1).0;
        assert StartEach(a, host, prev, i).0 == b;
        StartEachOutcome(c, host, prev, i + 1, k);
        if k == i {
          StartSlotOwn(a, host, i);
          if CheckStart(a, host, i) != Accepted {
            SlotKeptTrans(a, c, b, k);
          }
        } else {
          StartSlotFrame(a, host, i, k);
          if i < k < NUM_SLOTS {
            assert Wanted(c, prev, k) <==> Wanted(a, prev, k);
            assert CheckStart(c, host, k) == CheckStart(a, host, k);
          }
          if !Launches(a, host, prev, i, k) {
            SlotKeptTrans(a, c, b, k);
          }
        }
      } else {
        StartEachOutcome(a, host, prev, i + 1, k);
      }
    }
  }

  /** A start on slot i, when accepted, leaves it running and showing Running; when refused, leaves it alone. */
  lemma StartSlotOwn(a: App, host: Host, i: nat)
    requires Valid(a) && i < NUM_SLOTS
    ensures var c := StartSlot(a, host, i).0;
      (CheckStart(a, host, i) == Accepted ==>
        i in c.workers && c.workers[i].status == CW.Running && i in c.shownStatus && c.shownStatus[i] == CW.Running)
      && (CheckStart(a, host, i) != Accepted ==> SlotKept(a, c, i))
  {
  }

  lemma SlotKeptTrans(a: App, b: App, c: App, k: nat)
    requires SlotKept(a, b, k) && SlotKept(b, c, k)
    ensures SlotKept(a, c, k)
  {
  }

  /** The sweep starts slots in ascending order, each at most once. */
  lemma {:induction false} StartEachAscending(a: App, host: Host, prev: set<int>, i: nat)
    requires Valid(a) && i <= NUM_SLOTS
    ensures forall k :: k in StartEach(a, host, prev, i).1 ==> k >= i
    ensures forall p, q :: 0 <= p < q < |StartEach(a, host, prev, i).1| ==>
              StartEach(a, host, prev, i).1[p] < StartEach(a, host, prev, i).1[q]
    decreases NUM_SLOTS - i
  {
    if i < NUM_SLOTS {
      if Wanted(a, prev, i) {
        var b := StartSlot(a, host, i).0;
        StartEachAscending(b, host, prev, i + 1);
        var rest := StartEach(b, host, prev, i + 1).1;
        assert StartEach(a, host, prev, i).1 == [i] + rest;
        ConsAscending(i, rest);
      } else {
        StartEachAscending(a, host, prev, i + 1);
      }
    }
  }

  /** Putting a smaller number in front of an ascending sequence keeps it ascending. */
  lemma ConsAscending(i: nat, rest: seq<nat>)
    requires forall k :: k in rest ==> k >= i + 1
    requires forall p, q :: 0 <= p < q < |rest| ==> rest[p] < rest[q]
    ensures forall k :: k in [i] + rest ==> k >= i
    ensures forall p, q :: 0 <= p < q < |[i] + rest| ==> ([i] + rest)[p] < ([i] + rest)[q]
  {
    var calls := [i] + rest;
    forall p, q | 0 <= p < q < |calls|
      ensures calls[p] < calls[q]
    {
      assert calls[q] == rest[q - 1];
      assert rest[q - 1] in rest;
      if p > 0 {
        assert calls[p] == rest[p - 1];
      }
    }
  }

  /** `_start_all`: every slot with a drive and no running worker, with no cap on how many. */
  function StartAll(a: App, host: Host): (r: (App, seq<nat>))
    requires Valid(a)
    ensures Valid(r.0)
  {
    StartEach(a, host, {}, 0)
  }

  /**
   * `_start_slot` is called on exactly the eligible slots; those it accepts
   * end with a running worker and show Running, and every other slot,
   * including an eligible one it refuses, keeps its worker and status.
   */
  lemma StartAllStartsEveryEligible(a: App, host: Host)
    requires Valid(a)
    ensures forall k: nat :: k in StartAll(a, host).1 <==> k < NUM_SLOTS && Eligible(a, k)
    ensures forall k: nat :: k < NUM_SLOTS && Eligible(a, k) && CheckStart(a, host, k) == Accepted ==>
      k in StartAll(a, host).0.workers && StartAll(a, host).0.workers[k].status == CW.Running
      && k in StartAll(a, host).0.shownStatus && StartAll(a, host).0.shownStatus[k] == CW.Running
    ensures forall k: nat :: !(k < NUM_SLOTS && Eligible(a, k) && CheckStart(a, host, k) == Accepted) ==>
      SlotKept(a, StartAll(a, host).0, k)
  {
    StartEachCalls(a, host, {}, 0);
    forall k: nat
      ensures Launches(a, host, {}, 0, k) <==> k < NUM_SLOTS && Eligible(a, k) && CheckStart(a, host, k) == Accepted
      ensures var b := StartAll(a, host).0;
        (Launches(a, host, {}, 0, k) ==>
          k in b.workers && b.workers[k].status == CW.Running && k in b.shownStatus && b.shownStatus[k] == CW.Running)
        && (!Launches(a, host, {}, 0, k) ==> SlotKept(a, b, k))
    {
      StartEachOutcome(a, host, {}, 0, k);
    }
  }

  /** Five idle drives are all started: nothing holds back a sixth, fifth or third. */
  lemma StartAllHasNoCap(a: App, host: Host)
    requires Valid(a) && a.workers == map[]
    requires forall k :: 0 <= k < NUM_SLOTS ==> a.drives[k].Some?
    ensures StartAll(a, host).1 == [0, 1, 2, 3, 4]
    ensures (host.image != "" && host.imageExists &&
             forall k :: 0 <= k < NUM_SLOTS ==> DM.IsRemovable(host.win, a.drives[k].value.firstLetter)) ==>
      forall k :: 0 <= k < NUM_SLOTS ==> k in StartAll(a, host).0.workers && StartAll(a, host).0.workers[k].status == CW.Running
  {
    StartAllStartsEveryEligible(a, host);
    StartEachCalls(a, host, {}, 0);
    StartEachAscending(a, host, {}, 0);
    var calls := StartAll(a, host).1;
    assert forall k: nat :: k < NUM_SLOTS ==> Eligible(a, k);
    AscendingRange(calls);
  }

  lemma AscendingRange(s: seq<nat>)
    requires forall k: nat :: k in s <==> k < NUM_SLOTS
    requires forall p, q :: 0 <= p < q < |s| ==> s[p] < s[q]
    ensures s == [0, 1, 2, 3, 4]
  {
    IdentityPrefix(s, 4);
    assert s[|s| - 1] in s;
    LowerBoundAt(s, |s| - 1);
    forall q | 0 <= q < |s|
      ensures s[q] == q
    {
      IdentityPrefix(s, q);
    }
  }

  lemma {:induction false} LowerBoundAt(s: seq<nat>, q: nat)
    requires forall a, b :: 0 <= a < b < |s| ==> s[a] < s[b]
    requires q < |s|
    ensures s[q] >= q
    decreases q
  {
    if q > 0 {
      LowerBoundAt(s, q - 1);
    }
  }

  /** An ascending list holding exactly 0..4 starts 0, 1, 2, ... */
  lemma {:induction false} IdentityPrefix(s: seq<nat>, q: nat)
    requires forall k: nat :: k in s <==> k < NUM_SLOTS
    requires forall a, b :: 0 <= a < b < |s| ==> s[a] < s[b]
    requires q < NUM_SLOTS
    ensures q < |s| && s[q] == q
    decreases q
  {
    assert q in s;
    var p :| 0 <= p < |s| && s[p] == q;
    if q == 0 {
      LowerBoundAt(s, p);
    } else {
      IdentityPrefix(s, q - 1);
      assert p >= q;
      LowerBoundAt(s, q);
    }
  }

  // ----- stopping --------------------------------------------------------------------------

  /**
   * `_stop_all`: every running worker is stopped, the others are left as they
   * are; the result also names the slots whose process tree is killed.
   */
  function StopAll(a: App, alive: nat -> bool): (r: (App, set<nat>))
    ensures r.0.drives == a.drives && r.0.shownStatus == a.shownStatus
    ensures r.0.workers.Keys == a.workers.Keys
    ensures forall i :: i in a.workers ==>
      r.0.workers[i].status == (if a.workers[i].status == CW.Running then CW.Stopped else a.workers[i].status)
    ensures forall i :: i in r.1 <==> i in a.workers && a.workers[i].status == CW.Running && alive(i)
  {
    var ws := map i | i in a.workers ::
      if a.workers[i].status == CW.Running then CW.Stop(a.workers[i], alive(i)).0 else a.workers[i];
    var killed := set i | i in a.workers && a.workers[i].status == CW.Running && alive(i);
    (a.(workers := ws), killed)
  }

  /** After a stop-all no worker is running. */
  lemma StopAllLeavesNoneRunning(a: App, alive: nat -> bool)
    ensures forall i :: i in StopAll(a, alive).0.workers ==> StopAll(a, alive).0.workers[i].status != CW.Running
  {
  }

  // ----- drive changes -----------------------------------------------------------------------

  /** The slot binding: slot i holds the i-th drive while there are drives, then nothing. */
  function Bind(drives: seq<DM.DriveInfo>): (slots: seq<Option<DM.DriveInfo>>)
    ensures |slots| == NUM_SLOTS
    ensures forall i :: 0 <= i < NUM_SLOTS ==>
      (i < |drives| ==> slots[i] == Some(drives[i])) && (i >= |drives| ==> slots[i].None?)
  {
    seq(NUM_SLOTS, i requires 0 <= i < NUM_SLOTS => if i < |drives| then Some(drives[i]) else None)
  }

  /** The disks bound to slots; disks past the fifth never appear here. */
  function BoundDisks(a: App): set<int>
    requires Valid(a)
  {
    set i | 0 <= i < NUM_SLOTS && a.drives[i].Some? :: a.drives[i].value.diskNumber
  }

  /** A slot as `set_drive` and `reset` leave it: Idle at 0%, whatever its worker is doing. */
  predicate ShownIdle(a: App, k: nat)
  {
    k in a.shownStatus && a.shownStatus[k] == CW.Idle && k in a.shownProgress && a.shownProgress[k] == 0
  }

  /**
   * The window's `update_drives`: every slot is shown Idle at 0%, with or
   * without a drive, running workers included; the workers are not told.
   */
  function ShowDrivesReset(a: App): (r: App)
    ensures r.drives == a.drives && r.workers == a.workers
    ensures forall k: nat :: k < NUM_SLOTS ==> ShownIdle(r, k)
  {
    a.(shownStatus := map k | k in SLOTS :: CW.Idle, shownProgress := map k | k in SLOTS :: 0)
  }

  /** The sweep never changes a shown progress: `_start_slot` only sets the status. */
  lemma {:induction false} StartEachKeepsProgress(a: App, host: Host, prev: set<int>, i: nat)
    requires Valid(a) && i <= NUM_SLOTS
    ensures StartEach(a, host, prev, i).0.shownProgress == a.shownProgress
    decreases NUM_SLOTS - i
  {
    if i < NUM_SLOTS {
      if Wanted(a, prev, i) {
        StartEachKeepsProgress(StartSlot(a, host, i).0, host, prev, i + 1);
      } else {
        StartEachKeepsProgress(a, host, prev, i + 1);
      }
    }
  }

  /**
   * `_on_drives_changed`: rebinds the slots and shows every slot Idle at 0%,
   * then, when auto-clone is on and the image exists, starts the slots whose
   * disk was not bound before the event.
   */
  function OnDrivesChanged(a: App, host: Host, drives: seq<DM.DriveInfo>): (r: (App, seq<nat>))
    requires Valid(a)
    ensures Valid(r.0) && r.0.drives == Bind(drives)
    ensures forall k: nat :: k < NUM_SLOTS ==> k in r.0.shownProgress && r.0.shownProgress[k] == 0
    ensures !(host.autoClone && host.image != "" && host.imageExists) ==>
      r.1 == [] && r.0.workers == a.workers && forall k: nat :: k < NUM_SLOTS ==> ShownIdle(r.0, k)
  {
    var prev := BoundDisks(a);
    var bound := ShowDrivesReset(a.(drives := Bind(drives)));
    if host.autoClone && host.image != "" && host.imageExists then
      StartEachKeepsProgress(bound, host, prev, 0);
      StartEach(bound, host, prev, 0)
    else (bound, [])
  }

  /** Slot k's worker is the same in both states, and the later one shows the slot Idle at 0%. */
  predicate WorkerKeptShownIdle(a: App, b: App, k: nat)
  {
    (k in b.workers <==> k in a.workers) && (k in a.workers ==> b.workers[k] == a.workers[k])
    && (k < NUM_SLOTS ==> ShownIdle(b, k))
  }

  /**
   * With auto-clone on and a present image, a slot is started iff it holds a
   * disk that no slot held before and its worker is absent or not running.
   * A started slot runs when its drive is still removable; every other slot
   * keeps its worker, even a running one, and is shown Idle at 0%.
   */
  lemma AutoStartPicksNewDisks(a: App, host: Host, drives: seq<DM.DriveInfo>)
    requires Valid(a) && host.autoClone && host.image != "" && host.imageExists
    ensures forall k: nat :: k in OnDrivesChanged(a, host, drives).1 <==>
        k < NUM_SLOTS && k < |drives| && drives[k].diskNumber !in BoundDisks(a)
        && (k !in a.workers || a.workers[k].status != CW.Running)
    ensures forall k: nat :: k in OnDrivesChanged(a, host, drives).1 ==>
      (DM.IsRemovable(host.win, drives[k].firstLetter) ==>
        k in OnDrivesChanged(a, host, drives).0.workers
        && OnDrivesChanged(a, host, drives).0.workers[k].status == CW.Running
        && k in OnDrivesChanged(a, host, drives).0.shownStatus
        && OnDrivesChanged(a, host, drives).0.shownStatus[k] == CW.Running)
      && (!DM.IsRemovable(host.win, drives[k].firstLetter) ==> WorkerKeptShownIdle(a, OnDrivesChanged(a, host, drives).0, k))
    ensures forall k: nat :: k !in OnDrivesChanged(a, host, drives).1 ==>
      WorkerKeptShownIdle(a, OnDrivesChanged(a, host, drives).0, k)
  {
    var b := ShowDrivesReset(a.(drives := Bind(drives)));
    var prev := BoundDisks(a);
    StartEachCalls(b, host, prev, 0);
    forall k: nat
      ensures var r := OnDrivesChanged(a, host, drives);
        (k in r.1 ==>
          (DM.IsRemovable(host.win, drives[k].firstLetter) ==>
            k in r.0.workers && r.0.workers[k].status == CW.Running && k in r.0.shownStatus && r.0.shownStatus[k] == CW.Running)
          && (!DM.IsRemovable(host.win, drives[k].firstLetter) ==> WorkerKeptShownIdle(a, r.0, k)))
        && (k !in r.1 ==> WorkerKeptShownIdle(a, r.0, k))
    {
      StartEachOutcome(b, host, prev, 0, k);
      StartEachKeepsProgress(b, host, prev, 0);
    }
  }

  /**
   * A drive change shows a slot whose clone is still running as Idle at 0%,
   * while its worker keeps running: the display no longer matches the worker.
   */
  lemma RunningSlotShownIdleAfterDriveChange(a: App, host: Host, drives: seq<DM.DriveInfo>, k: nat)
    requires Valid(a) && k < NUM_SLOTS && k in a.workers && a.workers[k].status == CW.Running
    ensures var r := OnDrivesChanged(a, host, drives).0;
      k in r.workers && r.workers[k].status == CW.Running && ShownIdle(r, k)
  {
    if host.autoClone && host.image != "" && host.imageExists {
      AutoStartPicksNewDisks(a, host, drives);
    }
  }

  /** A disk that was only ever sixth or later counts as new once it reaches a slot. */
  lemma OverflowDiskIsNew(a: App, host: Host, drives: seq<DM.DriveInfo>, d: int)
    requires Valid(a)
    requires forall i :: 0 <= i < |drives| && i < NUM_SLOTS ==> drives[i].diskNumber != d
    ensures d !in BoundDisks(OnDrivesChanged(a, host, drives).0)
  {
  }

  // ----- completion ---------------------------------------------------------------------------

  /**
   * A worker's `_fire_done` followed by `_on_worker_done`: the worker takes
   * its final status first, then the slot shows it, and 100% only when it is
   * Done. The worker is found by its slot.
   */
  function OnWorkerDone(a: App, idx: nat, status: CW.CloneStatus): (r: App)
    ensures r.drives == a.drives && r.workers.Keys == a.workers.Keys
    ensures idx in a.workers ==> r.workers[idx] == a.workers[idx].(status := status)
    ensures forall k :: k in a.workers && k != idx ==> r.workers[k] == a.workers[k]
    ensures idx in r.shownStatus && r.shownStatus[idx] == status
    ensures forall k :: k != idx ==> (k in r.shownStatus <==> k in a.shownStatus)
    ensures forall k :: k != idx && k in a.shownStatus ==> r.shownStatus[k] == a.shownStatus[k]
    ensures status == CW.Done ==> r.shownProgress == a.shownProgress[idx := 100]
    ensures status != CW.Done ==> r.shownProgress == a.shownProgress
  {
    var ws := if idx in a.workers then a.workers[idx := a.workers[idx].(status := status)] else a.workers;
    var b := a.(workers := ws, shownStatus := a.shownStatus[idx := status]);
    if status == CW.Done then b.(shownProgress := a.shownProgress[idx := 100]) else b
  }

  /**
   * A slot whose worker has finished, with its drive still bound, is called
   * again by the next start-all, and it runs again when the image exists and
   * the drive is still removable; a stop-all leaves the finished worker's
   * status as it is.
   */
  lemma FinishedSlotRestarts(a: App, host: Host, idx: nat, status: CW.CloneStatus)
    requires Valid(a) && idx < NUM_SLOTS && a.drives[idx].Some?
    requires status in {CW.Done, CW.Failed, CW.Stopped}
    ensures var b := OnWorkerDone(a, idx, status);
      idx in StartAll(b, host).1
      && (CheckStart(b, host, idx) == Accepted ==>
            idx in StartAll(b, host).0.workers && StartAll(b, host).0.workers[idx].status == CW.Running)
    ensures var b := OnWorkerDone(a, idx, status);
      idx in a.workers ==> StopAll(b, _ => true).0.workers[idx].status == status
  {
    var b := OnWorkerDone(a, idx, status);
    StartAllStartsEveryEligible(b, host);
    assert Eligible(b, idx);
  }

  /** The log label of a finished slot; other statuses print as their enum name. */
  function DoneLabel(status: CW.CloneStatus): (s: string)
    ensures status == CW.Done ==> s == "Complete"
    ensures status == CW.Failed ==> s == "FAILED"
    ensures status == CW.Stopped ==> s == "Stopped by user"
  {
    match status
    case Done => "Complete"
    case Failed => "FAILED"
    case Stopped => "Stopped by user"
    case Idle => "CloneStatus.IDLE"
    case Running => "CloneStatus.RUNNING"
  }
}
