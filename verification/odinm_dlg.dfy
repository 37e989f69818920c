/**
 * The native multi-drive front-end's main dialog: five drive slots, the
 * removable drives bound to them, the ODINC processes cloning into them, the
 * two-second timer that notices finished processes, and the verification of
 * a cloned drive against the expected digests.
 *
 * Everything the dialog asks Windows is a field of `Machine`: the logical
 * drive mask, drive types, labels and sizes, whether a path exists, the
 * process a command line starts, a process's exit code and a drive's digests.
 */
module OdinMDlg {
  import opened Common
  import opened DriveSlot
  import opened OdinMConfig
  import DM = DriveManager

  const SLOT_COUNT: nat := 5
  const DEFAULT_MAX_CONCURRENT: int := 2
  /** The exit code Windows reports for a process that is still running. */
  const STILL_ACTIVE: int := 259
  /** What a combo box answers when nothing is selected. */
  const CB_ERR: int := -1

  datatype Machine = Machine(
    logicalDrives: nat,
    driveType: string -> int,
    labelOf: string -> string,
    sizeOf: string -> nat,
    present: string -> bool,
    exeDir: string,
    launch: string -> Option<nat>,
    exitCode: nat -> Option<int>,
    digests: string -> Option<(string, string)>)

  /** The dialog's state; the two check boxes are read where the source reads them. */
  datatype Dialog = Dialog(
    slots: seq<Slot>,
    maxConcurrent: int,
    autoClone: bool,
    imagePath: string,
    config: HashConfig,
    verifyBox: bool,
    stopOnFailBox: bool)

  /** The constructor: slots numbered 1 to 5, all empty, at most two clones at once, auto-clone off. */
  function NewDialog(): (d: Dialog)
    ensures |d.slots| == SLOT_COUNT
    ensures forall j :: 0 <= j < |d.slots| ==> d.slots[j] == NewSlot(j + 1)
    ensures d.maxConcurrent == DEFAULT_MAX_CONCURRENT && !d.autoClone
    ensures d.config == DefaultHashConfig()
  {
    Dialog([NewSlot(1), NewSlot(2), NewSlot(3), NewSlot(4), NewSlot(5)],
           DEFAULT_MAX_CONCURRENT, false, "", DefaultHashConfig(), false, false)
  }

  /** Empty slots hold no drive letter; every operation here keeps this. */
  predicate EmptyUnbound(slots: seq<Slot>)
  {
    forall k :: 0 <= k < |slots| && IsEmpty(slots[k]) ==> slots[k].letter == ""
  }

  predicate Full(slots: seq<Slot>) { forall k :: 0 <= k < |slots| ==> !IsEmpty(slots[k]) }

  predicate Tracked(slots: seq<Slot>, letter: string)
  {
    exists k :: 0 <= k < |slots| && slots[k].letter == letter
  }

  /** `IsValidImageFile`: a non-empty path that exists. */
  predicate ValidImage(m: Machine, path: string) { path != "" && m.present(path) }

  // ----- settings ----------------------------------------------------------------------

  /** The stored maximum number of concurrent clones, clamped to 1..5. */
  function ClampMaxConcurrent(n: int): (r: int)
    ensures 1 <= r <= SLOT_COUNT
    ensures 1 <= n <= SLOT_COUNT ==> r == n
    ensures n < 1 ==> r == 1
    ensures n > SLOT_COUNT ==> r == SLOT_COUNT
  {
    if n < 1 then 1 else if n > SLOT_COUNT as int then SLOT_COUNT else n
  }

  /**
   * `LoadSettings`: a stored image path replaces the current one and its
   * `.hashcfg` is loaded; the stored maximum is clamped; any non-zero
   * auto-clone value turns auto-clone on.
   */
  function LoadSettings(d: Dialog, storedImage: string, storedMax: int, storedAuto: int,
                        hashFile: Option<string>): (e: Dialog)
    ensures 1 <= e.maxConcurrent <= SLOT_COUNT && e.autoClone == (storedAuto != 0)
    ensures storedImage == "" ==> e.imagePath == d.imagePath && e.config == d.config
    ensures storedImage != "" ==> e.imagePath == storedImage && e.config.imagePath == storedImage
    ensures e.slots == d.slots
  {
    var e := d.(maxConcurrent := ClampMaxConcurrent(storedMax), autoClone := storedAuto != 0);
    if storedImage == "" then e
    else e.(imagePath := storedImage,
            config := Load(d.config.(imagePath := storedImage), storedImage, hashFile).1)
  }

  /** Settings loaded from a `.hashcfg` the dialog saved bring back both expected values. */
  lemma LoadSettingsRestoresExpected(d: Dialog, c: HashConfig, storedImage: string,
                                     storedMax: int, storedAuto: int)
    requires storedImage != ""
    requires IsAscii(c.sha1Expected) && IsAscii(c.sha256Expected)
    requires NoLineFeed(c.sha1Expected) && NoLineFeed(c.sha256Expected)
    requires !Contains(c.sha1Expected, "SHA256=")
    requires |c.sha1Expected| + |c.sha256Expected| + 16 <= READ_LIMIT
    ensures var e := LoadSettings(d, storedImage, storedMax, storedAuto, Save(c, storedImage, true));
      e.config.sha1Expected == c.sha1Expected && e.config.sha256Expected == c.sha256Expected
  {
    SaveLoadRoundTrip(c, storedImage, d.config.(imagePath := storedImage));
  }

  // ----- drives ------------------------------------------------------------------------

  function Root(i: nat): string
    requires i < DM.LETTER_COUNT
  {
    DM.LetterOf(i) + "\\"
  }

  /** The index of a drive letter: 0 for A through 25 for Z. */
  type LetterIndex = i: nat | i < DM.LETTER_COUNT

  /** Letter i is present in the drive mask and its root is a removable drive. */
  predicate Removable(m: Machine, i: nat)
  {
    i < DM.LETTER_COUNT && DM.Bit(m.logicalDrives, i) && m.driveType(Root(i)) == DM.DRIVE_REMOVABLE
  }

  /** `GetDriveName`: the volume label, or "Removable" when there is none. */
  function DriveName(m: Machine, root: string): (name: string)
    ensures name != ""
    ensures m.labelOf(root) != "" ==> name == m.labelOf(root)
  {
    if m.labelOf(root) == "" then "Removable" else m.labelOf(root)
  }

  /** Binds drive letter i to a slot. */
  function Bind(s: Slot, m: Machine, i: LetterIndex): (t: Slot)
    ensures t.status == Ready && t.letter == DM.LetterOf(i) && t.number == s.number
  {
    SetDrive(s, DM.LetterOf(i), DriveName(m, Root(i)), m.sizeOf(DM.LetterOf(i)))
  }

  /** The removable letters from i on, in A..Z order. */
  function RemovablesFrom(m: Machine, i: nat): seq<LetterIndex>
    decreases DM.LETTER_COUNT - i
  {
    if i >= DM.LETTER_COUNT then []
    else (if Removable(m, i) then [i] else []) + RemovablesFrom(m, i + 1)
  }

  /** `RemovablesFrom` lists exactly the removable letters from i on, ascending. */
  lemma {:induction false} RemovablesFromSpec(m: Machine, i: nat)
    ensures forall k :: 0 <= k < |RemovablesFrom(m, i)| ==>
      i <= RemovablesFrom(m, i)[k] && Removable(m, RemovablesFrom(m, i)[k])
    ensures forall a, b :: 0 <= a < b < |RemovablesFrom(m, i)| ==>
      RemovablesFrom(m, i)[a] < RemovablesFrom(m, i)[b]
    ensures forall x :: i <= x && Removable(m, x) ==> x in RemovablesFrom(m, i)
    decreases DM.LETTER_COUNT - i
  {
    if i < DM.LETTER_COUNT {
      RemovablesFromSpec(m, i + 1);
    }
  }

  /** The loop of `RefreshDrives`: letters from i on, the next free slot being `slot`. */
  function RefreshFrom(m: Machine, slots: seq<Slot>, i: nat, slot: nat): (r: seq<Slot>)
    requires slot <= |slots|
    ensures |r| == |slots|
    decreases DM.LETTER_COUNT - i
  {
    if i >= DM.LETTER_COUNT || slot >= |slots| then slots
    else if !Removable(m, i) then RefreshFrom(m, slots, i + 1, slot)
    else RefreshFrom(m, slots[slot := Bind(slots[slot], m, i)], i + 1, slot + 1)
  }

  /** Slot j once the letters `rs` have been bound to the slots from `offset` on. */
  function BoundSlot(slots: seq<Slot>, m: Machine, rs: seq<LetterIndex>, offset: nat, j: nat): Slot
    requires j < |slots|
  {
    if offset <= j < offset + |rs| then Bind(slots[j], m, rs[j - offset]) else slots[j]
  }

  lemma {:induction false} RefreshFromSpec(m: Machine, slots: seq<Slot>, i: nat, slot: nat)
    requires slot <= |slots|
    ensures forall j :: 0 <= j < |slots| ==>
      RefreshFrom(m, slots, i, slot)[j] == BoundSlot(slots, m, RemovablesFrom(m, i), slot, j)
    decreases DM.LETTER_COUNT - i
  {
    var rs := RemovablesFrom(m, i);
    if i >= DM.LETTER_COUNT || slot >= |slots| {
    } else if !Removable(m, i) {
      RefreshFromSpec(m, slots, i + 1, slot);
      assert rs == RemovablesFrom(m, i + 1);
    } else {
      var next := slots[slot := Bind(slots[slot], m, i)];
      RefreshFromSpec(m, next, i + 1, slot + 1);
      var rest := RemovablesFrom(m, i + 1);
      assert rs == [i] + rest;
      forall j | 0 <= j < |slots|
        ensures RefreshFrom(m, slots, i, slot)[j] == BoundSlot(slots, m, rs, slot, j)
      {
        assert RefreshFrom(m, slots, i, slot)[j] == BoundSlot(next, m, rest, slot + 1, j);
        if slot < j < slot + |rs| {
          assert rs[j - slot] == rest[j - slot - 1];
        }
      }
    }
  }

  function Cleared(slots: seq<Slot>): (r: seq<Slot>)
    ensures |r| == |slots| && forall j :: 0 <= j < |slots| ==> r[j] == ClearDrive(slots[j])
  {
    seq(|slots|, j requires 0 <= j < |slots| => ClearDrive(slots[j]))
  }

  /** `RefreshDrives`: every slot cleared, then the removable letters bound to slots 0, 1, ... in order. */
  function RefreshDrives(d: Dialog, m: Machine): (e: Dialog)
    ensures |e.slots| == |d.slots| && e == d.(slots := e.slots)
  {
    d.(slots := RefreshFrom(m, Cleared(d.slots), 0, 0))
  }

  /**
   * After a refresh, slot j holds the j-th removable letter in A..Z order
   * while there is one, and is a fresh empty slot otherwise; letters beyond
   * the last slot are not bound.
   */
  lemma RefreshDrivesBinds(d: Dialog, m: Machine)
    ensures var e := RefreshDrives(d, m); var rs := RemovablesFrom(m, 0);
      forall j :: 0 <= j < |d.slots| ==>
        (e.slots[j] == if j < |rs| then Bind(NewSlot(d.slots[j].number), m, rs[j]) else NewSlot(d.slots[j].number))
    ensures EmptyUnbound(RefreshDrives(d, m).slots)
  {
    var c := Cleared(d.slots);
    var rs := RemovablesFrom(m, 0);
    var e := RefreshDrives(d, m);
    RefreshFromSpec(m, c, 0, 0);
    forall j | 0 <= j < |d.slots|
      ensures e.slots[j] == if j < |rs| then Bind(NewSlot(d.slots[j].number), m, rs[j]) else NewSlot(d.slots[j].number)
    {
      assert e.slots[j] == BoundSlot(c, m, rs, 0, j);
      assert c[j] == NewSlot(d.slots[j].number);
    }
  }

  // ----- starting and stopping one slot ------------------------------------------------

  /** The command line of a clone: ODINC next to the program, the image and the target letter. */
  function Command(exeDir: string, image: string, letter: string): (cmd: string)
    ensures |cmd| >= |letter| && cmd[|cmd| - |letter|..] == letter
  {
    var cmd := "\"" + exeDir + "\\ODINC.exe\"" + " --source \"" + image + "\" --target " + letter;
    assert cmd == ("\"" + exeDir + "\\ODINC.exe\"" + " --source \"" + image + "\" --target ") + letter;
    cmd
  }

  /** A launch attempt on one slot: Cloning with the new process, or Failed. */
  function Launch(s: Slot, m: Machine, image: string): (t: Slot)
    ensures t.status in {Cloning, Failed}
    ensures t.status == Cloning <==> m.launch(Command(m.exeDir, image, s.letter)).Some?
    ensures t.status == Cloning ==> t.progress == 0 && t.pid == m.launch(Command(m.exeDir, image, s.letter)).value
    ensures t.letter == s.letter && t.number == s.number && t.verify == s.verify
  {
    match m.launch(Command(m.exeDir, image, s.letter))
    case Some(pid) => SetProgress(s.(status := Cloning), 0).(pid := pid)
    case None => s.(status := Failed)
  }

  /** `StartClone`: an empty or active slot is left alone; any other slot is launched. */
  function StartClone(d: Dialog, m: Machine, i: nat): (e: Dialog)
    requires i < |d.slots|
    ensures IsEmpty(d.slots[i]) || IsActive(d.slots[i]) ==> e == d
    ensures !IsEmpty(d.slots[i]) && !IsActive(d.slots[i]) ==>
      e == d.(slots := d.slots[i := Launch(d.slots[i], m, d.imagePath)])
    ensures |e.slots| == |d.slots| && e == d.(slots := e.slots)
  {
    var s := d.slots[i];
    if IsEmpty(s) || IsActive(s) then d
    else d.(slots := d.slots[i := Launch(s, m, d.imagePath)])
  }

  function Stop(s: Slot): Slot { s.(status := Stopped, pid := 0) }

  /**
   * `StopClone`: an inactive slot is left alone; an active one becomes
   * Stopped with no process, and its process is terminated when it has one.
   */
  function StopClone(d: Dialog, i: nat): (r: (Dialog, Option<nat>))
    requires i < |d.slots|
    ensures !IsActive(d.slots[i]) ==> r == (d, None)
    ensures IsActive(d.slots[i]) ==> r.0 == d.(slots := d.slots[i := Stop(d.slots[i])])
    ensures IsActive(d.slots[i]) ==> r.0.slots[i].status == Stopped && r.0.slots[i].pid == 0
    ensures r.1.Some? <==> IsActive(d.slots[i]) && d.slots[i].pid != 0
    ensures r.1.Some? ==> r.1.value == d.slots[i].pid
  {
    var s := d.slots[i];
    if !IsActive(s) then (d, None)
    else (d.(slots := d.slots[i := Stop(s)]), if s.pid != 0 then Some(s.pid) else None)
  }

  // ----- stop all ----------------------------------------------------------------------

  function StopFrom(d: Dialog, i: nat): (e: Dialog)
    ensures |e.slots| == |d.slots| && e == d.(slots := e.slots)
    decreases |d.slots| - i
  {
    if i >= |d.slots| then d
    else if IsActive(d.slots[i]) then StopFrom(StopClone(d, i).0, i + 1)
    else StopFrom(d, i + 1)
  }

  lemma {:induction false} StopFromSpec(d: Dialog, i: nat)
    ensures forall j :: 0 <= j < |d.slots| ==>
      (StopFrom(d, i).slots[j] == if i <= j && IsActive(d.slots[j]) then Stop(d.slots[j]) else d.slots[j])
    decreases |d.slots| - i
  {
    if i < |d.slots| {
      if IsActive(d.slots[i]) {
        StopFromSpec(StopClone(d, i).0, i + 1);
      } else {
        StopFromSpec(d, i + 1);
      }
    }
  }

  /** `OnStopAll`: `StopClone` on every active slot. */
  function StopAll(d: Dialog): (e: Dialog)
    ensures |e.slots| == |d.slots| && e == d.(slots := e.slots)
  {
    StopFrom(d, 0)
  }

  /** Stop-all stops exactly the active slots, and afterwards none is active. */
  lemma StopAllSpec(d: Dialog)
    ensures forall j :: 0 <= j < |d.slots| ==>
      (StopAll(d).slots[j] == if IsActive(d.slots[j]) then Stop(d.slots[j]) else d.slots[j])
    ensures forall j :: 0 <= j < |d.slots| ==> !IsActive(StopAll(d).slots[j])
    ensures CanClose(StopAll(d))
  {
    StopFromSpec(d, 0);
  }

  /** `OnOK` / `OnCancel`: the dialog closes only when no slot is active. */
  predicate CanClose(d: Dialog) { forall j :: 0 <= j < |d.slots| ==> !IsActive(d.slots[j]) }

  // ----- start all ---------------------------------------------------------------------

  /** The Ready slots from i on, ascending. */
  function ReadyFrom(slots: seq<Slot>, i: nat): seq<nat>
    decreases |slots| - i
  {
    if i >= |slots| then []
    else (if slots[i].status == Ready then [i] else []) + ReadyFrom(slots, i + 1)
  }

  lemma {:induction false} ReadyFromSpec(slots: seq<Slot>, i: nat)
    ensures forall k :: 0 <= k < |ReadyFrom(slots, i)| ==>
      i <= ReadyFrom(slots, i)[k] < |slots| && slots[ReadyFrom(slots, i)[k]].status == Ready
    ensures forall x :: i <= x < |slots| && slots[x].status == Ready ==> x in ReadyFrom(slots, i)
    decreases |slots| - i
  {
    if i < |slots| {
      ReadyFromSpec(slots, i + 1);
    }
  }

  lemma {:induction false} ReadyFromSame(a: seq<Slot>, b: seq<Slot>, i: nat)
    requires |a| == |b| && forall k :: i <= k < |a| ==> a[k] == b[k]
    ensures ReadyFrom(a, i) == ReadyFrom(b, i)
    decreases |a| - i
  {
    if i < |a| {
      ReadyFromSame(a, b, i + 1);
      var head := if a[i].status == Ready then [i] else [];
      assert a[i] == b[i];
      assert ReadyFrom(a, i) == head + ReadyFrom(a, i + 1);
      assert ReadyFrom(b, i) == head + ReadyFrom(b, i + 1);
    }
  }

  /** The loop of `OnStartAll` from slot i, `budget` more starts allowed. */
  function StartFrom(slots: seq<Slot>, m: Machine, image: string, i: nat, budget: int): (r: (seq<Slot>, nat))
    ensures |r.0| == |slots|
    decreases |slots| - i
  {
    if i >= |slots| || budget <= 0 then (slots, 0)
    else if slots[i].status == Ready then
      var r := StartFrom(slots[i := Launch(slots[i], m, image)], m, image, i + 1, budget - 1);
      (r.0, r.1 + 1)
    else StartFrom(slots, m, image, i + 1, budget)
  }

  function Cap(budget: int, available: nat): (n: nat)
    ensures n <= available && (budget >= 0 ==> n <= budget)
    ensures n == available || n == budget || (budget < 0 && n == 0)
  {
    if budget <= 0 then 0 else if budget < available then budget else available
  }

  /** Slot j once the slots listed in `launched` have been launched. */
  function LaunchedSlot(slots: seq<Slot>, m: Machine, image: string, launched: seq<nat>, j: nat): Slot
    requires j < |slots|
  {
    if j in launched then Launch(slots[j], m, image) else slots[j]
  }

  lemma {:induction false} StartFromSpec(slots: seq<Slot>, m: Machine, image: string, i: nat, budget: int)
    ensures var rs := ReadyFrom(slots, i); var n := Cap(budget, |rs|);
      StartFrom(slots, m, image, i, budget).1 == n &&
      forall j :: 0 <= j < |slots| ==>
        StartFrom(slots, m, image, i, budget).0[j] == LaunchedSlot(slots, m, image, rs[..n], j)
    decreases |slots| - i, 1
  {
    var rs := ReadyFrom(slots, i);
    if i >= |slots| || budget <= 0 {
    } else if slots[i].status == Ready {
      StartFromReady(slots, m, image, i, budget);
    } else {
      StartFromSpec(slots, m, image, i + 1, budget);
      assert rs == ReadyFrom(slots, i + 1);
    }
  }

  /** The step of `StartFromSpec` that launches slot i. */
  lemma {:induction false} StartFromReady(slots: seq<Slot>, m: Machine, image: string, i: nat, budget: int)
    requires i < |slots| && budget > 0 && slots[i].status == Ready
    ensures var rs := ReadyFrom(slots, i); var n := Cap(budget, |rs|);
      StartFrom(slots, m, image, i, budget).1 == n &&
      forall j :: 0 <= j < |slots| ==>
        StartFrom(slots, m, image, i, budget).0[j] == LaunchedSlot(slots, m, image, rs[..n], j)
    decreases |slots| - i, 0
  {
    var next := slots[i := Launch(slots[i], m, image)];
    var rest := ReadyFrom(slots, i + 1);
    var rs := ReadyFrom(slots, i);
    StartFromSpec(next, m, image, i + 1, budget - 1);
    ReadyFromSame(next, slots, i + 1);
    ReadyFromSpec(slots, i + 1);
    assert rs == [i] + rest;
    var n := Cap(budget, |rs|);
    assert n - 1 == Cap(budget - 1, |rest|);
    assert rs[..n] == [i] + rest[..n - 1];
    assert forall k :: 0 <= k < n - 1 ==> rest[..n - 1][k] == rest[k];
    var r := StartFrom(next, m, image, i + 1, budget - 1);
    assert StartFrom(slots, m, image, i, budget) == (r.0, r.1 + 1);
    forall j | 0 <= j < |slots|
      ensures r.0[j] == LaunchedSlot(slots, m, image, rs[..n], j)
    {
      assert r.0[j] == LaunchedSlot(next, m, image, rest[..n - 1], j);
    }
  }

  datatype StartAllOutcome = NoImage | NothingReady | Started(count: nat)

  /**
   * `OnStartAll`: refused without a valid image. Otherwise the combo box's
   * choice (when it has one) becomes the maximum, and Ready slots are started
   * in ascending order until that many starts have been attempted, launch
   * failures included; slots already cloning do not count.
   */
  function StartAll(d: Dialog, m: Machine, comboSel: int): (r: (Dialog, StartAllOutcome))
    ensures !ValidImage(m, d.imagePath) <==> r.1 == NoImage
    ensures r.1 == NoImage ==> r.0 == d
    ensures |r.0.slots| == |d.slots|
    ensures r.0 == d.(slots := r.0.slots, maxConcurrent := r.0.maxConcurrent)
  {
    if !ValidImage(m, d.imagePath) then (d, NoImage)
    else
      var maxC := if comboSel != CB_ERR then comboSel + 1 else d.maxConcurrent;
      var r := StartFrom(d.slots, m, d.imagePath, 0, maxC);
      (d.(slots := r.0, maxConcurrent := maxC), if r.1 == 0 then NothingReady else Started(r.1))
  }

  /**
   * Start-all launches exactly the first min(maximum, number of Ready slots)
   * Ready slots in slot order and touches no other slot; it reports nothing
   * to do exactly when that number is 0.
   */
  lemma StartAllSpec(d: Dialog, m: Machine, comboSel: int)
    requires ValidImage(m, d.imagePath)
    ensures var r := StartAll(d, m, comboSel);
      var maxC := if comboSel != CB_ERR then comboSel + 1 else d.maxConcurrent;
      var rs := ReadyFrom(d.slots, 0); var n := Cap(maxC, |rs|);
      r.0.maxConcurrent == maxC &&
      (r.1 == NothingReady <==> n == 0) && (r.1.Started? ==> r.1.count == n) &&
      forall j :: 0 <= j < |d.slots| ==>
        r.0.slots[j] == LaunchedSlot(d.slots, m, d.imagePath, rs[..n], j)
  {
    var maxC := if comboSel != CB_ERR then comboSel + 1 else d.maxConcurrent;
    StartFromSpec(d.slots, m, d.imagePath, 0, maxC);
  }

  /** Ready slots past the cap stay Ready, and every slot that was not Ready is untouched. */
  lemma StartAllLeavesTheRest(d: Dialog, m: Machine, comboSel: int, j: nat)
    requires ValidImage(m, d.imagePath) && j < |d.slots|
    ensures var rs := ReadyFrom(d.slots, 0);
      var n := Cap(if comboSel != CB_ERR then comboSel + 1 else d.maxConcurrent, |rs|);
      d.slots[j].status != Ready || j !in rs[..n] ==> StartAll(d, m, comboSel).0.slots[j] == d.slots[j]
  {
    StartAllSpec(d, m, comboSel);
    var rs := ReadyFrom(d.slots, 0);
    ReadyFromSpec(d.slots, 0);
    var n := Cap(if comboSel != CB_ERR then comboSel + 1 else d.maxConcurrent, |rs|);
    assert forall k :: 0 <= k < n ==> rs[..n][k] == rs[k];
  }

  // ----- detecting new drives ----------------------------------------------------------

  /** The first Empty slot from j on. */
  function FirstEmpty(slots: seq<Slot>, j: nat): (r: Option<nat>)
    ensures r.Some? ==> j <= r.value < |slots| && IsEmpty(slots[r.value])
    decreases |slots| - j
  {
    if j >= |slots| then None
    else if IsEmpty(slots[j]) then Some(j)
    else FirstEmpty(slots, j + 1)
  }

  lemma {:induction false} FirstEmptySpec(slots: seq<Slot>, j: nat)
    ensures FirstEmpty(slots, j).Some? ==>
      forall k :: j <= k < FirstEmpty(slots, j).value ==> !IsEmpty(slots[k])
    ensures FirstEmpty(slots, j).None? ==> forall k :: j <= k < |slots| ==> !IsEmpty(slots[k])
    decreases |slots| - j
  {
    if j < |slots| && !IsEmpty(slots[j]) {
      FirstEmptySpec(slots, j + 1);
    }
  }

  /** One letter of `DetectNewDrives`. */
  function DetectOne(d: Dialog, m: Machine, i: nat): (e: Dialog)
    requires i < DM.LETTER_COUNT
    ensures |e.slots| == |d.slots| && e == d.(slots := e.slots)
  {
    if !Removable(m, i) || Tracked(d.slots, DM.LetterOf(i)) then d
    else match FirstEmpty(d.slots, 0)
      case None => d
      case Some(j) =>
        var bound := d.(slots := d.slots[j := Bind(d.slots[j], m, i)]);
        if d.autoClone && ValidImage(m, d.imagePath) then StartClone(bound, m, j) else bound
  }

  /**
   * One letter: only an empty slot changes, and it receives that letter; a
   * removable letter is held by some slot afterwards unless every slot is taken.
   */
  lemma DetectOneSpec(d: Dialog, m: Machine, i: nat)
    requires i < DM.LETTER_COUNT && EmptyUnbound(d.slots)
    ensures var e := DetectOne(d, m, i);
      EmptyUnbound(e.slots) &&
      (forall k :: 0 <= k < |d.slots| && !IsEmpty(d.slots[k]) ==> e.slots[k] == d.slots[k]) &&
      (forall k :: 0 <= k < |d.slots| && IsEmpty(d.slots[k]) && e.slots[k] != d.slots[k] ==>
         e.slots[k].letter == DM.LetterOf(i) && !IsEmpty(e.slots[k])) &&
      (Removable(m, i) ==> Tracked(e.slots, DM.LetterOf(i)) || Full(e.slots))
  {
    var letter := DM.LetterOf(i);
    if Removable(m, i) && !Tracked(d.slots, letter) {
      FirstEmptySpec(d.slots, 0);
      match FirstEmpty(d.slots, 0)
      case None =>
      case Some(j) =>
        DetectOneBinds(d, m, i, j);
    }
  }

  /** The drive a new letter puts into slot j: bound, then launched when auto-clone applies. */
  function Placed(d: Dialog, m: Machine, i: LetterIndex, j: nat): (t: Slot)
    requires j < |d.slots|
    ensures !IsEmpty(t) && t.letter == DM.LetterOf(i)
  {
    var b := Bind(d.slots[j], m, i);
    if d.autoClone && ValidImage(m, d.imagePath) then Launch(b, m, d.imagePath) else b
  }

  lemma DetectOneBinds(d: Dialog, m: Machine, i: nat, j: nat)
    requires i < DM.LETTER_COUNT && Removable(m, i) && !Tracked(d.slots, DM.LetterOf(i))
    requires FirstEmpty(d.slots, 0).Some? && FirstEmpty(d.slots, 0).value == j
    ensures DetectOne(d, m, i).slots == d.slots[j := Placed(d, m, i, j)]
  {
  }

  function DetectFrom(d: Dialog, m: Machine, i: nat): (e: Dialog)
    ensures |e.slots| == |d.slots| && e == d.(slots := e.slots)
    decreases DM.LETTER_COUNT - i
  {
    if i >= DM.LETTER_COUNT then d else DetectFrom(DetectOne(d, m, i), m, i + 1)
  }

  lemma {:induction false} DetectFromSpec(d: Dialog, m: Machine, i: nat)
    requires EmptyUnbound(d.slots)
    ensures var e := DetectFrom(d, m, i);
      EmptyUnbound(e.slots) &&
      (forall k :: 0 <= k < |d.slots| && !IsEmpty(d.slots[k]) ==> e.slots[k] == d.slots[k]) &&
      (forall x :: i <= x < DM.LETTER_COUNT && Removable(m, x) ==>
         Tracked(e.slots, DM.LetterOf(x)) || Full(e.slots))
    decreases DM.LETTER_COUNT - i
  {
    if i < DM.LETTER_COUNT {
      var d1 := DetectOne(d, m, i);
      DetectOneSpec(d, m, i);
      DetectFromSpec(d1, m, i + 1);
      var e := DetectFrom(d1, m, i + 1);
      assert e == DetectFrom(d, m, i);
      if Removable(m, i) {
        if Tracked(d1.slots, DM.LetterOf(i)) {
          var k :| 0 <= k < |d1.slots| && d1.slots[k].letter == DM.LetterOf(i);
          assert e.slots[k] == d1.slots[k];
        } else {
          assert e.slots == d1.slots;
        }
      }
    }
  }

  /**
   * `DetectNewDrives`: each removable letter that no slot holds is bound to
   * the first empty slot, or dropped when there is none, and started at once
   * when auto-clone is on and the image is valid.
   */
  function DetectNewDrives(d: Dialog, m: Machine): (e: Dialog)
    ensures |e.slots| == |d.slots| && e == d.(slots := e.slots)
  {
    DetectFrom(d, m, 0)
  }

  /**
   * Detection never disturbs a slot that holds a drive, and afterwards every
   * removable letter is held by a slot unless all slots are taken.
   */
  lemma DetectNewDrivesSpec(d: Dialog, m: Machine)
    requires EmptyUnbound(d.slots)
    ensures var e := DetectNewDrives(d, m);
      EmptyUnbound(e.slots) &&
      (forall k :: 0 <= k < |d.slots| && !IsEmpty(d.slots[k]) ==> e.slots[k] == d.slots[k]) &&
      (forall x :: 0 <= x < DM.LETTER_COUNT && Removable(m, x) ==>
         Tracked(e.slots, DM.LetterOf(x)) || Full(e.slots))
  {
    DetectFromSpec(d, m, 0);
  }

  // ----- verification ------------------------------------------------------------------

  /**
   * The verdict of `VerifyDrive`: a digest passes when an expected value is
   * set and equal (case-sensitively); the drive passes when every set
   * expected value passed.
   */
  function Verdict(c: HashConfig, sha1: string, sha256: string): (v: VerificationResult)
    ensures v.sha1Value == sha1 && v.sha256Value == sha256
    ensures v.sha1Pass <==> c.sha1Expected != "" && sha1 == c.sha1Expected
    ensures v.sha256Pass <==> c.sha256Expected != "" && sha256 == c.sha256Expected
    ensures v.overallPass <==> (c.sha1Expected == "" || v.sha1Pass) && (c.sha256Expected == "" || v.sha256Pass)
  {
    var p1 := c.sha1Expected != "" && sha1 == c.sha1Expected;
    var p256 := c.sha256Expected != "" && sha256 == c.sha256Expected;
    VerificationResult(p1, p256, (c.sha1Expected == "" || p1) && (c.sha256Expected == "" || p256),
                       sha1, sha256, "")
  }

  /** The drive passes exactly when each expected value is unset or equal to the drive's digest. */
  lemma VerdictPasses(c: HashConfig, sha1: string, sha256: string)
    ensures Verdict(c, sha1, sha256).overallPass <==>
      (c.sha1Expected == "" || c.sha1Expected == sha1) && (c.sha256Expected == "" || c.sha256Expected == sha256)
    ensures c.sha1Expected == "" && c.sha256Expected == "" ==> Verdict(c, sha1, sha256).overallPass
  {
  }

  /**
   * `VerifyDrive`: an empty slot is left alone. A drive that cannot be opened
   * or hashed fails, keeping its previous result. Otherwise the verdict is
   * recorded, the slot is Complete or Failed with it, and a failure with
   * stop-on-fail checked stops every active slot.
   */
  function VerifyDrive(d: Dialog, m: Machine, i: nat): (e: Dialog)
    requires i < |d.slots|
    ensures |e.slots| == |d.slots| && e == d.(slots := e.slots)
    ensures IsEmpty(d.slots[i]) ==> e == d
  {
    var s := d.slots[i];
    if IsEmpty(s) then d
    else match m.digests(s.letter)
      case None => d.(slots := d.slots[i := s.(status := Failed)])
      case Some(h) =>
        var v := Verdict(d.config, h.0, h.1);
        var done := d.(slots := d.slots[i := s.(verify := v, status := if v.overallPass then Complete else Failed)]);
        if !v.overallPass && d.stopOnFailBox then StopAll(done) else done
  }

  lemma VerifyDriveSpec(d: Dialog, m: Machine, i: nat)
    requires i < |d.slots| && !IsEmpty(d.slots[i])
    ensures var e := VerifyDrive(d, m, i); var s := d.slots[i];
      (m.digests(s.letter).None? ==> e.slots == d.slots[i := s.(status := Failed)]) &&
      (m.digests(s.letter).Some? ==>
        var v := Verdict(d.config, m.digests(s.letter).value.0, m.digests(s.letter).value.1);
        e.slots[i] == s.(verify := v, status := if v.overallPass then Complete else Failed) &&
        (v.overallPass || !d.stopOnFailBox ==> forall k :: 0 <= k < |d.slots| && k != i ==> e.slots[k] == d.slots[k]) &&
        (!v.overallPass && d.stopOnFailBox ==> CanClose(e)))
    ensures forall k :: 0 <= k < |d.slots| && k != i ==>
      VerifyDrive(d, m, i).slots[k] == d.slots[k] ||
      (IsActive(d.slots[k]) && VerifyDrive(d, m, i).slots[k] == Stop(d.slots[k]))
    ensures VerifyDrive(d, m, i).slots[i].status in {Complete, Failed}
  {
    var s := d.slots[i];
    match m.digests(s.letter)
    case None =>
    case Some(h) =>
      var v := Verdict(d.config, h.0, h.1);
      var done := d.(slots := d.slots[i := s.(verify := v, status := if v.overallPass then Complete else Failed)]);
      StopAllSpec(done);
  }

  // ----- the timer ---------------------------------------------------------------------

  /** A cloning slot whose process the timer will treat as finished. */
  predicate Resolves(m: Machine, s: Slot)
  {
    s.status == Cloning && s.pid != 0 && m.exitCode(s.pid) != Some(STILL_ACTIVE)
  }

  /**
   * One slot of `OnTimer`. A process that cannot be opened counts as a
   * success and the drive is verified whatever the check box says. An exit
   * code of 259 is indistinguishable from a running process.
   */
  function TimerOne(d: Dialog, m: Machine, i: nat): (e: Dialog)
    requires i < |d.slots|
    ensures |e.slots| == |d.slots| && e == d.(slots := e.slots)
  {
    var s := d.slots[i];
    if s.status != Cloning || s.pid == 0 then d
    else match m.exitCode(s.pid)
      case Some(code) =>
        if code == STILL_ACTIVE then d
        else if code == 0 then
          var ended := SetProgress(s.(pid := 0), 100);
          if d.verifyBox then VerifyDrive(d.(slots := d.slots[i := ended]), m, i)
          else d.(slots := d.slots[i := ended.(status := Complete)])
        else d.(slots := d.slots[i := s.(pid := 0, status := Failed)])
      case None =>
        VerifyDrive(d.(slots := d.slots[i := s.(pid := 0, progress := 100, status := Complete)]), m, i)
  }

  /**
   * The timer's rule for one slot: nothing happens unless the slot is cloning
   * with a process that no longer reports 259; then the slot ends Complete or
   * Failed with no process, at 100% after exit code 0 or an unopenable
   * process, Failed after any other exit code, and Complete after exit code 0
   * with verification off. Other slots are at most stopped.
   */
  lemma TimerOneSpec(d: Dialog, m: Machine, i: nat)
    requires i < |d.slots|
    ensures var e := TimerOne(d, m, i); var s := d.slots[i];
      (!Resolves(m, s) ==> e == d) &&
      (Resolves(m, s) ==>
        e.slots[i].status in {Complete, Failed} && e.slots[i].pid == 0 &&
        (m.exitCode(s.pid).None? || m.exitCode(s.pid) == Some(0) ==> e.slots[i].progress == 100) &&
        (m.exitCode(s.pid).Some? && m.exitCode(s.pid).value !in {0, STILL_ACTIVE} ==>
           e.slots[i] == s.(pid := 0, status := Failed) && e.slots == d.slots[i := e.slots[i]]) &&
        (m.exitCode(s.pid) == Some(0) && !d.verifyBox ==>
           e.slots[i].status == Complete && e.slots == d.slots[i := e.slots[i]])) &&
      forall k :: 0 <= k < |d.slots| && k != i ==>
        e.slots[k] == d.slots[k] || (IsActive(d.slots[k]) && e.slots[k] == Stop(d.slots[k]))
  {
    var s := d.slots[i];
    if Resolves(m, s) {
      match m.exitCode(s.pid)
      case Some(code) =>
        if code == 0 && d.verifyBox {
          VerifyDriveSpec(d.(slots := d.slots[i := SetProgress(s.(pid := 0), 100)]), m, i);
        }
      case None =>
        VerifyDriveSpec(d.(slots := d.slots[i := s.(pid := 0, progress := 100, status := Complete)]), m, i);
    }
  }

  function TimerFrom(d: Dialog, m: Machine, i: nat): (e: Dialog)
    ensures |e.slots| == |d.slots| && e == d.(slots := e.slots)
    decreases |d.slots| - i
  {
    if i >= |d.slots| then d else TimerFrom(TimerOne(d, m, i), m, i + 1)
  }

  lemma {:induction false} TimerFromSpec(d: Dialog, m: Machine, i: nat)
    ensures forall j :: i <= j < |d.slots| && Resolves(m, d.slots[j]) ==>
      TimerFrom(d, m, i).slots[j].status != Cloning
    ensures forall j :: 0 <= j < |d.slots| && d.slots[j].status != Cloning ==>
      TimerFrom(d, m, i).slots[j].status != Cloning
    decreases |d.slots| - i
  {
    if i < |d.slots| {
      var d1 := TimerOne(d, m, i);
      TimerOneSpec(d, m, i);
      TimerFromSpec(d1, m, i + 1);
    }
  }

  /** `OnTimer`: detect new drives, then settle every slot in order. */
  function OnTimer(d: Dialog, m: Machine): (e: Dialog)
    ensures |e.slots| == |d.slots| && e == d.(slots := e.slots)
  {
    TimerFrom(DetectNewDrives(d, m), m, 0)
  }

  /**
   * After a tick no slot whose process has ended is still cloning, and the
   * tick never puts a slot into Cloning except by starting a newly detected drive.
   */
  lemma OnTimerSettles(d: Dialog, m: Machine)
    ensures var seen := DetectNewDrives(d, m);
      (forall j :: 0 <= j < |d.slots| && Resolves(m, seen.slots[j]) ==> OnTimer(d, m).slots[j].status != Cloning) &&
      (forall j :: 0 <= j < |d.slots| && seen.slots[j].status != Cloning ==> OnTimer(d, m).slots[j].status != Cloning)
  {
    TimerFromSpec(DetectNewDrives(d, m), m, 0);
  }

  /** A process that exited with code 259 keeps its slot cloning: the timer cannot tell it from a running one. */
  lemma ExitCode259LooksRunning(d: Dialog, m: Machine, i: nat)
    requires i < |d.slots| && d.slots[i].status == Cloning && d.slots[i].pid != 0
    requires m.exitCode(d.slots[i].pid) == Some(STILL_ACTIVE)
    ensures TimerOne(d, m, i) == d
  {
  }

  // ----- the status line ---------------------------------------------------------------

  /** `UpdateStatus`: the numbers of active, complete and failed slots. */
  function StatusCounts(slots: seq<Slot>): (r: (nat, nat, nat))
  {
    if |slots| == 0 then (0, 0, 0)
    else
      var rest := StatusCounts(slots[1..]);
      var s := slots[0];
      (rest.0 + (if IsActive(s) then 1 else 0), rest.1 + (if IsComplete(s) then 1 else 0),
       rest.2 + (if IsFailed(s) then 1 else 0))
  }

  /** No slot is counted twice, and the active count is 0 exactly when the dialog may close. */
  lemma {:induction false} StatusCountsSpec(slots: seq<Slot>)
    ensures StatusCounts(slots).0 + StatusCounts(slots).1 + StatusCounts(slots).2 <= |slots|
    ensures StatusCounts(slots).0 == 0 <==> forall j :: 0 <= j < |slots| ==> !IsActive(slots[j])
  {
    if |slots| > 0 {
      StatusCountsSpec(slots[1..]);
      QueriesExclusive(slots[0]);
      assert forall j :: 1 <= j < |slots| ==> slots[1..][j - 1] == slots[j];
    }
  }
}
