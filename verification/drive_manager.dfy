/**
 * Removable-drive discovery for the multi-drive front-end: the 26 drive letters
 * are probed, the removable ones are grouped by the physical disk they live on
 * (one slot per USB stick, however many partitions it has), and a monitor fires
 * a change event whenever the list of disk numbers changes.
 * The Win32 queries are not modelled; their answers are data (`Win32`).
 */
module DriveManager {
  import opened Common

  const DRIVE_REMOVABLE: int := 2
  const POLL_INTERVAL_MS: nat := 2000
  const LETTER_COUNT: nat := 26

  /** One physical removable disk and the partition letters found on it. */
  datatype DriveInfo = DriveInfo(
    diskNumber: int,
    firstLetter: string,
    allLetters: seq<string>,
    volumeLabel: string,
    sizeBytes: int)

  /**
   * The answers of the operating system during one scan: the logical-drive
   * bitmask, the drive type of a root such as "E:\", the physical disk number
   * of a letter such as "E:" (negative when it cannot be determined), the volume
   * label of a root and the byte size of a physical disk (0 on failure).
   */
  datatype Win32 = Win32(
    logicalDrives: nat,
    driveType: string -> int,
    diskNumber: string -> int,
    labelOf: string -> string,
    diskSize: int -> int)

  // ----- one drive --------------------------------------------------------------

  const TargetPrefix: string := "\\Device\\Harddisk"
  const TargetSuffix: string := "\\Partition0"

  /** The ODINC `-target` argument: the whole physical disk, never a volume. */
  function TargetPath(diskNumber: int): (p: string)
    ensures StartsWith(p, TargetPrefix)
  {
    TargetPrefix + IntToDecimal(diskNumber) + TargetSuffix
  }

  /** Reads the disk number back out of a whole-disk target path. */
  function DiskOfTarget(p: string): Option<int>
  {
    if |p| >= |TargetPrefix| + |TargetSuffix| && p[..|TargetPrefix|] == TargetPrefix
       && p[|p| - |TargetSuffix|..] == TargetSuffix
    then ParseInt(p[|TargetPrefix|..|p| - |TargetSuffix|])
    else None
  }

  /** Every disk gets its own target path, and the path names that disk. */
  lemma TargetPathRoundTrip(diskNumber: int)
    ensures DiskOfTarget(TargetPath(diskNumber)) == Some(diskNumber)
  {
    var p := TargetPath(diskNumber);
    var d := IntToDecimal(diskNumber);
    assert p[..|TargetPrefix|] == TargetPrefix;
    assert p[|p| - |TargetSuffix|..] == TargetSuffix;
    assert p[|TargetPrefix|..|p| - |TargetSuffix|] == d;
    ParseIntOfDecimal(diskNumber);
  }

  /** How the size column is written; the one-decimal float text itself is not modelled. */
  datatype SizeText = Unknown | Scaled(unit: string, divisor: nat) | Bytes(text: string)

  const KiB: nat := 1024
  const MiB: nat := 1024 * 1024
  const GiB: nat := 1024 * 1024 * 1024

  /** `size_str`: "?" for an unknown size, else the largest unit not above the size. */
  function SizeStr(size: int): (t: SizeText)
    ensures t.Unknown? <==> size <= 0
    ensures t.Scaled? ==> t.divisor <= size && (t.divisor == GiB || size < t.divisor * 1024)
    ensures t.Scaled? ==> t.unit == (if t.divisor == GiB then "GB" else if t.divisor == MiB then "MB" else "KB")
    ensures t.Bytes? <==> 0 < size < KiB
    ensures t.Bytes? ==> t.text == NatToDecimal(size) + " B"
  {
    if size <= 0 then Unknown
    else if size >= GiB then Scaled("GB", GiB)
    else if size >= MiB then Scaled("MB", MiB)
    else if size >= KiB then Scaled("KB", KiB)
    else Bytes(NatToDecimal(size) + " B")
  }

  /** Trailing backslashes removed, as `str.rstrip("\\")`. */
  function StripBackslashes(s: string): (r: string)
    ensures |r| <= |s| && r == s[..|r|]
    ensures |r| > 0 ==> r[|r| - 1] != '\\'
    ensures forall i :: |r| <= i < |s| ==> s[i] == '\\'
  {
    if |s| > 0 && s[|s| - 1] == '\\' then StripBackslashes(s[..|s| - 1]) else s
  }

  /** `is_removable`: the drive type of the letter's root directory. */
  function IsRemovable(env: Win32, letter: string): bool
  {
    env.driveType(StripBackslashes(letter) + "\\") == DRIVE_REMOVABLE
  }

  /** A letter given with or without its root backslash is the same drive. */
  lemma {:induction false} IsRemovableRootForm(env: Win32, letter: string)
    ensures IsRemovable(env, letter + "\\") == IsRemovable(env, letter)
  {
    assert (letter + "\\")[..|letter|] == letter;
  }

  function Backslashes(k: nat): (r: string)
    ensures |r| == k && forall i :: 0 <= i < k ==> r[i] == '\\'
  {
    if k == 0 then "" else Backslashes(k - 1) + "\\"
  }

  /** Stripping ignores any number of backslashes appended to the text. */
  lemma {:induction false} StripAppendedBackslashes(s: string, k: nat)
    ensures StripBackslashes(s + Backslashes(k)) == StripBackslashes(s)
  {
    if k > 0 {
      assert (s + Backslashes(k))[..|s| + k - 1] == s + Backslashes(k - 1);
      StripAppendedBackslashes(s, k - 1);
    } else {
      assert s + Backslashes(k) == s;
    }
  }

  /** A letter followed by any number of backslashes is the same drive as the bare letter. */
  lemma IsRemovableIgnoresBackslashes(env: Win32, letter: string, k: nat)
    ensures IsRemovable(env, letter + Backslashes(k)) == IsRemovable(env, letter)
  {
    StripAppendedBackslashes(letter, k);
  }

  // ----- scanning -----------------------------------------------------------------

  function Pow2(i: nat): (p: nat)
    ensures p >= 1
  {
    if i == 0 then 1 else 2 * Pow2(i - 1)
  }

  predicate Bit(mask: nat, i: nat) { (mask / Pow2(i)) % 2 == 1 }

  /** "A:" .. "Z:". */
  function LetterOf(i: nat): (l: string)
    requires i < LETTER_COUNT
    ensures |l| == 2 && l[0] == (('A' as int) + i) as char && l[1] == ':'
  {
    [(('A' as int) + i) as char, ':']
  }

  function DiskOf(env: Win32, i: nat): int
    requires i < LETTER_COUNT
  {
    env.diskNumber(LetterOf(i))
  }

  /** Letter i takes part: present, removable and on a known physical disk. */
  predicate Contributes(env: Win32, i: nat)
    requires i < LETTER_COUNT
  {
    Bit(env.logicalDrives, i)
    && env.driveType(LetterOf(i) + "\\") == DRIVE_REMOVABLE
    && DiskOf(env, i) >= 0
  }

  /** Reference: the contributing letters among the first k that sit on disk d, in letter order. */
  function LettersOnDisk(env: Win32, d: int, k: nat): seq<string>
    requires k <= LETTER_COUNT
  {
    if k == 0 then []
    else LettersOnDisk(env, d, k - 1)
         + (if Contributes(env, k - 1) && DiskOf(env, k - 1) == d then [LetterOf(k - 1)] else [])
  }

  /** Reference: the disks that some contributing letter among the first k lives on. */
  function ContribDisks(env: Win32, k: nat): set<int>
    requires k <= LETTER_COUNT
  {
    if k == 0 then {}
    else ContribDisks(env, k - 1) + (if Contributes(env, k - 1) then {DiskOf(env, k - 1)} else {})
  }

  predicate Sorted(ds: seq<DriveInfo>)
  {
    forall a, b :: 0 <= a < b < |ds| ==> ds[a].diskNumber < ds[b].diskNumber
  }

  function Disks(ds: seq<DriveInfo>): set<int>
  {
    set j | 0 <= j < |ds| :: ds[j].diskNumber
  }

  /** An entry agrees with the reference after the first k letters. */
  predicate EntryOk(env: Win32, e: DriveInfo, k: nat)
    requires k <= LETTER_COUNT
  {
    e.allLetters == LettersOnDisk(env, e.diskNumber, k)
    && |e.allLetters| > 0
    && e.firstLetter == e.allLetters[0]
    && e.volumeLabel == env.labelOf(e.firstLetter + "\\")
    && e.sizeBytes == env.diskSize(e.diskNumber)
  }

  /** The scan after k letters: one entry per disk seen so far, ascending by disk number. */
  predicate Grouped(env: Win32, ds: seq<DriveInfo>, k: nat)
    requires k <= LETTER_COUNT
  {
    Sorted(ds)
    && Disks(ds) == ContribDisks(env, k)
    && forall j :: 0 <= j < |ds| ==> EntryOk(env, ds[j], k)
  }

  /**
   * Files a letter under its disk: appended to the existing entry, or a new
   * entry `entry` placed so that the list stays ordered by disk number.
   */
  function Merge(ds: seq<DriveInfo>, entry: DriveInfo): seq<DriveInfo>
  {
    if |ds| == 0 then [entry]
    else if ds[0].diskNumber == entry.diskNumber then
      [ds[0].(allLetters := ds[0].allLetters + [entry.firstLetter])] + ds[1..]
    else if ds[0].diskNumber > entry.diskNumber then [entry] + ds
    else [ds[0]] + Merge(ds[1..], entry)
  }

  function Appended(e: DriveInfo, letter: string): DriveInfo
  {
    e.(allLetters := e.allLetters + [letter])
  }

  lemma {:induction false} MergeDisks(ds: seq<DriveInfo>, entry: DriveInfo)
    ensures Disks(Merge(ds, entry)) == Disks(ds) + {entry.diskNumber}
    decreases |ds|
  {
    if |ds| == 0 {
      DisksCons(entry, []);
    } else {
      assert ds == [ds[0]] + ds[1..];
      DisksCons(ds[0], ds[1..]);
      if ds[0].diskNumber == entry.diskNumber {
        DisksCons(Appended(ds[0], entry.firstLetter), ds[1..]);
      } else if ds[0].diskNumber > entry.diskNumber {
        DisksCons(entry, ds);
      } else {
        MergeDisks(ds[1..], entry);
        DisksCons(ds[0], Merge(ds[1..], entry));
      }
    }
  }

  /** The disks of a list are its head's disk and the disks of its tail. */
  lemma DisksCons(e: DriveInfo, t: seq<DriveInfo>)
    ensures Disks([e] + t) == {e.diskNumber} + Disks(t)
  {
    var r := [e] + t;
    forall x | x in Disks(t)
      ensures x in Disks(r)
    {
      var k :| 0 <= k < |t| && t[k].diskNumber == x;
      assert r[k + 1] == t[k];
    }
    forall x | x in Disks(r)
      ensures x == e.diskNumber || x in Disks(t)
    {
      var k :| 0 <= k < |r| && r[k].diskNumber == x;
      if k > 0 { assert r[k] == t[k - 1]; }
    }
    assert r[0].diskNumber in Disks(r);
  }

  lemma {:induction false} MergeSorted(ds: seq<DriveInfo>, entry: DriveInfo)
    requires Sorted(ds)
    ensures Sorted(Merge(ds, entry))
    decreases |ds|
  {
    if |ds| > 0 && ds[0].diskNumber < entry.diskNumber {
      var t := ds[1..];
      MergeSorted(t, entry);
      MergeDisks(t, entry);
      var rt := Merge(t, entry);
      assert Merge(ds, entry) == [ds[0]] + rt;
      forall j | 0 <= j < |rt|
        ensures ds[0].diskNumber < rt[j].diskNumber
      {
        assert rt[j].diskNumber in Disks(rt);
        if rt[j].diskNumber != entry.diskNumber {
          var k :| 0 <= k < |t| && t[k].diskNumber == rt[j].diskNumber;
          assert ds[k + 1] == t[k];
        }
      }
      ConsSorted(ds[0], rt);
    }
  }

  /** An entry below every disk of a sorted list, put in front of it, keeps it sorted. */
  lemma ConsSorted(head: DriveInfo, rest: seq<DriveInfo>)
    requires Sorted(rest)
    requires forall j :: 0 <= j < |rest| ==> head.diskNumber < rest[j].diskNumber
    ensures Sorted([head] + rest)
  {
    var r := [head] + rest;
    forall p, q | 0 <= p < q < |r|
      ensures r[p].diskNumber < r[q].diskNumber
    {
      assert r[q] == rest[q - 1];
      if p > 0 {
        assert r[p] == rest[p - 1];
      }
    }
  }

  /** Entries of other disks are taken over unchanged. */
  lemma {:induction false} MergeKeepsOthers(ds: seq<DriveInfo>, entry: DriveInfo)
    ensures forall j :: 0 <= j < |Merge(ds, entry)| && Merge(ds, entry)[j].diskNumber != entry.diskNumber
              ==> Merge(ds, entry)[j] in ds
    decreases |ds|
  {
    if |ds| > 0 && ds[0].diskNumber < entry.diskNumber {
      MergeKeepsOthers(ds[1..], entry);
      var r := Merge(ds, entry);
      var rt := Merge(ds[1..], entry);
      assert r == [ds[0]] + rt;
      assert forall j :: 1 <= j < |r| ==> r[j] == rt[j - 1];
      assert forall x :: x in ds[1..] ==> x in ds;
    }
  }

  /** The entry of the letter's disk is the old one with the letter appended, or the new one. */
  lemma {:induction false} MergeFiles(ds: seq<DriveInfo>, entry: DriveInfo)
    requires Sorted(ds)
    ensures forall j :: 0 <= j < |Merge(ds, entry)| && Merge(ds, entry)[j].diskNumber == entry.diskNumber ==>
              (entry.diskNumber !in Disks(ds) && Merge(ds, entry)[j] == entry)
              || exists i :: 0 <= i < |ds| && ds[i].diskNumber == entry.diskNumber
                             && Merge(ds, entry)[j] == Appended(ds[i], entry.firstLetter)
    decreases |ds|
  {
    var r := Merge(ds, entry);
    if |ds| == 0 {
    } else if ds[0].diskNumber == entry.diskNumber {
      assert r[0] == Appended(ds[0], entry.firstLetter);
      assert forall j :: 1 <= j < |r| ==> r[j] == ds[j];
    } else if ds[0].diskNumber > entry.diskNumber {
      assert entry.diskNumber !in Disks(ds);
      assert forall j :: 1 <= j < |r| ==> r[j] == ds[j - 1];
    } else {
      var t := ds[1..];
      MergeFiles(t, entry);
      var rt := Merge(t, entry);
      assert r == [ds[0]] + rt;
      forall j | 0 <= j < |r| && r[j].diskNumber == entry.diskNumber
        ensures (entry.diskNumber !in Disks(ds) && r[j] == entry)
          || exists i :: 0 <= i < |ds| && ds[i].diskNumber == entry.diskNumber
                         && r[j] == Appended(ds[i], entry.firstLetter)
      {
        assert j >= 1 && r[j] == rt[j - 1];
        if entry.diskNumber !in Disks(t) && rt[j - 1] == entry {
          assert entry.diskNumber !in Disks(ds) by {
            assert forall k :: 1 <= k < |ds| ==> ds[k] == t[k - 1];
          }
        } else {
          var i :| 0 <= i < |t| && t[i].diskNumber == entry.diskNumber
                   && rt[j - 1] == Appended(t[i], entry.firstLetter);
          assert ds[i + 1] == t[i];
        }
      }
    }
  }

  /** No contributing letter on a disk never seen: its reference letter list is empty. */
  lemma {:induction false} UnseenDiskHasNoLetters(env: Win32, d: int, k: nat)
    requires k <= LETTER_COUNT && d !in ContribDisks(env, k)
    ensures LettersOnDisk(env, d, k) == []
    decreases k
  {
    if k > 0 {
      UnseenDiskHasNoLetters(env, d, k - 1);
    }
  }

  /** One probe of the scan: letter i, if it contributes, is filed under its disk. */
  function Step(env: Win32, ds: seq<DriveInfo>, i: nat): seq<DriveInfo>
    requires i < LETTER_COUNT
  {
    if Contributes(env, i) then
      var l := LetterOf(i);
      Merge(ds, DriveInfo(DiskOf(env, i), l, [l], env.labelOf(l + "\\"), env.diskSize(DiskOf(env, i))))
    else ds
  }

  lemma StepOk(env: Win32, ds: seq<DriveInfo>, i: nat)
    requires i < LETTER_COUNT && Grouped(env, ds, i)
    ensures Grouped(env, Step(env, ds, i), i + 1)
  {
    if Contributes(env, i) {
      var l := LetterOf(i);
      var d := DiskOf(env, i);
      var entry := DriveInfo(d, l, [l], env.labelOf(l + "\\"), env.diskSize(d));
      MergeDisks(ds, entry);
      MergeSorted(ds, entry);
      MergeKeepsOthers(ds, entry);
      MergeFiles(ds, entry);
      var r := Merge(ds, entry);
      forall j | 0 <= j < |r|
        ensures EntryOk(env, r[j], i + 1)
      {
        if r[j].diskNumber != d {
          var k :| 0 <= k < |ds| && ds[k] == r[j];
          assert EntryOk(env, ds[k], i);
        } else if d !in Disks(ds) && r[j] == entry {
          UnseenDiskHasNoLetters(env, d, i);
        } else {
          var k :| 0 <= k < |ds| && ds[k].diskNumber == d && r[j] == Appended(ds[k], l);
          assert EntryOk(env, ds[k], i);
        }
      }
    } else {
      forall j | 0 <= j < |ds|
        ensures EntryOk(env, ds[j], i + 1)
      {
        assert EntryOk(env, ds[j], i);
      }
    }
  }

  /**
   * `get_removable_drives`: one entry per physical removable disk, ordered by
   * disk number, each holding its partition letters in letter order, with the
   * label of the first letter's volume and the size of the disk.
   */
  method GetRemovableDrives(env: Win32) returns (ds: seq<DriveInfo>)
    ensures Grouped(env, ds, LETTER_COUNT)
  {
    ds := [];
    var i := 0;
    while i < LETTER_COUNT
      invariant i <= LETTER_COUNT
      invariant Grouped(env, ds, i)
    {
      StepOk(env, ds, i);
      ds := Step(env, ds, i);
      i := i + 1;
    }
  }

  // ----- properties of a finished scan -------------------------------------------

  lemma {:induction false} LettersOnDiskMember(env: Win32, d: int, k: nat, i: nat)
    requires k <= LETTER_COUNT && i < LETTER_COUNT
    ensures LetterOf(i) in LettersOnDisk(env, d, k) <==> i < k && Contributes(env, i) && DiskOf(env, i) == d
    decreases k
  {
    if k > 0 {
      LettersOnDiskMember(env, d, k - 1, i);
      if i != k - 1 {
        assert LetterOf(i) != LetterOf(k - 1) by {
          assert LetterOf(i)[0] != LetterOf(k - 1)[0];
        }
      }
    }
  }

  lemma {:induction false} LettersOnDiskAscending(env: Win32, d: int, k: nat)
    requires k <= LETTER_COUNT
    ensures forall a :: 0 <= a < |LettersOnDisk(env, d, k)| ==>
              |LettersOnDisk(env, d, k)[a]| == 2 && (LettersOnDisk(env, d, k)[a][0] as int) < ('A' as int) + k
    ensures forall a, b :: 0 <= a < b < |LettersOnDisk(env, d, k)| ==>
              |LettersOnDisk(env, d, k)[a]| == 2 && |LettersOnDisk(env, d, k)[b]| == 2
              && LettersOnDisk(env, d, k)[a][0] < LettersOnDisk(env, d, k)[b][0]
    decreases k
  {
    if k > 0 {
      LettersOnDiskAscending(env, d, k - 1);
      var p := LettersOnDisk(env, d, k - 1);
      var ls := LettersOnDisk(env, d, k);
      if Contributes(env, k - 1) && DiskOf(env, k - 1) == d {
        assert ls == p + [LetterOf(k - 1)];
        assert ls[|p|][0] as int == ('A' as int) + k - 1;
        forall a | 0 <= a < |ls|
          ensures |ls[a]| == 2 && (ls[a][0] as int) < ('A' as int) + k
        {
          if a < |p| { assert ls[a] == p[a]; }
        }
        forall a, b | 0 <= a < b < |ls|
          ensures |ls[a]| == 2 && |ls[b]| == 2 && ls[a][0] < ls[b][0]
        {
          assert ls[a] == p[a];
          if b < |p| { assert ls[b] == p[b]; }
        }
      } else {
        assert ls == p;
      }
    }
  }

  function DiskNumbers(ds: seq<DriveInfo>): (ns: seq<int>)
    ensures |ns| == |ds| && forall j :: 0 <= j < |ds| ==> ns[j] == ds[j].diskNumber
  {
    seq(|ds|, j requires 0 <= j < |ds| => ds[j].diskNumber)
  }

  /**
   * Every contributing letter is listed under exactly one entry, the entry of
   * its own disk, and every listed letter contributes.
   */
  lemma LetterInExactlyOneEntry(env: Win32, ds: seq<DriveInfo>, i: nat)
    requires Grouped(env, ds, LETTER_COUNT) && i < LETTER_COUNT
    ensures Contributes(env, i) ==> DiskOf(env, i) in Disks(ds)
    ensures forall j :: 0 <= j < |ds| ==>
      (LetterOf(i) in ds[j].allLetters <==> Contributes(env, i) && DiskOf(env, i) == ds[j].diskNumber)
  {
    ContribDisksMember(env, LETTER_COUNT, i);
    forall j | 0 <= j < |ds|
      ensures LetterOf(i) in ds[j].allLetters <==> Contributes(env, i) && DiskOf(env, i) == ds[j].diskNumber
    {
      assert EntryOk(env, ds[j], LETTER_COUNT);
      LettersOnDiskMember(env, ds[j].diskNumber, LETTER_COUNT, i);
    }
  }

  lemma {:induction false} ContribDisksMember(env: Win32, k: nat, i: nat)
    requires k <= LETTER_COUNT && i < k
    ensures Contributes(env, i) ==> DiskOf(env, i) in ContribDisks(env, k)
    decreases k
  {
    if i < k - 1 {
      ContribDisksMember(env, k - 1, i);
    }
  }

  /** The first letter of an entry comes alphabetically before every other letter of its disk. */
  lemma FirstLetterIsLeast(env: Win32, ds: seq<DriveInfo>, j: nat, i: nat)
    requires Grouped(env, ds, LETTER_COUNT) && j < |ds| && i < LETTER_COUNT
    requires Contributes(env, i) && DiskOf(env, i) == ds[j].diskNumber
    ensures |ds[j].firstLetter| == 2 && ds[j].firstLetter[0] <= LetterOf(i)[0]
    ensures |ds[j].allLetters[|ds[j].allLetters| - 1]| == 2
            && ds[j].allLetters[|ds[j].allLetters| - 1][0] >= LetterOf(i)[0]
  {
    var d := ds[j].diskNumber;
    assert EntryOk(env, ds[j], LETTER_COUNT);
    LettersOnDiskMember(env, d, LETTER_COUNT, i);
    LettersOnDiskAscending(env, d, LETTER_COUNT);
    var ls := LettersOnDisk(env, d, LETTER_COUNT);
    var a :| 0 <= a < |ls| && ls[a] == LetterOf(i);
    assert ls[0][0] <= ls[a][0];
    assert ls[a][0] <= ls[|ls| - 1][0];
  }

  // ----- monitor ----------------------------------------------------------------------

  /** `DriveMonitor`: the last disk-number list seen and whether polling is on. */
  datatype Monitor = Monitor(last: seq<int>, running: bool)

  function NewMonitor(): (m: Monitor)
    ensures m.last == [] && !m.running
  {
    Monitor([], false)
  }

  /** What one `_poll` did: the new monitor, the drive list handed to the callback, and whether the next poll was scheduled. */
  datatype PollResult = PollResult(monitor: Monitor, fired: Option<seq<DriveInfo>>, rescheduled: bool)

  /**
   * `_poll`, given the scan's answer (`None` for an OSError during the scan):
   * a stopped monitor does nothing; otherwise the callback fires exactly when
   * the disk-number list differs from the recorded one, which is then replaced.
   */
  function Poll(m: Monitor, scan: Option<seq<DriveInfo>>): (r: PollResult)
    ensures r.rescheduled <==> m.running
    ensures r.monitor.running == m.running
    ensures r.fired.Some? <==> m.running && scan.Some? && DiskNumbers(scan.value) != m.last
    ensures r.fired.Some? ==> r.fired.value == scan.value && r.monitor.last == DiskNumbers(scan.value)
    ensures r.fired.None? ==> r.monitor == m
  {
    if !m.running then PollResult(m, None, false)
    else if scan.None? then PollResult(m, None, true)
    else
      var nums := DiskNumbers(scan.value);
      if nums != m.last then PollResult(m.(last := nums), Some(scan.value), true)
      else PollResult(m, None, true)
  }

  function StartMonitor(m: Monitor, scan: Option<seq<DriveInfo>>): (r: PollResult)
    ensures r.monitor.running && r.rescheduled
  {
    Poll(m.(running := true), scan)
  }

  function StopMonitor(m: Monitor): (r: Monitor)
    ensures !r.running && r.last == m.last
  {
    m.(running := false)
  }

  /** After the monitor has recorded a scan, the same disks again fire nothing. */
  lemma PollSettles(m: Monitor, s: seq<DriveInfo>, s2: seq<DriveInfo>)
    requires m.running && DiskNumbers(s) == DiskNumbers(s2)
    ensures Poll(Poll(m, Some(s)).monitor, Some(s2)).fired.None?
    ensures Poll(Poll(m, Some(s)).monitor, Some(s2)).monitor == Poll(m, Some(s)).monitor
  {
  }

  /** Labels and sizes do not matter: two scans with the same disk numbers poll alike. */
  lemma PollIgnoresLabels(m: Monitor, s: seq<DriveInfo>, s2: seq<DriveInfo>)
    requires DiskNumbers(s) == DiskNumbers(s2)
    ensures Poll(m, Some(s)).monitor == Poll(m, Some(s2)).monitor
    ensures Poll(m, Some(s)).fired.Some? <==> Poll(m, Some(s2)).fired.Some?
  {
  }

  /** An OSError during the scan is a silent no-op apart from the next poll. */
  lemma PollErrorIsQuiet(m: Monitor)
    ensures Poll(m, None).fired.None? && Poll(m, None).monitor == m
  {
  }
}
