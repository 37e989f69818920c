/**
 * The decision and arithmetic parts of the native single-drive imager's main
 * dialog: the names of split image files, the progress line, the detection
 * of a compact-flash card for auto-flash, the file-system column and the
 * image file remembered on close.
 */
module ODINDlg {
  import opened Common

  // ----- split file names --------------------------------------------------------------

  /** `rfind(c)`: the last position holding `c`, None for `npos`. */
  function LastIndexOf(s: string, c: char): (r: Option<nat>)
    ensures r.Some? ==> r.value < |s| && s[r.value] == c
    ensures r.Some? ==> forall k :: r.value < k < |s| ==> s[k] != c
    ensures r.None? ==> forall k :: 0 <= k < |s| ==> s[k] != c
  {
    if |s| == 0 then None
    else if s[|s| - 1] == c then Some(|s| - 1)
    else LastIndexOf(s[..|s| - 1], c)
  }

  /** A position holding `c` with no `c` after it is what `rfind` answers. */
  lemma LastIndexOfUnique(s: string, c: char, i: nat)
    requires i < |s| && s[i] == c
    requires forall k :: i < k < |s| ==> s[k] != c
    ensures LastIndexOf(s, c) == Some(i)
  {
  }

  /** The part number as `%04u` writes it. */
  function NumberText(fileNo: nat): (t: string)
    ensures |t| >= 4 && AllDigits(t) && DecimalValue(t) == fileNo
    ensures forall k :: 0 <= k < |t| ==> t[k] != '.'
  {
    DecimalRoundTrip(fileNo);
    ZeroPadValue(NatToDecimal(fileNo), 4);
    ZeroPad(NatToDecimal(fileNo), 4)
  }

  datatype NameOutcome = Named(name: string) | OutOfRange

  /**
   * `GetFileName` as written: the position of the last '.' is unsigned, so
   * the test for "no dot" never holds and a name without a dot reaches
   * `substr(npos)`, which throws `out_of_range`.
   */
  function GetFileNameAsWritten(fileNo: nat, fileName: string): (r: NameOutcome)
    ensures r == OutOfRange <==> forall k :: 0 <= k < |fileName| ==> fileName[k] != '.'
  {
    match LastIndexOf(fileName, '.')
    case None => OutOfRange
    case Some(dot) => Named(fileName[..dot] + NumberText(fileNo) + fileName[dot..])
  }

  /** A part name for an image file without an extension cannot be formed. */
  lemma NoDotThrows()
    ensures GetFileNameAsWritten(1, "backup") == OutOfRange
  {
  }

  /**
   * `GetFileName` as intended: the number goes before the extension, or at
   * the end of a name without one.
   */
  function GetFileName(fileNo: nat, fileName: string): (r: string)
    ensures GetFileNameAsWritten(fileNo, fileName).Named? ==> GetFileNameAsWritten(fileNo, fileName).name == r
    ensures (forall k :: 0 <= k < |fileName| ==> fileName[k] != '.') ==> r == fileName + NumberText(fileNo)
  {
    match LastIndexOf(fileName, '.')
    case None => fileName + NumberText(fileNo)
    case Some(dot) => fileName[..dot] + NumberText(fileNo) + fileName[dot..]
  }

  /** The three pieces of `x + y + z` are where they were put. */
  lemma Pieces(x: string, y: string, z: string)
    ensures var s := x + y + z;
      |s| == |x| + |y| + |z| && s[..|x|] == x && s[|x|..|x| + |y|] == y && s[|x| + |y|..] == z
  {
    var s := x + y + z;
    assert s[..|x|] == x;
    assert s[|x|..|x| + |y|] == y;
    assert s[|x| + |y|..] == z;
  }

  /** Inserting dot-free text before an extension keeps the extension's '.' as the last one. */
  lemma InsertKeepsLastDot(stem: string, num: string, ext: string)
    requires |ext| > 0 && ext[0] == '.'
    requires forall k :: 0 < k < |ext| ==> ext[k] != '.'
    requires forall k :: 0 <= k < |num| ==> num[k] != '.'
    ensures LastIndexOf(stem + num + ext, '.') == Some(|stem| + |num|)
  {
    var s := stem + num + ext;
    var at := |stem| + |num|;
    forall k | at < k < |s|
      ensures s[k] != '.'
    {
      assert s[k] == ext[k - at];
    }
    LastIndexOfUnique(s, '.', at);
  }

  /** The extension `rfind` finds starts with the only '.' in it. */
  lemma ExtensionHasOneDot(fileName: string, dot: nat)
    requires LastIndexOf(fileName, '.') == Some(dot)
    ensures |fileName[dot..]| > 0 && fileName[dot..][0] == '.'
    ensures forall k :: 0 < k < |fileName[dot..]| ==> fileName[dot..][k] != '.'
  {
    var ext := fileName[dot..];
    forall k | 0 < k < |ext|
      ensures ext[k] != '.'
    {
      assert ext[k] == fileName[dot + k];
    }
  }

  /**
   * A numbered name keeps the name's stem and extension, its own last '.'
   * still starts that extension, and the digits just before it are the part
   * number's text.
   */
  lemma NumberedNameKeepsExtension(fileNo: nat, fileName: string, dot: nat)
    requires LastIndexOf(fileName, '.') == Some(dot)
    ensures var r := GetFileName(fileNo, fileName);
      var n := |NumberText(fileNo)|;
      |r| == |fileName| + n && r[..dot] == fileName[..dot] && r[dot + n..] == fileName[dot..] &&
      LastIndexOf(r, '.').Some? && LastIndexOf(r, '.').value == dot + n && r[dot..dot + n] == NumberText(fileNo)
  {
    var stem, num, ext := fileName[..dot], NumberText(fileNo), fileName[dot..];
    GetFileNameWithDot(fileNo, fileName, dot);
    ExtensionHasOneDot(fileName, dot);
    NumberedPieces(stem, num, ext);
    var r := GetFileName(fileNo, fileName);
    assert r == stem + num + ext;
    assert |stem| == dot && |stem| + |ext| == |fileName|;
  }

  lemma GetFileNameWithDot(fileNo: nat, fileName: string, dot: nat)
    requires LastIndexOf(fileName, '.') == Some(dot)
    ensures GetFileName(fileNo, fileName) == fileName[..dot] + NumberText(fileNo) + fileName[dot..]
  {
  }

  /** The pieces of a numbered name, and its last '.', are where they were put. */
  lemma NumberedPieces(stem: string, num: string, ext: string)
    requires |ext| > 0 && ext[0] == '.'
    requires forall k :: 0 < k < |ext| ==> ext[k] != '.'
    requires forall k :: 0 <= k < |num| ==> num[k] != '.'
    ensures var r := stem + num + ext;
      |r| == |stem| + |num| + |ext| && r[..|stem|] == stem && r[|stem| + |num|..] == ext &&
      LastIndexOf(r, '.').Some? && LastIndexOf(r, '.').value == |stem| + |num| && r[|stem|..|stem| + |num|] == num
  {
    Pieces(stem, num, ext);
    InsertKeepsLastDot(stem, num, ext);
  }

  /** Two names of one length that hold different digit texts at one place differ. */
  lemma DistinctByMiddle(ra: string, rb: string, na: string, nb: string, at: nat, len: nat)
    requires |ra| == len + |na| && |rb| == len + |nb|
    requires at + |na| <= |ra| && at + |nb| <= |rb|
    requires ra[at..at + |na|] == na && rb[at..at + |nb|] == nb
    requires na != nb
    ensures ra != rb
  {
  }

  lemma AppendCancel(x: string, y: string, z: string)
    requires y != z
    ensures x + y != x + z
  {
    assert (x + y)[|x|..] == y;
    assert (x + z)[|x|..] == z;
  }

  /** The part number reads back from a numbered name, so different parts of one image get different names. */
  lemma NumberedNamesDistinct(a: nat, b: nat, fileName: string)
    requires a != b
    ensures GetFileName(a, fileName) != GetFileName(b, fileName)
  {
    var na, nb := NumberText(a), NumberText(b);
    assert na != nb;
    match LastIndexOf(fileName, '.')
    case None =>
      AppendCancel(fileName, na, nb);
    case Some(dot) =>
      NumberedNameKeepsExtension(a, fileName, dot);
      NumberedNameKeepsExtension(b, fileName, dot);
      DistinctByMiddle(GetFileName(a, fileName), GetFileName(b, fileName), na, nb, dot, |fileName|);
  }

  // ----- the progress line ----------------------------------------------------------------

  /** `DWORD` casts keep the low 32 bits. */
  const DWORD_RANGE: nat := 0x1_0000_0000

  lemma DivBounds(a: nat, b: nat)
    requires b > 0
    ensures (a / b) * b <= a < (a / b) * b + b
  {
    assert a == (a / b) * b + a % b;
  }

  lemma MulMono(a: int, b: int, c: nat)
    ensures a <= b ==> a * c <= b * c
  {
    assert b * c - a * c == (b - a) * c;
  }

  /** A duration split into `%02u:%02u:%02u` fields. */
  datatype Clock = Clock(hours: nat, minutes: nat, seconds: nat)

  function ClockOf(v: nat): (c: Clock)
    ensures c.minutes < 60 && c.seconds < 60
    ensures c.hours * 3600 + c.minutes * 60 + c.seconds == v
  {
    var rest := v % 3600;
    assert v == (v / 3600) * 3600 + rest;
    assert rest == (rest / 60) * 60 + rest % 60;
    assert rest % 60 == v % 60 by {
      assert v == ((v / 3600) * 60 + rest / 60) * 60 + rest % 60;
    }
    Clock(v / 3600, rest / 60, v % 60)
  }

  lemma ShortDecimal(n: nat)
    ensures n < 100 ==> |NatToDecimal(n)| <= 2
  {
    if 10 <= n < 100 {
      assert NatToDecimal(n) == NatToDecimal(n / 10) + [DigitChar(n % 10)];
    }
  }

  /** A field as `%02u` writes it. */
  function Two(n: nat): (t: string)
    ensures AllDigits(t) && DecimalValue(t) == n
    ensures n < 100 ==> |t| == 2
  {
    DecimalRoundTrip(n);
    ZeroPadValue(NatToDecimal(n), 2);
    ShortDecimal(n);
    ZeroPad(NatToDecimal(n), 2)
  }

  function ClockText(c: Clock): string
  {
    Two(c.hours) + ":" + Two(c.minutes) + ":" + Two(c.seconds)
  }

  const NO_ETA: string := "--:--:--"

  /** Reads `hh:mm:ss` text back as seconds. */
  function ReadClock(t: string): Option<nat>
  {
    if |t| == 8 && t[2] == ':' && t[5] == ':' && AllDigits(t[..2]) && AllDigits(t[3..5]) && AllDigits(t[6..]) then
      Some(DecimalValue(t[..2]) * 3600 + DecimalValue(t[3..5]) * 60 + DecimalValue(t[6..]))
    else None
  }

  lemma ClockTextPieces(h: string, m: string, sec: string)
    requires |h| == 2 && |m| == 2 && |sec| == 2
    ensures var t := h + ":" + m + ":" + sec;
      |t| == 8 && t[..2] == h && t[3..5] == m && t[6..] == sec && t[2] == ':' && t[5] == ':'
  {
    var t := h + ":" + m + ":" + sec;
    assert t[..2] == h;
    assert t[3..5] == m;
    assert t[6..] == sec;
  }

  lemma ReadClockFields(t: string, h: string, m: string, sec: string)
    requires AllDigits(h) && AllDigits(m) && AllDigits(sec)
    requires |t| == 8 && t[..2] == h && t[3..5] == m && t[6..] == sec && t[2] == ':' && t[5] == ':'
    ensures ReadClock(t) == Some(DecimalValue(h) * 3600 + DecimalValue(m) * 60 + DecimalValue(sec))
  {
  }

  lemma ReadClockPieces(h: string, m: string, sec: string, c: Clock)
    requires |h| == 2 && |m| == 2 && |sec| == 2 && AllDigits(h) && AllDigits(m) && AllDigits(sec)
    requires DecimalValue(h) == c.hours && DecimalValue(m) == c.minutes && DecimalValue(sec) == c.seconds
    ensures ReadClock(h + ":" + m + ":" + sec).Some?
    ensures ReadClock(h + ":" + m + ":" + sec).value == c.hours * 3600 + c.minutes * 60 + c.seconds
  {
    ClockTextPieces(h, m, sec);
    ReadClockFields(h + ":" + m + ":" + sec, h, m, sec);
  }

  lemma ClockFieldsRead(c: Clock)
    requires c.hours < 100 && c.minutes < 100 && c.seconds < 100
    ensures ReadClock(ClockText(c)).Some?
    ensures ReadClock(ClockText(c)).value == c.hours * 3600 + c.minutes * 60 + c.seconds
  {
    ReadClockPieces(Two(c.hours), Two(c.minutes), Two(c.seconds), c);
  }

  /** A duration under 100 hours is written as `hh:mm:ss` text that reads back as the duration. */
  lemma ClockTextReadsBack(v: nat)
    requires v < 100 * 3600
    ensures ReadClock(ClockText(ClockOf(v))).Some?
    ensures ReadClock(ClockText(ClockOf(v))).value == v
  {
    ClockFieldsRead(ClockOf(v));
  }

  /** The "no ETA" text reads as no duration, so it cannot be taken for one. */
  lemma NoEtaIsNoClock()
    ensures ReadClock(NO_ETA) == None
  {
    assert NO_ETA[..2][0] == '-';
  }

  datatype Speed = NoSpeed | BytesPerSecond(rate: nat)

  /** What `UpdateStatus` shows: the bar's percentage, the speed, the elapsed time and the ETA. */
  datatype StatusLine = StatusLine(percent: int, speed: Speed, elapsed: Clock, eta: Option<Clock>)

  function ProgressPercent(processed: nat, total: nat): int
    requires total > 0
  {
    (processed * 100 + total / 2) / total
  }

  /** Whole seconds from performance-counter ticks, rounded to nearest. */
  function ElapsedSeconds(ticks: nat, frequency: nat): nat
    requires frequency > 0
  {
    (ticks + frequency / 2) / frequency
  }

  /** Seconds left: the estimated total time less the elapsed time, None when negative. */
  function SecondsLeft(elapsed: nat, processed: nat, total: nat): Option<nat>
    requires processed > 0
  {
    var totalTime := (elapsed * total + processed / 2) / processed;
    if totalTime - elapsed >= 0 then Some(totalTime - elapsed) else None
  }

  /**
   * `UpdateStatus` after the start: nothing for an unknown total; otherwise the
   * rounded percentage, the speed when a second has passed, and the ETA when
   * something has been processed and the estimate is not negative.
   */
  function UpdateStatus(processed: nat, total: nat, ticks: nat, frequency: nat): (r: Option<StatusLine>)
    requires frequency > 0
    ensures r.None? <==> total == 0
    ensures r.Some? ==> (r.value.speed == NoSpeed <==> ElapsedSeconds(ticks, frequency) == 0)
    ensures r.Some? ==> (r.value.eta.Some? ==> processed > 0)
  {
    if total == 0 then None
    else
      var elapsed := ElapsedSeconds(ticks, frequency);
      var speed := if elapsed > 0 then BytesPerSecond(processed / elapsed) else NoSpeed;
      var eta := if processed > 0 then
          match SecondsLeft(elapsed, processed, total)
          case Some(left) => Some(ClockOf(left % DWORD_RANGE))
          case None => None
        else None;
      Some(StatusLine(ProgressPercent(processed, total), speed, ClockOf(elapsed % DWORD_RANGE), eta))
  }

  lemma PercentBounds(processed: nat, total: nat)
    requires total > 0
    ensures var p := ProgressPercent(processed, total);
      p * total <= processed * 100 + total / 2 < p * total + total &&
      (processed <= total ==> 0 <= p <= 100) &&
      (processed == total ==> p == 100) && (processed == 0 ==> p == 0)
  {
    var p := ProgressPercent(processed, total);
    DivBounds(processed * 100 + total / 2, total);
    MulMono(101, p, total);
    MulMono(p, 99, total);
    MulMono(1, p, total);
  }

  /** The percentage is the processed share rounded to nearest, and 0..100 while within the total. */
  lemma PercentRounds(processed: nat, total: nat, ticks: nat, frequency: nat)
    requires total > 0 && frequency > 0
    ensures var p := UpdateStatus(processed, total, ticks, frequency).value.percent;
      p * total <= processed * 100 + total / 2 < p * total + total &&
      (processed <= total ==> 0 <= p <= 100) &&
      (processed == total ==> p == 100) && (processed == 0 ==> p == 0)
  {
    PercentBounds(processed, total);
  }

  /** The elapsed time is the tick count rounded to the nearest second; the speed is bytes per such second, rounded down. */
  lemma ElapsedAndSpeed(processed: nat, total: nat, ticks: nat, frequency: nat)
    requires total > 0 && frequency > 0
    ensures var e := ElapsedSeconds(ticks, frequency);
      e * frequency <= ticks + frequency / 2 < e * frequency + frequency
    ensures var e := ElapsedSeconds(ticks, frequency);
      var c := UpdateStatus(processed, total, ticks, frequency).value.elapsed;
      e < DWORD_RANGE ==> c.hours * 3600 + c.minutes * 60 + c.seconds == e
    ensures var e := ElapsedSeconds(ticks, frequency);
      var s := UpdateStatus(processed, total, ticks, frequency).value.speed;
      e > 0 ==> s.BytesPerSecond? && s.rate * e <= processed < s.rate * e + e
  {
    var e := ElapsedSeconds(ticks, frequency);
    StatusFields(processed, total, ticks, frequency);
    DivBounds(ticks + frequency / 2, frequency);
    if e > 0 {
      DivBounds(processed, e);
    }
  }

  lemma StatusFields(processed: nat, total: nat, ticks: nat, frequency: nat)
    requires total > 0 && frequency > 0
    ensures var e := ElapsedSeconds(ticks, frequency);
      var r := UpdateStatus(processed, total, ticks, frequency);
      r.Some? && r.value.elapsed == ClockOf(e % DWORD_RANGE) &&
      r.value.speed == if e > 0 then BytesPerSecond(processed / e) else NoSpeed
  {
  }

  /** The estimate is not negative exactly when the elapsed time on the processed bytes is at most the rounded estimate. */
  lemma SecondsLeftShown(e: nat, processed: nat, total: nat)
    requires processed > 0
    ensures SecondsLeft(e, processed, total).Some? <==> e * processed <= e * total + processed / 2
    ensures processed <= total ==> SecondsLeft(e, processed, total).Some?
  {
    var x := e * total + processed / 2;
    var tt := x / processed;
    DivBounds(x, processed);
    MulMono(e, tt, processed);
    MulMono(tt, e - 1, processed);
    assert (e - 1) * processed == e * processed - processed;
    MulMono(processed, total, e);
  }

  /**
   * An ETA is shown exactly when something has been processed and the
   * elapsed time spent on the bytes beyond the total is at most half the
   * processed count; in particular whenever the processed count is within
   * the total.
   */
  lemma EtaShownIff(processed: nat, total: nat, ticks: nat, frequency: nat)
    requires total > 0 && frequency > 0
    ensures var e := ElapsedSeconds(ticks, frequency);
      UpdateStatus(processed, total, ticks, frequency).value.eta.Some? <==>
        processed > 0 && e * processed <= e * total + processed / 2
    ensures 0 < processed <= total ==> UpdateStatus(processed, total, ticks, frequency).value.eta.Some?
  {
    if processed > 0 {
      SecondsLeftShown(ElapsedSeconds(ticks, frequency), processed, total);
    }
  }

  lemma SecondsLeftRounds(e: nat, processed: nat, total: nat)
    requires processed > 0 && SecondsLeft(e, processed, total).Some?
    ensures var left := SecondsLeft(e, processed, total).value;
      (e + left) * processed <= e * total + processed / 2 < (e + left) * processed + processed
  {
    DivBounds(e * total + processed / 2, processed);
  }

  /**
   * A shown ETA is the estimated total time less the elapsed time, where the
   * estimated total is elapsed × total / processed rounded to nearest; it is
   * shown modulo 2^32 seconds, exactly below that.
   */
  lemma EtaIsRemainingTime(processed: nat, total: nat, ticks: nat, frequency: nat)
    requires total > 0 && frequency > 0
    requires UpdateStatus(processed, total, ticks, frequency).value.eta.Some?
    ensures processed > 0 && SecondsLeft(ElapsedSeconds(ticks, frequency), processed, total).Some?
    ensures var e := ElapsedSeconds(ticks, frequency);
      var left := SecondsLeft(e, processed, total).value;
      (e + left) * processed <= e * total + processed / 2 < (e + left) * processed + processed
    ensures var left := SecondsLeft(ElapsedSeconds(ticks, frequency), processed, total).value;
      var c := UpdateStatus(processed, total, ticks, frequency).value.eta.value;
      c.hours * 3600 + c.minutes * 60 + c.seconds == left % DWORD_RANGE
  {
    SecondsLeftRounds(ElapsedSeconds(ticks, frequency), processed, total);
  }

  // ----- auto-flash -------------------------------------------------------------------------

  /** The auto-flash card size setting's default, in gigabytes. */
  const DEFAULT_TARGET_GB: nat := 8
  const GIB: nat := 1024 * 1024 * 1024

  /** One entry of the drive list, as `DetectCFCard` inspects it. */
  datatype DiskEntry = DiskEntry(completeDisk: bool, removable: bool, bytes: nat)

  /** A whole removable disk within 10% (rounded down) of the target size. */
  predicate IsCFCard(d: DiskEntry, targetGb: nat)
  {
    var target := targetGb * GIB;
    var tolerance := target / 10;
    d.completeDisk && d.removable && target - tolerance <= d.bytes <= target + tolerance
  }

  /** `DetectCFCard`: the first matching drive's index, or -1. */
  method DetectCFCard(drives: seq<DiskEntry>, targetGb: nat) returns (index: int)
    ensures -1 <= index < |drives|
    ensures index >= 0 ==> IsCFCard(drives[index], targetGb)
    ensures index >= 0 ==> forall k :: 0 <= k < index ==> !IsCFCard(drives[k], targetGb)
    ensures index == -1 <==> forall k :: 0 <= k < |drives| ==> !IsCFCard(drives[k], targetGb)
  {
    var i := 0;
    while i < |drives|
      invariant 0 <= i <= |drives|
      invariant forall k :: 0 <= k < i ==> !IsCFCard(drives[k], targetGb)
    {
      if IsCFCard(drives[i], targetGb) {
        return i;
      }
      i := i + 1;
    }
    return -1;
  }

  /** The same search as a function, for use by the event handler below. */
  function FirstCFCard(drives: seq<DiskEntry>, targetGb: nat, from: nat): (r: int)
    requires from <= |drives|
    ensures r == -1 || from <= r < |drives|
    decreases |drives| - from
  {
    if from == |drives| then -1
    else if IsCFCard(drives[from], targetGb) then from
    else FirstCFCard(drives, targetGb, from + 1)
  }

  lemma {:induction false} FirstCFCardSpec(drives: seq<DiskEntry>, targetGb: nat, from: nat)
    requires from <= |drives|
    ensures var r := FirstCFCard(drives, targetGb, from);
      (r >= 0 ==> IsCFCard(drives[r], targetGb) && forall k :: from <= k < r ==> !IsCFCard(drives[k], targetGb)) &&
      (r == -1 <==> forall k :: from <= k < |drives| ==> !IsCFCard(drives[k], targetGb))
    decreases |drives| - from
  {
    if from < |drives| && !IsCFCard(drives[from], targetGb) {
      FirstCFCardSpec(drives, targetGb, from + 1);
    }
  }

  /** The loop and the recursive search agree. */
  lemma DetectMatchesFirst(drives: seq<DiskEntry>, targetGb: nat, index: int)
    requires -1 <= index < |drives|
    requires index >= 0 ==> IsCFCard(drives[index], targetGb)
    requires index >= 0 ==> forall k :: 0 <= k < index ==> !IsCFCard(drives[k], targetGb)
    requires index == -1 <==> forall k :: 0 <= k < |drives| ==> !IsCFCard(drives[k], targetGb)
    ensures FirstCFCard(drives, targetGb, 0) == index
  {
    FirstCFCardSpec(drives, targetGb, 0);
  }

  /** With the default 8 GB target a card sold as 8 GB (8·10⁹ bytes) matches; a 16 GB one does not. */
  lemma DefaultTargetWindow()
    ensures IsCFCard(DiskEntry(true, true, 8000000000), DEFAULT_TARGET_GB)
    ensures !IsCFCard(DiskEntry(true, true, 16000000000), DEFAULT_TARGET_GB)
    ensures !IsCFCard(DiskEntry(false, true, 8000000000), DEFAULT_TARGET_GB)
  {
  }

  datatype DeviceEvent = DeviceArrival | DeviceRemoveComplete | OtherDeviceEvent
  datatype Mode = ModeSave | ModeRestore

  const BROWSE_LABEL: string := "Browse..."

  /** `TriggerAutoFlash`: the drive to select before posting OK, nothing without an image name. */
  function TriggerAutoFlash(fileName: string, driveIndex: nat): (r: Option<nat>)
    ensures r.Some? <==> fileName != "" && fileName != BROWSE_LABEL
    ensures r.Some? ==> r.value == driveIndex
  {
    if fileName == "" || fileName == BROWSE_LABEL then None else Some(driveIndex)
  }

  /**
   * The auto-flash part of `OnDeviceChanged` after the drive list is
   * refreshed: the drive whose restore is started, if any.
   */
  function AutoFlash(event: DeviceEvent, isVolume: bool, enabled: bool, mode: Mode,
                     drives: seq<DiskEntry>, targetGb: nat, fileName: string): Option<nat>
  {
    if isVolume && event == DeviceArrival && enabled && mode == ModeRestore then
      var i := FirstCFCard(drives, targetGb, 0);
      if i >= 0 then TriggerAutoFlash(fileName, i) else None
    else None
  }

  /**
   * A restore is started exactly on a volume arrival with auto-flash on, in
   * restore mode, with an image chosen and a card present; it is started on
   * the first card in the list.
   */
  lemma AutoFlashSpec(event: DeviceEvent, isVolume: bool, enabled: bool, mode: Mode,
                      drives: seq<DiskEntry>, targetGb: nat, fileName: string)
    ensures var r := AutoFlash(event, isVolume, enabled, mode, drives, targetGb, fileName);
      (r.Some? <==> (isVolume && event == DeviceArrival && enabled && mode == ModeRestore &&
        fileName != "" && fileName != BROWSE_LABEL &&
        exists k :: 0 <= k < |drives| && IsCFCard(drives[k], targetGb))) &&
      (r.Some? ==> (r.value < |drives| && IsCFCard(drives[r.value], targetGb) &&
        forall k :: 0 <= k < r.value ==> !IsCFCard(drives[k], targetGb)))
  {
    FirstCFCardSpec(drives, targetGb, 0);
  }

  // ----- file-system column and the remembered image ----------------------------------

  /** Partition type codes of the Windows SDK. */
  const PARTITION_FAT_12: int := 0x01
  const PARTITION_FAT_16: int := 0x04
  const PARTITION_IFS: int := 0x07
  const PARTITION_FAT32: int := 0x0B
  const PARTITION_FAT32_XINT13: int := 0x0C

  datatype FileSystemName = Fat12 | Fat16 | Fat32 | Ntfs | UnknownFileSystem

  /** `GetPartitionFileSystemString`. */
  function PartitionFileSystem(partType: int): (r: FileSystemName)
  {
    if partType == PARTITION_FAT_12 then Fat12
    else if partType == PARTITION_FAT_16 then Fat16
    else if partType == PARTITION_FAT32 || partType == PARTITION_FAT32_XINT13 then Fat32
    else if partType == PARTITION_IFS then Ntfs
    else UnknownFileSystem
  }

  /** Each name comes from exactly the listed type codes. */
  lemma PartitionFileSystemInverse(partType: int)
    ensures PartitionFileSystem(partType) == Fat12 <==> partType == 0x01
    ensures PartitionFileSystem(partType) == Fat16 <==> partType == 0x04
    ensures PartitionFileSystem(partType) == Fat32 <==> partType in {0x0B, 0x0C}
    ensures PartitionFileSystem(partType) == Ntfs <==> partType == 0x07
    ensures PartitionFileSystem(partType) == UnknownFileSystem <==> partType !in {0x01, 0x04, 0x07, 0x0B, 0x0C}
  {
  }

  /**
   * `OnDestroy`: the combo text becomes the remembered image unless the
   * "Browse..." entry (index 0) is selected; typed text (index -1) is kept.
   */
  function LastImageOnClose(previous: string, comboText: string, curSel: int): (r: string)
    ensures r == comboText || r == previous
    ensures curSel == 0 ==> r == previous
    ensures curSel != 0 ==> r == comboText
  {
    if curSel != 0 then comboText else previous
  }
}
