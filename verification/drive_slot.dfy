/**
 * One slot of the native multi-drive front-end: the drive bound to it, its
 * clone status, its progress, the last verification result and the id of the
 * ODINC process cloning into it.
 */
module DriveSlot {
  import opened Common

  datatype SlotStatus = Empty | Ready | Cloning | Verifying | Complete | Failed | Stopped

  /** The outcome of comparing a drive's digests with the expected ones. */
  datatype VerificationResult = VerificationResult(
    sha1Pass: bool,
    sha256Pass: bool,
    overallPass: bool,
    sha1Value: string,
    sha256Value: string,
    errorMessage: string)

  function NoVerification(): (v: VerificationResult)
    ensures !v.sha1Pass && !v.sha256Pass && !v.overallPass
    ensures v.sha1Value == "" && v.sha256Value == "" && v.errorMessage == ""
  {
    VerificationResult(false, false, false, "", "", "")
  }

  datatype Slot = Slot(
    number: int,
    letter: string,
    name: string,
    size: nat,
    status: SlotStatus,
    progress: int,
    verify: VerificationResult,
    pid: nat)

  /** A fresh slot: empty, nothing bound, no progress, no process. */
  function NewSlot(number: int): (s: Slot)
    ensures s.number == number && s.status == Empty
    ensures s.letter == "" && s.name == "" && s.size == 0 && s.progress == 0 && s.pid == 0
    ensures s.verify == NoVerification()
  {
    Slot(number, "", "", 0, Empty, 0, NoVerification(), 0)
  }

  predicate IsEmpty(s: Slot) { s.status == Empty }
  predicate IsActive(s: Slot) { s.status == Cloning || s.status == Verifying }
  predicate IsComplete(s: Slot) { s.status == Complete }
  predicate IsFailed(s: Slot) { s.status == Failed }

  /** The status queries never overlap, and a ready or stopped slot answers none of them. */
  lemma QueriesExclusive(s: Slot)
    ensures (if IsEmpty(s) then 1 else 0) + (if IsActive(s) then 1 else 0)
          + (if IsComplete(s) then 1 else 0) + (if IsFailed(s) then 1 else 0) <= 1
    ensures s.status in {Ready, Stopped} <==>
      !IsEmpty(s) && !IsActive(s) && !IsComplete(s) && !IsFailed(s)
  {
  }

  /** `SetDrive`: binds a drive and makes the slot ready; the process id is left as it was. */
  function SetDrive(s: Slot, letter: string, name: string, size: nat): (t: Slot)
    ensures t.status == Ready && t.progress == 0 && t.verify == NoVerification()
    ensures t.letter == letter && t.name == name && t.size == size
    ensures t.number == s.number && t.pid == s.pid
  {
    s.(letter := letter, name := name, size := size, status := Ready, progress := 0,
       verify := NoVerification())
  }

  /** `ClearDrive`: back to a fresh slot with the same number. */
  function ClearDrive(s: Slot): (t: Slot)
    ensures t == NewSlot(s.number)
  {
    s.(letter := "", name := "", size := 0, status := Empty, progress := 0, pid := 0,
       verify := NoVerification())
  }

  /** Clearing forgets everything but the slot number. */
  lemma ClearForgets(s: Slot, u: Slot)
    requires s.number == u.number
    ensures ClearDrive(s) == ClearDrive(u) && IsEmpty(ClearDrive(s))
  {
  }

  /** `SetProgress`: the value clamped to 0..100. */
  function SetProgress(s: Slot, progress: int): (t: Slot)
    ensures 0 <= t.progress <= 100
    ensures 0 <= progress <= 100 ==> t.progress == progress
    ensures progress < 0 ==> t.progress == 0
    ensures progress > 100 ==> t.progress == 100
    ensures t == s.(progress := t.progress)
  {
    s.(progress := if progress < 0 then 0 else if progress > 100 then 100 else progress)
  }

  /** `GetStatusString`: the status column text. */
  function StatusString(status: SlotStatus): (t: string)
    ensures t == "-" <==> status == Empty
  {
    match status
    case Empty => "-"
    case Ready => "Ready"
    case Cloning => "Cloning"
    case Verifying => "Verifying"
    case Complete => "Complete"
    case Failed => "Failed"
    case Stopped => "Stopped"
  }

  /** The status column names every status differently, so it can be read back. */
  lemma StatusStringInjective(a: SlotStatus, b: SlotStatus)
    ensures StatusString(a) == StatusString(b) ==> a == b
  {
  }

  /** `GetProgressString`: "-" before cloning starts, otherwise the percentage. */
  function ProgressString(s: Slot): (t: string)
    ensures t == "-" <==> s.status in {Empty, Ready}
    ensures s.status !in {Empty, Ready} ==> |t| >= 2 && t[|t| - 1] == '%'
  {
    if s.status == Empty || s.status == Ready then "-" else IntToDecimal(s.progress) + "%"
  }

  /** The percentage text reads back as the slot's progress. */
  lemma ProgressStringRoundTrip(s: Slot)
    requires s.status !in {Empty, Ready}
    ensures ParseInt(ProgressString(s)[..|ProgressString(s)| - 1]) == Some(s.progress)
  {
    var t := ProgressString(s);
    assert t[..|t| - 1] == IntToDecimal(s.progress);
    ParseIntOfDecimal(s.progress);
  }

  /** How the size column is written; the one-decimal gigabyte text itself is not modelled. */
  datatype SizeText = NoSize | Gigabytes(bytes: nat)

  /** `GetDriveSizeString`: "-" for a size of zero. */
  function SizeString(s: Slot): (t: SizeText)
    ensures t == NoSize <==> s.size == 0
    ensures t.Gigabytes? ==> t.bytes == s.size
  {
    if s.size == 0 then NoSize else Gigabytes(s.size)
  }
}
