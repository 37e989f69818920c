/**
 * The dialog that edits the expected digests of one image, partition by
 * partition: loading and saving the fields, the status labels, the partition
 * drop-down fed by the MBR reader, computing digests into the fields, and
 * loading them from a manifest file (given as its lines).
 */
module ConfigureHashDialog {
  import opened Common
  import HW = HashWorker
  import HC = HashConfig
  import PR = PartitionReader

  /** The six editable controls of the dialog. */
  datatype Fields = Fields(
    sha1: string, sha1Enabled: bool, sha1Fail: bool,
    sha256: string, sha256Enabled: bool, sha256Fail: bool)

  /**
   * `shown` is the number in the drop-down's text, `partition` the number the
   * dialog saves to and hashes; `detected` maps partition numbers to the MBR
   * entries found; `working` says whether a digest computation is running.
   */
  datatype Dialog = Dialog(
    shown: int,
    partition: int,
    fields: Fields,
    detected: map<int, PR.PartitionInfo>,
    working: bool)

  /** `_load_partition`: the fields show the stored (or blank) configuration. */
  function LoadPartition(store: HC.Store, path: string, n: int): (f: Fields)
    ensures var c := HC.GetPartition(store, path, n);
      f.sha1 == c.sha1Value && f.sha256 == c.sha256Value
      && f.sha1Enabled == c.sha1Enabled && f.sha1Fail == c.sha1Fail
      && f.sha256Enabled == c.sha256Enabled && f.sha256Fail == c.sha256Fail
  {
    var c := HC.GetPartition(store, path, n);
    Fields(c.sha1Value, c.sha1Enabled, c.sha1Fail, c.sha256Value, c.sha256Enabled, c.sha256Fail)
  }

  /** What saving stores for the fields: the values stripped and lower-cased, the flags as they are. */
  function ToConfig(f: Fields): (c: HC.PartitionCfg)
    ensures c.sha1Value == ToLower(Strip(f.sha1)) && c.sha256Value == ToLower(Strip(f.sha256))
    ensures c.sha1Enabled == f.sha1Enabled && c.sha1Fail == f.sha1Fail
    ensures c.sha256Enabled == f.sha256Enabled && c.sha256Fail == f.sha256Fail
  {
    HC.PartitionCfg(ToLower(Strip(f.sha1)), f.sha1Enabled, f.sha1Fail,
                    ToLower(Strip(f.sha256)), f.sha256Enabled, f.sha256Fail)
  }

  /** `_save_current_partition`: stores the fields under the dialog's partition. */
  function SaveCurrent(d: Dialog, store: HC.Store, path: string): (s: HC.Store)
    ensures HC.GetPartition(s, path, d.partition) == ToConfig(d.fields)
  {
    HC.SaveThenGet(store, path, d.partition, ToConfig(d.fields));
    HC.SavePartition(store, path, d.partition, ToConfig(d.fields))
  }

  /** `_refresh_status`: a field reads "Configured" iff its stripped text has the algorithm's length. */
  function Status(f: Fields): (r: (bool, bool))
    ensures r.0 <==> |Strip(f.sha1)| == 40
    ensures r.1 <==> |Strip(f.sha256)| == 64
  {
    (|Strip(f.sha1)| == 40, |Strip(f.sha256)| == 64)
  }

  // ----- the partition drop-down -------------------------------------------------

  /** The drop-down entries: partition 0 (the whole image) and then the detected numbers ascending. */
  function Choices(detected: map<int, PR.PartitionInfo>): (cs: seq<int>)
    ensures |cs| >= 1 && cs[0] == 0
  {
    [0] + SortedKeys(detected.Keys)
  }

  /** `_update_partition_dropdown`: a shown number no longer offered falls back to partition 0. */
  function UpdateDropdown(d: Dialog): (e: Dialog)
    ensures e.shown in Choices(d.detected)
    ensures d.shown in Choices(d.detected) ==> e == d
    ensures d.shown !in Choices(d.detected) ==> e == d.(shown := 0, partition := 0)
  {
    if d.shown in Choices(d.detected) then d else d.(shown := 0, partition := 0)
  }

  /** `{p.number: p for p in found}` */
  function ByNumber(found: seq<PR.PartitionInfo>): (m: map<int, PR.PartitionInfo>)
    ensures forall i :: 0 <= i < |found| ==> found[i].number in m
    ensures forall n :: n in m ==> exists i :: 0 <= i < |found| && found[i] == m[n] && found[i].number == n
  {
    if |found| == 0 then map[]
    else
      var m := ByNumber(found[..|found| - 1]);
      assert forall n :: n in m ==> exists i :: 0 <= i < |found| - 1 && found[i] == m[n] && found[i].number == n;
      m[found[|found| - 1].number := found[|found| - 1]]
  }

  /**
   * `_auto_detect_partitions` / `_detect_partitions`: read the table and
   * rebuild the drop-down; when the read raises, the handler stops before
   * touching the dialog.
   */
  function Detect(d: Dialog, image: Option<seq<byte>>): (e: Dialog)
    ensures PR.ReadMbrPartitions(image).None? ==> e == d
  {
    match PR.ReadMbrPartitions(image)
    case None => d
    case Some(found) => UpdateDropdown(d.(detected := ByNumber(found)))
  }

  /**
   * The drop-down never offers anything but 0 and partition numbers of the
   * table, in ascending order; the detected partitions only ever come from
   * a read, so their numbers are within 1..4 before as after.
   */
  lemma ChoicesAfterDetect(d: Dialog, image: Option<seq<byte>>)
    requires forall n :: n in d.detected ==> 1 <= n <= 4
    ensures forall n :: n in Detect(d, image).detected ==> 1 <= n <= 4
    ensures var cs := Choices(Detect(d, image).detected);
      (forall i :: 0 <= i < |cs| ==> 0 <= cs[i] <= 4)
      && (forall i, j :: 0 <= i < j < |cs| ==> cs[i] < cs[j])
  {
    match PR.ReadMbrPartitions(image)
    case None =>
      ChoicesInRange(d.detected);
    case Some(found) =>
      PR.ResultShape(image, found);
      var m := ByNumber(found);
      assert Detect(d, image).detected == m;
      assert forall n :: n in m ==> 1 <= n <= 4;
      ChoicesInRange(m);
  }

  /** With keys among 1..4, the drop-down lists 0 and then the keys in ascending order, all within 0..4. */
  lemma ChoicesInRange(m: map<int, PR.PartitionInfo>)
    requires forall n :: n in m ==> 1 <= n <= 4
    ensures var cs := Choices(m);
      (forall i :: 0 <= i < |cs| ==> 0 <= cs[i] <= 4)
      && (forall i, j :: 0 <= i < j < |cs| ==> cs[i] < cs[j])
  {
    SortedKeysSpec(m.Keys);
    var ks := SortedKeys(m.Keys);
    forall i | 0 <= i < |ks|
      ensures 1 <= ks[i] <= 4
    {
      assert ks[i] in m;
    }
    var cs := Choices(m);
    assert cs == [0] + ks;
    assert forall i :: 0 < i < |cs| ==> cs[i] == ks[i - 1];
  }

  /**
   * `_on_partition_change`: the fields are first saved to the old partition,
   * then the chosen one is loaded.
   */
  function ChangePartition(d: Dialog, store: HC.Store, path: string, chosen: int): (r: (Dialog, HC.Store))
    ensures r.0.shown == chosen && r.0.partition == chosen
    ensures r.0.fields == LoadPartition(r.1, path, chosen)
    ensures HC.GetPartition(r.1, path, d.partition) == ToConfig(d.fields)
  {
    var s := SaveCurrent(d, store, path);
    (d.(shown := chosen, partition := chosen, fields := LoadPartition(s, path, chosen)), s)
  }

  // ----- computing digests into the fields ------------------------------------------------

  datatype Mode = Both | Sha1Only | Sha256Only

  /** The byte range a computation covers: an offset and a count (negative for "to the end"). */
  datatype HashRequest = HashRequest(offset: nat, byteCount: int)

  /**
   * `_calculate`: nothing while a computation runs; otherwise the detected
   * partition's range, or the whole file when the partition was not detected.
   */
  function Calculate(d: Dialog): (r: (Dialog, Option<HashRequest>))
    ensures d.working ==> r == (d, None)
    ensures !d.working ==> r.0 == d.(working := true) && r.1.Some?
    ensures !d.working && d.partition in d.detected ==>
      r.1 == Some(HashRequest(d.detected[d.partition].offset, d.detected[d.partition].size))
    ensures !d.working && d.partition !in d.detected ==> r.1 == Some(HashRequest(0, -1))
  {
    if d.working then (d, None)
    else if d.partition in d.detected then
      (d.(working := true), Some(HashRequest(d.detected[d.partition].offset, d.detected[d.partition].size)))
    else (d.(working := true), Some(HashRequest(0, -1)))
  }

  /**
   * `_on_calc_done`: the computation is over; on DONE the fields the mode
   * selects take the digests and are enabled, and nothing else changes.
   */
  function OnCalcDone(d: Dialog, status: HW.HashStatus, sha256: string, sha1: string, mode: Mode): (e: Dialog)
    ensures !e.working
    ensures e.shown == d.shown && e.partition == d.partition && e.detected == d.detected
    ensures e.fields.sha1Fail == d.fields.sha1Fail && e.fields.sha256Fail == d.fields.sha256Fail
    ensures status != HW.Done ==> e.fields == d.fields
    ensures status == HW.Done && mode != Sha256Only ==> e.fields.sha1 == sha1 && e.fields.sha1Enabled
    ensures status == HW.Done && mode != Sha1Only ==> e.fields.sha256 == sha256 && e.fields.sha256Enabled
    ensures mode == Sha256Only ==> e.fields.sha1 == d.fields.sha1 && e.fields.sha1Enabled == d.fields.sha1Enabled
    ensures mode == Sha1Only ==> e.fields.sha256 == d.fields.sha256 && e.fields.sha256Enabled == d.fields.sha256Enabled
  {
    var f := d.fields;
    var f1 := if status == HW.Done && mode != Sha256Only then f.(sha1 := sha1, sha1Enabled := true) else f;
    var f2 := if status == HW.Done && mode != Sha1Only then f1.(sha256 := sha256, sha256Enabled := true) else f1;
    d.(working := false, fields := f2)
  }

  // ----- manifest files ----------------------------------------------------------------

  /** `line.split()[0]` on a stripped, non-empty line: the text up to the first whitespace. */
  function FirstToken(s: string): (t: string)
    ensures |t| <= |s| && t == s[..|t|]
    ensures forall i :: 0 <= i < |t| ==> !IsSpace(t[i])
    ensures |t| < |s| ==> IsSpace(s[|t|])
  {
    if |s| == 0 || IsSpace(s[0]) then [] else [s[0]] + FirstToken(s[1..])
  }

  /** The digest a manifest line offers: its first token, lower-cased; None for blank and comment lines. */
  function LineDigest(line: string): Option<string>
  {
    var t := Strip(line);
    if |t| == 0 || t[0] == '#' then None else Some(ToLower(FirstToken(t)))
  }

  /** One manifest line applied to the fields: a 64-character token sets SHA-256, a 40-character one SHA-1. */
  function ApplyLine(f: Fields, line: string): (g: Fields)
    ensures g.sha1Fail == f.sha1Fail && g.sha256Fail == f.sha256Fail
  {
    var h := LineDigest(line);
    if h.Some? && |h.value| == 64 then f.(sha256 := h.value, sha256Enabled := true)
    else if h.Some? && |h.value| == 40 then f.(sha1 := h.value, sha1Enabled := true)
    else f
  }

  /** `_load_from_file`: the lines applied in order. */
  function LoadManifest(f: Fields, lines: seq<string>): (g: Fields)
    ensures g.sha1Fail == f.sha1Fail && g.sha256Fail == f.sha256Fail
    decreases |lines|
  {
    if |lines| == 0 then f else ApplyLine(LoadManifest(f, lines[..|lines| - 1]), lines[|lines| - 1])
  }

  predicate OffersLength(line: string, n: nat)
  {
    LineDigest(line).Some? && |LineDigest(line).value| == n
  }

  /** The field a digest of length `n` goes to, with its enable flag. */
  function Slot(f: Fields, n: nat): (string, bool)
  {
    if n == 64 then (f.sha256, f.sha256Enabled) else (f.sha1, f.sha1Enabled)
  }

  predicate NoneOffers(lines: seq<string>, n: nat)
  {
    forall i :: 0 <= i < |lines| ==> !OffersLength(lines[i], n)
  }

  predicate LastOffer(lines: seq<string>, i: nat, n: nat)
  {
    i < |lines| && OffersLength(lines[i], n) && forall j :: i < j < |lines| ==> !OffersLength(lines[j], n)
  }

  lemma ApplyLineSlot(f: Fields, line: string, n: nat)
    requires n == 40 || n == 64
    ensures OffersLength(line, n) ==> Slot(ApplyLine(f, line), n) == (LineDigest(line).value, true)
    ensures !OffersLength(line, n) ==> Slot(ApplyLine(f, line), n) == Slot(f, n)
  {
  }

  /** A manifest with no token of the field's length leaves that field and its flag untouched. */
  lemma {:induction false} ManifestUntouched(f: Fields, lines: seq<string>, n: nat)
    requires n == 40 || n == 64
    requires NoneOffers(lines, n)
    ensures Slot(LoadManifest(f, lines), n) == Slot(f, n)
    decreases |lines|
  {
    if |lines| > 0 {
      var init := lines[..|lines| - 1];
      assert forall i :: 0 <= i < |init| ==> init[i] == lines[i];
      ManifestUntouched(f, init, n);
      ApplyLineSlot(LoadManifest(f, init), lines[|lines| - 1], n);
    }
  }

  /**
   * The last line offering a token of the field's length wins: the field
   * (SHA-256 for 64 characters, SHA-1 for 40) holds that token and is enabled.
   */
  lemma {:induction false} ManifestLastWins(f: Fields, lines: seq<string>, n: nat, i: nat)
    requires n == 40 || n == 64
    requires LastOffer(lines, i, n)
    ensures Slot(LoadManifest(f, lines), n) == (LineDigest(lines[i]).value, true)
    decreases |lines|
  {
    var init := lines[..|lines| - 1];
    assert forall k :: 0 <= k < |init| ==> init[k] == lines[k];
    ApplyLineSlot(LoadManifest(f, init), lines[|lines| - 1], n);
    if i < |lines| - 1 {
      ManifestLastWins(f, init, n, i);
    }
  }

  // ----- opening and saving -----------------------------------------------------------

  /**
   * The dialog as `__init__` leaves it, as written: the fields and the
   * drop-down show partition 0, but the partition saved to and hashed is 1.
   */
  function OpenAsWritten(store: HC.Store, path: string, image: Option<seq<byte>>): (d: Dialog)
    ensures d.shown == 0 && d.partition == 1 && d.fields == LoadPartition(store, path, 0)
  {
    Detect(Dialog(0, 1, LoadPartition(store, path, 0), map[], false), image)
  }

  /** The dialog as evidently intended: the partition it works on is the one it shows. */
  function Open(store: HC.Store, path: string, image: Option<seq<byte>>): (d: Dialog)
    ensures d.shown == 0 && d.partition == 0 && d.fields == LoadPartition(store, path, 0)
  {
    Detect(Dialog(0, 0, LoadPartition(store, path, 0), map[], false), image)
  }

  /** `_on_save`: stores the fields under the dialog's partition. */
  function Save(d: Dialog, store: HC.Store, path: string): HC.Store
  {
    SaveCurrent(d, store, path)
  }

  /**
   * As written, opening the dialog and pressing Save replaces partition 1's
   * configuration with partition 0's: here an enabled SHA-1 expectation on
   * partition 1 is wiped out.
   */
  lemma OpenSaveOverwritesPartitionOne(path: string, image: Option<seq<byte>>)
    ensures var kept := HC.PartitionCfg("", true, true, "", false, false);
      var store := map[NormCase(path) := HC.FileEntry("img", map[1 := kept])];
      HC.GetPartition(Save(OpenAsWritten(store, path, image), store, path), path, 1) == HC.BlankPartition()
      && HC.GetPartition(store, path, 1) == kept
      && kept != HC.BlankPartition()
  {
    var kept := HC.PartitionCfg("", true, true, "", false, false);
    var store := map[NormCase(path) := HC.FileEntry("img", map[1 := kept])];
    var d := OpenAsWritten(store, path, image);
    assert d.fields == Fields("", false, false, "", false, false);
    assert ToConfig(d.fields) == HC.BlankPartition();
  }

  /**
   * Corrected: opening and saving writes the shown partition 0 with its own
   * configuration (normalised) and leaves every other partition as it was.
   */
  lemma OpenSaveKeepsOtherPartitions(store: HC.Store, path: string, image: Option<seq<byte>>, n: int)
    ensures var s := Save(Open(store, path, image), store, path);
      HC.GetPartition(s, path, 0) == ToConfig(LoadPartition(store, path, 0))
      && (n != 0 ==> HC.GetPartition(s, path, n) == HC.GetPartition(store, path, n))
  {
    var d := Open(store, path, image);
    if n != 0 {
      HC.SaveKeepsOthers(store, path, 0, ToConfig(d.fields), path, n);
    }
  }
}
