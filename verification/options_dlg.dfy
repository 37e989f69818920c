/**
 * The native imager's options dialog: it shows the manager's split size,
 * compression and save mode as radio buttons and an edit field, and writes
 * them back on OK when something changed. The codec between options and
 * buttons loses information in a few places, stated below.
 */
module OptionsDlg {
  import opened Common
  import opened OdinManager

  const MIB: nat := 1048576
  const U64: nat := 0x1_0000_0000_0000_0000
  const LONG_MAX: int := 0x7FFF_FFFF
  const LONG_MIN: int := -0x8000_0000
  /** The chunk-size edit is read through a 100-character buffer, terminator included. */
  const CHUNK_TEXT_LIMIT: nat := 99

  // ----- save mode ------------------------------------------------------------------------

  /** The three save-mode radio buttons and whether the snapshot one is enabled. */
  datatype SaveButtons = SaveButtons(allBlocks: bool, usedBlocks: bool, snapshot: bool, snapshotEnabled: bool)

  /** The two stored save-mode flags: only used blocks (the negation of save-all) and take a snapshot. */
  datatype SaveMode = SaveMode(onlyUsedBlocks: bool, takeSnapshot: bool)

  function SaveModeOf(o: Options): SaveMode
  {
    SaveMode(!o.saveAllBlocks, o.takeVSSSnapshot)
  }

  /**
   * `UpdateGetSaveMode`: snapshot for (used, snapshot), used blocks for
   * (used, no snapshot), all blocks otherwise; without VSS the snapshot
   * button is disabled and a stored snapshot choice checks used blocks.
   */
  function ShowSaveMode(s: SaveMode, vssSupported: bool): (b: SaveButtons)
    ensures b.snapshotEnabled <==> vssSupported
    ensures b.snapshot <==> vssSupported && s.onlyUsedBlocks && s.takeSnapshot
    ensures b.allBlocks <==> !s.onlyUsedBlocks
    ensures b.usedBlocks <==> (s.onlyUsedBlocks && !s.takeSnapshot) || (!vssSupported && s.takeSnapshot)
  {
    var b := if s.onlyUsedBlocks then
        if s.takeSnapshot then SaveButtons(false, false, true, true) else SaveButtons(false, true, false, true)
      else SaveButtons(true, false, false, true);
    if vssSupported then b
    else if s.takeSnapshot then b.(snapshotEnabled := false, usedBlocks := true, snapshot := false)
    else b.(snapshotEnabled := false)
  }

  /** `UpdateSetSaveMode`: the first checked of used blocks, snapshot; all blocks otherwise. */
  function CommitSaveMode(b: SaveButtons): (s: SaveMode)
    ensures s.takeSnapshot ==> s.onlyUsedBlocks
    ensures s.onlyUsedBlocks <==> b.usedBlocks || b.snapshot
    ensures s.takeSnapshot <==> !b.usedBlocks && b.snapshot
  {
    if b.usedBlocks then SaveMode(true, false)
    else if b.snapshot then SaveMode(true, true)
    else SaveMode(false, false)
  }

  /** Every mode the buttons can express comes back unchanged; the snapshot needs VSS. */
  lemma SaveModeRoundTrip(s: SaveMode, vssSupported: bool)
    requires s.takeSnapshot ==> s.onlyUsedBlocks && vssSupported
    ensures CommitSaveMode(ShowSaveMode(s, vssSupported)) == s
  {
  }

  /**
   * The lossy cases: a snapshot flag without used-blocks mode is dropped;
   * without VSS a snapshot choice becomes plain used blocks, and with
   * save-all also set two buttons end up checked and used blocks wins.
   */
  lemma SaveModeLossy()
    ensures CommitSaveMode(ShowSaveMode(SaveMode(false, true), true)) == SaveMode(false, false)
    ensures CommitSaveMode(ShowSaveMode(SaveMode(true, true), false)) == SaveMode(true, false)
    ensures ShowSaveMode(SaveMode(false, true), false).allBlocks && ShowSaveMode(SaveMode(false, true), false).usedBlocks
    ensures CommitSaveMode(ShowSaveMode(SaveMode(false, true), false)) == SaveMode(true, false)
  {
  }

  // ----- compression ----------------------------------------------------------------------

  datatype CompressionButtons = CompressionButtons(none: bool, gzip: bool, lz4: bool, lz4hc: bool, zstd: bool)

  function CheckedCount(b: CompressionButtons): nat
  {
    (if b.none then 1 else 0) + (if b.gzip then 1 else 0) + (if b.lz4 then 1 else 0) +
    (if b.lz4hc then 1 else 0) + (if b.zstd then 1 else 0)
  }

  /** `UpdateGetCompressionMode`: exactly one button, its own for the five offered formats, "none" for bzip2. */
  function ShowCompression(mode: CompressionFormat): (b: CompressionButtons)
    ensures CheckedCount(b) == 1
    ensures b.none <==> mode == NoCompression || mode == BZip2
  {
    match mode
    case NoCompression => CompressionButtons(true, false, false, false, false)
    case GZip => CompressionButtons(false, true, false, false, false)
    case LZ4 => CompressionButtons(false, false, true, false, false)
    case LZ4HC => CompressionButtons(false, false, false, true, false)
    case ZSTD => CompressionButtons(false, false, false, false, true)
    case BZip2 => CompressionButtons(true, false, false, false, false)
  }

  /** `UpdateSetCompressionMode`: the first checked button's format; the dialog's previous mode when none is. */
  function CommitCompression(b: CompressionButtons, previous: CompressionFormat): (mode: CompressionFormat)
    ensures CheckedCount(b) > 0 ==> mode != BZip2
    ensures CheckedCount(b) == 0 ==> mode == previous
  {
    if b.none then NoCompression
    else if b.gzip then GZip
    else if b.lz4 then LZ4
    else if b.lz4hc then LZ4HC
    else if b.zstd then ZSTD
    else previous
  }

  /** The offered formats come back unchanged; bzip2 comes back as no compression. */
  lemma CompressionRoundTrip(mode: CompressionFormat, previous: CompressionFormat)
    ensures mode != BZip2 ==> CommitCompression(ShowCompression(mode), previous) == mode
    ensures mode == BZip2 ==> CommitCompression(ShowCompression(mode), previous) == NoCompression
  {
  }

  // ----- split size -----------------------------------------------------------------------

  /** The split radio pair and the chunk-size edit field. */
  datatype SplitControls = SplitControls(splitChecked: bool, noSplitChecked: bool, chunkText: string, editEnabled: bool)

  /** `UpdateGetSplitFileMode`: the size in whole MiB as decimal text; splitting is on when that is positive. */
  function ShowSplit(splitSize: nat): (k: SplitControls)
    ensures k.splitChecked <==> splitSize >= MIB
    ensures k.noSplitChecked <==> !k.splitChecked
    ensures k.editEnabled == k.splitChecked
    ensures AllDigits(k.chunkText) && DecimalValue(k.chunkText) == splitSize / MIB
  {
    DecimalRoundTrip(splitSize / MIB);
    var on := splitSize / MIB > 0;
    SplitControls(on, !on, NatToDecimal(splitSize / MIB), on)
  }

  /** The white space `_wtol` skips. */
  predicate IsCSpace(c: char)
  {
    c == ' ' || c == '\t' || c == '\n' || c == '\r' || c == '\U{B}' || c == '\U{C}'
  }

  function SkipCSpace(s: string): (r: string)
    ensures |r| <= |s| && r == s[|s| - |r|..]
    ensures |r| > 0 ==> !IsCSpace(r[0])
  {
    if |s| > 0 && IsCSpace(s[0]) then SkipCSpace(s[1..]) else s
  }

  /** The longest prefix made of decimal digits. */
  function DigitPrefix(s: string): (r: string)
    ensures AllDigits(r) && |r| <= |s| && r == s[..|r|]
    ensures |r| < |s| ==> !IsDigit(s[|r|])
  {
    if |s| > 0 && IsDigit(s[0]) then [s[0]] + DigitPrefix(s[1..]) else []
  }

  lemma {:induction false} DigitPrefixOfDigits(s: string)
    requires AllDigits(s)
    ensures DigitPrefix(s) == s
  {
    if |s| > 0 {
      DigitPrefixOfDigits(s[1..]);
    }
  }

  /**
   * `_wtol`: white space, an optional sign and the digits after it, with
   * an out-of-range value clamped to the 32-bit `long` range and 0 when no
   * digit follows.
   */
  function Wtol(text: string): (v: int)
    ensures LONG_MIN <= v <= LONG_MAX
  {
    var t := SkipCSpace(text);
    var signed := |t| > 0 && (t[0] == '-' || t[0] == '+');
    var magnitude: int := DecimalValue(DigitPrefix(if signed then t[1..] else t));
    if signed && t[0] == '-' then (if magnitude > -LONG_MIN then LONG_MIN else -magnitude)
    else if magnitude > LONG_MAX then LONG_MAX else magnitude
  }

  /** A decimal rendering in range reads back as its value. */
  lemma WtolOfDecimal(n: nat)
    requires n <= LONG_MAX
    ensures Wtol(NatToDecimal(n)) == n
  {
    var s := NatToDecimal(n);
    assert IsDigit(s[0]);
    assert !IsCSpace(s[0]) && s[0] != '-' && s[0] != '+';
    assert SkipCSpace(s) == s;
    DigitPrefixOfDigits(s);
    DecimalRoundTrip(n);
    assert DecimalValue(DigitPrefix(s)) == n;
  }

  /** The part of the edit field's text the 100-character buffer holds. */
  function ChunkText(text: string): (t: string)
    ensures |t| <= |text| && |t| <= CHUNK_TEXT_LIMIT && t == text[..|t|]
    ensures |text| <= CHUNK_TEXT_LIMIT ==> t == text
  {
    text[..Min(|text|, CHUNK_TEXT_LIMIT)]
  }

  /**
   * `GetChunkSizeNumber`: the buffered text through `_wtol`, converted to
   * an unsigned 64-bit value and multiplied by 2^20 with wrap-around.
   */
  function ChunkSizeNumber(text: string): (bytes: nat)
    ensures bytes < U64 && bytes % MIB == 0
    ensures 0 <= Wtol(ChunkText(text)) ==> bytes == Wtol(ChunkText(text)) * MIB
  {
    var v := Wtol(ChunkText(text));
    WrapKeepsMiB(v % U64);
    ChunkFits(if v >= 0 then v else 0);
    ((v % U64) * MIB) % U64
  }

  /** A size in MiB within the `long` range fits 64 bits unwrapped. */
  lemma ChunkFits(v: nat)
    requires v <= LONG_MAX
    ensures v % U64 == v && v * MIB < U64 && (v * MIB) % U64 == v * MIB
  {
  }

  function Min(a: nat, b: nat): (m: nat)
    ensures m <= a && m <= b && (m == a || m == b)
  {
    if a <= b then a else b
  }

  /** A multiple of 2^20 stays one after reduction modulo 2^64. */
  lemma WrapKeepsMiB(v: nat)
    ensures ((v * MIB) % U64) % MIB == 0
  {
    var q := (v * MIB) / U64;
    assert v * MIB == q * U64 + (v * MIB) % U64;
    assert U64 == MIB * 0x1000_0000_0000;
    assert (v * MIB) % U64 == (v - q * 0x1000_0000_0000) * MIB;
  }

  /** A chunk size shown by the dialog reads back as that many whole MiB. */
  lemma ShownChunkReadsBack(splitSize: nat)
    requires splitSize / MIB <= LONG_MAX
    ensures ChunkSizeNumber(ShowSplit(splitSize).chunkText) == (splitSize / MIB) * MIB
    ensures (splitSize / MIB) * MIB <= splitSize < (splitSize / MIB) * MIB + MIB
  {
    var n := splitSize / MIB;
    var t := ShowSplit(splitSize).chunkText;
    assert t == NatToDecimal(n);
    LongDecimalFits(n);
    assert ChunkText(t) == t;
    WtolOfDecimal(n);
  }

  /** Ten digits are enough for any value up to `LONG_MAX`. */
  lemma LongDecimalFits(n: nat)
    requires n <= LONG_MAX
    ensures |NatToDecimal(n)| <= 10
  {
    DecimalLength(n, 10);
  }

  lemma {:induction false} DecimalLength(n: nat, k: nat)
    requires n < Pow10(k)
    ensures |NatToDecimal(n)| <= k || (k == 0 && |NatToDecimal(n)| == 1)
    decreases k
  {
    if k > 0 && n >= 10 {
      DecimalLength(n / 10, k - 1);
    }
  }

  function Pow10(k: nat): (p: nat)
    ensures p >= 1
  {
    if k == 0 then 1 else 10 * Pow10(k - 1)
  }

  /** A negative typed size is converted to unsigned and wraps: "-1" asks for 2^64 - 2^20 bytes. */
  lemma NegativeChunkWraps()
    ensures ChunkSizeNumber("-1") == U64 - MIB
  {
    var t := "-1";
    assert !IsCSpace(t[0]);
    assert SkipCSpace(t) == t;
    assert t[1..] == "1";
    DigitPrefixOfDigits("1");
    assert DecimalValue("1") == 1 by {
      assert "1"[..0] == "";
    }
    assert Wtol(t) == -1;
    assert ChunkText(t) == t;
    assert -1 % U64 == U64 - 1;
    assert (U64 - 1) * MIB == (MIB - 1) * U64 + (U64 - MIB);
  }

  /** `UpdateSetSplitFileMode`: the typed size when splitting, 0 for no splitting, else the size unchanged. */
  function CommitSplit(k: SplitControls, current: nat): (size: nat)
    ensures k.splitChecked ==> size == ChunkSizeNumber(k.chunkText)
    ensures !k.splitChecked && k.noSplitChecked ==> size == 0
    ensures !k.splitChecked && !k.noSplitChecked ==> size == current
  {
    if k.splitChecked then ChunkSizeNumber(k.chunkText)
    else if k.noSplitChecked then 0
    else current
  }

  // ----- the dialog -----------------------------------------------------------------------

  datatype Dialog = Dialog(
    save: SaveButtons,
    compression: CompressionButtons,
    split: SplitControls,
    compressionMode: CompressionFormat,
    changed: bool)

  /** `OnInitDialog`: every control loaded from the manager's options, nothing changed yet. */
  function Open(o: Options, vssSupported: bool): (d: Dialog)
    ensures !d.changed && d.compressionMode == o.compressionMode
    ensures d.save == ShowSaveMode(SaveModeOf(o), vssSupported)
    ensures d.compression == ShowCompression(o.compressionMode) && d.split == ShowSplit(o.splitFileSize)
  {
    Dialog(ShowSaveMode(SaveModeOf(o), vssSupported), ShowCompression(o.compressionMode),
           ShowSplit(o.splitFileSize), o.compressionMode, false)
  }

  /** `Commit`: the split size, compression and save mode written back; the other options stay. */
  function Commit(o: Options, d: Dialog): (r: Options)
    ensures r.splitFileSize == CommitSplit(d.split, o.splitFileSize)
    ensures r.compressionMode == CommitCompression(d.compression, d.compressionMode)
    ensures SaveModeOf(r) == CommitSaveMode(d.save)
    ensures r.splitFiles == o.splitFiles && r.readBlockSize == o.readBlockSize
  {
    var s := CommitSaveMode(d.save);
    o.(splitFileSize := CommitSplit(d.split, o.splitFileSize),
       compressionMode := CommitCompression(d.compression, d.compressionMode),
       saveAllBlocks := !s.onlyUsedBlocks, takeVSSSnapshot := s.takeSnapshot)
  }

  /** `OnOK` counts a typed chunk size that differs from the stored one as a change. */
  predicate ChangedOnOk(o: Options, d: Dialog)
  {
    d.changed || (d.split.splitChecked && ChunkSizeNumber(d.split.chunkText) != o.splitFileSize)
  }

  /** `OnOK`: commit when something changed, otherwise keep the options. */
  function OnOk(o: Options, d: Dialog): (r: Options)
    ensures ChangedOnOk(o, d) ==> r == Commit(o, d)
    ensures !ChangedOnOk(o, d) ==> r == o
  {
    if ChangedOnOk(o, d) then Commit(o, d) else o
  }

  /** `OnCancel`: the options are never written. */
  function OnCancel(o: Options, d: Dialog): (r: Options)
    ensures r == o
  {
    o
  }

  /** Which save-mode button the user clicks. */
  datatype SaveChoice = AllBlocks | UsedBlocks | Snapshot

  /** Clicking a save-mode button checks it alone and marks the dialog changed; the snapshot button is disabled without VSS. */
  function ClickSaveMode(d: Dialog, c: SaveChoice): (r: Dialog)
    requires c == Snapshot ==> d.save.snapshotEnabled
    ensures r.changed && r.compression == d.compression && r.split == d.split
    ensures CommitSaveMode(r.save) == (match c
      case AllBlocks => SaveMode(false, false)
      case UsedBlocks => SaveMode(true, false)
      case Snapshot => SaveMode(true, true))
  {
    d.(changed := true, save := d.save.(allBlocks := c == AllBlocks, usedBlocks := c == UsedBlocks,
                                         snapshot := c == Snapshot))
  }

  /** Clicking a compression button checks it alone and marks the dialog changed. */
  function ClickCompression(d: Dialog, mode: CompressionFormat): (r: Dialog)
    requires mode != BZip2
    ensures r.changed && r.save == d.save && r.split == d.split
    ensures CommitCompression(r.compression, r.compressionMode) == mode
  {
    d.(changed := true, compression := ShowCompression(mode))
  }

  /** Clicking split or no-split checks it alone, enables the edit field accordingly and marks the dialog changed. */
  function ClickSplit(d: Dialog, on: bool): (r: Dialog)
    ensures r.changed && r.save == d.save && r.compression == d.compression
    ensures r.split.splitChecked == on && r.split.noSplitChecked == !on && r.split.editEnabled == on
    ensures r.split.chunkText == d.split.chunkText
  {
    d.(changed := true, split := d.split.(splitChecked := on, noSplitChecked := !on, editEnabled := on))
  }

  /** Typing in the chunk-size field changes only its text; `OnOK` notices it by comparing sizes. */
  function TypeChunkSize(d: Dialog, text: string): Dialog
  {
    d.(split := d.split.(chunkText := text))
  }

  /**
   * The save mode the buttons can hold for stored flags: all blocks unless
   * only used blocks are asked for, the snapshot only with VSS; without VSS
   * a snapshot flag turns into used blocks even next to save-all.
   */
  function CanonicalSaveMode(s: SaveMode, vssSupported: bool): (c: SaveMode)
    ensures c.takeSnapshot ==> c.onlyUsedBlocks && vssSupported
  {
    if s.takeSnapshot && !vssSupported then SaveMode(true, false)
    else if !s.onlyUsedBlocks then SaveMode(false, false)
    else s
  }

  /** The button codec stores a save mode's canonical form. */
  lemma SaveModeCodecIsCanonical(s: SaveMode, vssSupported: bool)
    ensures CommitSaveMode(ShowSaveMode(s, vssSupported)) == CanonicalSaveMode(s, vssSupported)
  {
  }

  /** What committing the freshly opened dialog stores: each option in the form its controls can express. */
  function Canonical(o: Options, vssSupported: bool): (c: Options)
    ensures c.splitFileSize % MIB == 0 && c.splitFileSize <= o.splitFileSize
    ensures c.compressionMode != BZip2
    ensures c.takeVSSSnapshot ==> !c.saveAllBlocks && vssSupported
  {
    var s := CanonicalSaveMode(SaveModeOf(o), vssSupported);
    o.(splitFileSize := (o.splitFileSize / MIB) * MIB,
       compressionMode := if o.compressionMode == BZip2 then NoCompression else o.compressionMode,
       saveAllBlocks := !s.onlyUsedBlocks, takeVSSSnapshot := s.takeSnapshot)
  }

  /** Committing the opened dialog stores the canonical options. */
  lemma CommitOfOpenIsCanonical(o: Options, vssSupported: bool)
    requires o.splitFileSize / MIB <= LONG_MAX
    ensures Commit(o, Open(o, vssSupported)) == Canonical(o, vssSupported)
  {
    ShownChunkReadsBack(o.splitFileSize);
    SaveModeCodecIsCanonical(SaveModeOf(o), vssSupported);
    var c := Commit(o, Open(o, vssSupported));
    assert c.splitFileSize == Canonical(o, vssSupported).splitFileSize;
  }

  /** The canonical form is a fixed point: committing twice gives what committing once did. */
  lemma CanonicalIdempotent(o: Options, vssSupported: bool)
    ensures Canonical(Canonical(o, vssSupported), vssSupported) == Canonical(o, vssSupported)
  {
    MulDiv(o.splitFileSize / MIB);
  }

  lemma MulDiv(n: nat)
    ensures (n * MIB) / MIB == n
  {
  }

  /**
   * Opening the dialog and pressing OK changes nothing when the split size
   * shows exactly: a whole number of MiB, or less than one MiB.
   */
  lemma OpenOkKeepsOptions(o: Options, vssSupported: bool)
    requires o.splitFileSize / MIB <= LONG_MAX
    requires o.splitFileSize % MIB == 0 || o.splitFileSize < MIB
    ensures OnOk(o, Open(o, vssSupported)) == o
  {
    ShownChunkReadsBack(o.splitFileSize);
  }

  /**
   * A split size that is not a whole number of MiB counts as changed on OK:
   * it is truncated to whole MiB, and the lossy codecs apply to the rest.
   */
  lemma OpenOkTruncatesSplit(o: Options, vssSupported: bool)
    requires o.splitFileSize / MIB <= LONG_MAX
    requires o.splitFileSize >= MIB && o.splitFileSize % MIB != 0
    ensures OnOk(o, Open(o, vssSupported)) == Canonical(o, vssSupported)
    ensures OnOk(o, Open(o, vssSupported)).splitFileSize < o.splitFileSize
  {
    ShownChunkReadsBack(o.splitFileSize);
    CommitOfOpenIsCanonical(o, vssSupported);
  }

  /** Choosing a save mode and pressing OK stores exactly that mode. */
  lemma ChosenSaveModeIsStored(o: Options, vssSupported: bool, c: SaveChoice)
    requires c == Snapshot ==> vssSupported
    ensures var r := OnOk(o, ClickSaveMode(Open(o, vssSupported), c));
      (r.saveAllBlocks <==> c == AllBlocks) && (r.takeVSSSnapshot <==> c == Snapshot)
  {
  }
}
