/**
 * The native hash-configuration dialog: it shows a `HashConfig` in its
 * controls, writes the controls back on OK, and can fill the expected values
 * by hashing the image file.
 */
module HashConfigDlg {
  import opened Common
  import opened OdinMConfig
  import HCalc = HashCalculator

  /** The partition combo offers "Partition 1" .. "Partition 10", item data 1..10. */
  const PARTITION_CHOICES: nat := 10
  const CB_ERR: int := -1
  /** An edit control is read through a 1024-character buffer, terminator included. */
  const TEXT_LIMIT: nat := 1023
  const NO_IMAGE_LABEL: string := "(no image selected)"
  const NOT_CONFIGURED: string := "Not configured"
  const HASH_SET: string := "Hash set"

  /** The dialog's controls. */
  datatype Controls = Controls(
    imageLabel: string,
    comboSel: int,
    sha1Text: string,
    sha256Text: string,
    sha1Box: bool,
    sha256Box: bool,
    failSha1Box: bool,
    failSha256Box: bool)

  /** The image label: the text after the last `\` or `/`, or a placeholder without an image. */
  function ImageLabel(imagePath: string): (shown: string)
    ensures imagePath == "" ==> shown == NO_IMAGE_LABEL
    ensures imagePath != "" ==> shown == AfterLastSeparator(imagePath)
  {
    if imagePath == "" then NO_IMAGE_LABEL else AfterLastSeparator(imagePath)
  }

  /** The label names the file: a separator-free tail of the path, and all of it when it has no separator. */
  lemma ImageLabelIsFileName(imagePath: string)
    requires imagePath != ""
    ensures var shown := ImageLabel(imagePath);
      |shown| <= |imagePath| && imagePath[|imagePath| - |shown|..] == shown &&
      (forall i :: 0 <= i < |shown| ==> !IsSeparator(shown[i])) &&
      ((forall i :: 0 <= i < |imagePath| ==> !IsSeparator(imagePath[i])) ==> shown == imagePath)
  {
    var shown := ImageLabel(imagePath);
    if |shown| < |imagePath| {
      assert IsSeparator(imagePath[|imagePath| - |shown| - 1]);
    } else {
      assert imagePath[|imagePath| - |shown|..] == imagePath;
    }
  }

  /** The combo index `LoadConfigToControls` selects: the partition's own entry, or the first one. */
  function SelectedIndex(partitionNumber: int): (idx: int)
    ensures 0 <= idx < PARTITION_CHOICES
    ensures 1 <= partitionNumber <= PARTITION_CHOICES ==> ItemData(idx) == partitionNumber
    ensures !(1 <= partitionNumber <= PARTITION_CHOICES) ==> idx == 0
  {
    var idx := partitionNumber - 1;
    if idx < 0 || idx > 9 then 0 else idx
  }

  /** `CB_GETITEMDATA`: the partition number stored with an entry, `CB_ERR` for no entry. */
  function ItemData(idx: int): (n: int)
    ensures 0 <= idx < PARTITION_CHOICES ==> n == idx + 1
    ensures !(0 <= idx < PARTITION_CHOICES) ==> n == CB_ERR
  {
    if 0 <= idx < PARTITION_CHOICES as int then idx + 1 else CB_ERR
  }

  /** Text read back from an edit control. */
  function ReadText(t: string): (r: string)
    ensures |r| <= TEXT_LIMIT && (|t| <= TEXT_LIMIT ==> r == t)
    ensures r == t[..|r|]
  {
    if |t| <= TEXT_LIMIT then t else t[..TEXT_LIMIT]
  }

  /** `LoadConfigToControls`. */
  function ToControls(c: HashConfig): (k: Controls)
    ensures k.imageLabel == ImageLabel(c.imagePath) && k.comboSel == SelectedIndex(c.partitionNumber)
    ensures k.sha1Text == c.sha1Expected && k.sha256Text == c.sha256Expected
    ensures k.sha1Box == c.sha1Enabled && k.sha256Box == c.sha256Enabled
    ensures k.failSha1Box == c.failOnSha1 && k.failSha256Box == c.failOnSha256
  {
    Controls(ImageLabel(c.imagePath), SelectedIndex(c.partitionNumber), c.sha1Expected, c.sha256Expected,
             c.sha1Enabled, c.sha256Enabled, c.failOnSha1, c.failOnSha256)
  }

  /**
   * `SaveControlsToConfig`: the selected entry's partition number (kept when
   * nothing is selected), both expected values upper-cased, and the four
   * check boxes; the image path and partition type are not touched.
   */
  function FromControls(c: HashConfig, k: Controls): (r: HashConfig)
    ensures r.partitionNumber == (if k.comboSel != CB_ERR then ItemData(k.comboSel) else c.partitionNumber)
    ensures r.sha1Expected == ToUpper(ReadText(k.sha1Text)) && r.sha256Expected == ToUpper(ReadText(k.sha256Text))
    ensures r.sha1Enabled == k.sha1Box && r.sha256Enabled == k.sha256Box
    ensures r.failOnSha1 == k.failSha1Box && r.failOnSha256 == k.failSha256Box
    ensures r.imagePath == c.imagePath && r.partitionType == c.partitionType
  {
    c.(partitionNumber := if k.comboSel != CB_ERR then ItemData(k.comboSel) else c.partitionNumber,
       sha1Expected := ToUpper(ReadText(k.sha1Text)),
       sha256Expected := ToUpper(ReadText(k.sha256Text)),
       sha1Enabled := k.sha1Box, sha256Enabled := k.sha256Box,
       failOnSha1 := k.failSha1Box, failOnSha256 := k.failSha256Box)
  }

  predicate IsUpperCase(t: string) { ToUpper(t) == t }

  /**
   * Opening the dialog and pressing OK without touching anything keeps the
   * settings, when the partition is one the combo offers and the expected
   * values are upper case and fit the edit controls.
   */
  lemma OpenOkKeepsConfig(c: HashConfig)
    requires 1 <= c.partitionNumber <= PARTITION_CHOICES
    requires IsUpperCase(c.sha1Expected) && IsUpperCase(c.sha256Expected)
    requires |c.sha1Expected| <= TEXT_LIMIT && |c.sha256Expected| <= TEXT_LIMIT
    ensures FromControls(c, ToControls(c)) == c
  {
  }

  /** A partition number the combo does not offer comes back as partition 1. */
  lemma OpenOkResetsUnknownPartition(c: HashConfig)
    requires !(1 <= c.partitionNumber <= PARTITION_CHOICES)
    ensures FromControls(c, ToControls(c)).partitionNumber == 1
  {
  }

  /** The default settings open on the first partition entry with only the SHA-1 boxes checked. */
  lemma DefaultsOpenOnPartitionOne()
    ensures var k := ToControls(DefaultHashConfig());
      k.comboSel == 0 && k.sha1Box && k.failSha1Box && !k.sha256Box && !k.failSha256Box &&
      k.imageLabel == NO_IMAGE_LABEL
  {
  }

  /**
   * Upper-casing what was typed makes the stored value equal to the
   * calculator's upper-case hex text exactly when the typed text matches it
   * ignoring case.
   */
  lemma UpperCasedMatchesCalculator(typed: string, digest: seq<byte>)
    ensures ToUpper(typed) == HCalc.BytesToHex(digest) <==>
      ToLower(typed) == ToLower(HCalc.BytesToHex(digest))
  {
    var h := HCalc.BytesToHex(digest);
    HCalc.HexIsUpper(digest);
    assert forall i :: 0 <= i < |h| ==> UpperChar(h[i]) == h[i];
    if ToUpper(typed) == h {
      UpperMatchLowers(typed, h);
    }
    if ToLower(typed) == ToLower(h) {
      LowerMatchUppers(typed, h);
    }
  }

  lemma UpperMatchLowers(typed: string, h: string)
    requires ToUpper(typed) == h
    ensures ToLower(typed) == ToLower(h)
  {
    assert forall i :: 0 <= i < |h| ==> LowerChar(typed[i]) == LowerChar(h[i]);
  }

  lemma LowerMatchUppers(typed: string, h: string)
    requires forall i :: 0 <= i < |h| ==> UpperChar(h[i]) == h[i]
    requires ToLower(typed) == ToLower(h)
    ensures ToUpper(typed) == h
  {
    assert forall i :: 0 <= i < |h| ==> UpperChar(typed[i]) == h[i];
  }

  /** `UpdateStatusLabels`: "Not configured" exactly for an empty edit control. */
  function StatusLabel(text: string): (shown: string)
    ensures shown == NOT_CONFIGURED <==> text == ""
    ensures shown == HASH_SET <==> text != ""
  {
    if text == "" then NOT_CONFIGURED else HASH_SET
  }

  // ----- hashing the image ---------------------------------------------------------------

  /** Which button was pressed: both digests, SHA-1 only or SHA-256 only. */
  datatype Mode = Both | Sha1Only | Sha256Only

  predicate WantsSha1(mode: Mode) { mode != Sha256Only }
  predicate WantsSha256(mode: Mode) { mode != Sha1Only }

  datatype CalcOutcome = NoImage | OpenFailed | NoSize | HashFailed | Filled

  /**
   * What the disk returns for the image: whether it opens, its size (None
   * when it cannot be read), and the calculator's digests (SHA-1, SHA-256),
   * None when the calculation fails.
   */
  datatype ImageFile = ImageFile(opens: bool, size: Option<nat>, hashes: Option<(string, string)>)

  /**
   * `CalculateHashesFromImage`: refused without an image path, for a file
   * that cannot be opened, or whose size is unknown or 0; a failed
   * calculation writes nothing; otherwise only requested, non-empty digests
   * replace the edit text.
   */
  function Calculate(k: Controls, imagePath: string, f: ImageFile, mode: Mode): (r: (CalcOutcome, Controls))
    ensures r.0 != Filled ==> r.1 == k
    ensures r.0 == NoImage <==> imagePath == ""
    ensures r.0 == OpenFailed <==> imagePath != "" && !f.opens
    ensures r.0 == NoSize <==> imagePath != "" && f.opens && (f.size.None? || f.size == Some(0))
    ensures r.0 == Filled <==> imagePath != "" && f.opens && f.size.Some? && f.size.value > 0 && f.hashes.Some?
    ensures r.0 == Filled ==>
      r.1.sha1Text == (if WantsSha1(mode) && f.hashes.value.0 != "" then f.hashes.value.0 else k.sha1Text) &&
      r.1.sha256Text == (if WantsSha256(mode) && f.hashes.value.1 != "" then f.hashes.value.1 else k.sha256Text)
    ensures r.1 == k.(sha1Text := r.1.sha1Text, sha256Text := r.1.sha256Text)
  {
    if imagePath == "" then (NoImage, k)
    else if !f.opens then (OpenFailed, k)
    else if f.size.None? || f.size.value == 0 then (NoSize, k)
    else match f.hashes
      case None => (HashFailed, k)
      case Some(h) =>
        var k1 := if WantsSha1(mode) && h.0 != "" then k.(sha1Text := h.0) else k;
        (Filled, if WantsSha256(mode) && h.1 != "" then k1.(sha256Text := h.1) else k1)
  }

  /** After a fill, a requested digest's status shown reads "Hash set". */
  lemma FilledDigestIsSet(k: Controls, imagePath: string, f: ImageFile, mode: Mode)
    requires Calculate(k, imagePath, f, mode).0 == Filled
    ensures WantsSha1(mode) && f.hashes.value.0 != "" ==> StatusLabel(Calculate(k, imagePath, f, mode).1.sha1Text) == HASH_SET
    ensures WantsSha256(mode) && f.hashes.value.1 != "" ==> StatusLabel(Calculate(k, imagePath, f, mode).1.sha256Text) == HASH_SET
  {
  }

  /**
   * The calculator call of `CalculateHashesFromImage` on the whole file:
   * `CalculateBothHashes` for both digests, whose failed updates (`sha1Drops`,
   * `sha256Drops`) leave chunks out, or `CalculateHash` for one, with "" for
   * the digest not asked for.
   */
  method ImageDigests(crypto: HCalc.Crypto, dev: HCalc.Device, updateFailAt: Option<nat>,
                      sha1Drops: set<nat>, sha256Drops: set<nat>,
                      sha1: seq<byte> -> seq<byte>, sha256: seq<byte> -> seq<byte>, mode: Mode)
    returns (hashes: Option<(string, string)>)
    requires |dev.content| > 0
    ensures hashes.Some? && mode == Both ==>
      hashes.value == (HCalc.BytesToHex(sha1(HCalc.Kept(dev.content, sha1Drops, 0))),
                       HCalc.BytesToHex(sha256(HCalc.Kept(dev.content, sha256Drops, 0))))
    ensures hashes.Some? && mode == Sha1Only ==> hashes.value == (HCalc.BytesToHex(sha1(dev.content)), "")
    ensures hashes.Some? && mode == Sha256Only ==> hashes.value == ("", HCalc.BytesToHex(sha256(dev.content)))
    ensures HCalc.CryptoOk(crypto) && dev.seekOk && HCalc.RangeReadable(dev, 0, |dev.content|, updateFailAt) ==>
      hashes.Some?
  {
    assert dev.content[0..|dev.content|] == dev.content;
    if mode == Both {
      var both, _ := HCalc.CalculateBothHashes(crypto, dev, 0, |dev.content|, sha1Drops, sha256Drops, sha1, sha256);
      hashes := both;
    } else if mode == Sha1Only {
      var one, _ := HCalc.CalculateHash(crypto, dev, 0, |dev.content|, updateFailAt, sha1);
      hashes := if one.Some? then Some((one.value, "")) else None;
    } else {
      var one, _ := HCalc.CalculateHash(crypto, dev, 0, |dev.content|, updateFailAt, sha256);
      hashes := if one.Some? then Some(("", one.value)) else None;
    }
  }

  /**
   * `CalculateHashesFromImage` with the calculator inside: the whole image
   * file `dev` is hashed from offset 0, by `CalculateBothHashes` when both
   * digests are asked for and by `CalculateHash` otherwise; `sizeKnown` is
   * whether `GetFileSizeEx` succeeds. A filled digest is the upper-case hex
   * of the file's digest (in one pass, less the chunks whose update failed),
   * and a readable file with working crypto is filled.
   */
  method CalculateFromImage(k: Controls, imagePath: string, opens: bool, sizeKnown: bool,
                            crypto: HCalc.Crypto, dev: HCalc.Device, updateFailAt: Option<nat>,
                            sha1Drops: set<nat>, sha256Drops: set<nat>,
                            sha1: seq<byte> -> seq<byte>, sha256: seq<byte> -> seq<byte>, mode: Mode)
    returns (r: (CalcOutcome, Controls))
    ensures r.0 != Filled ==> r.1 == k
    ensures r.0 == NoImage <==> imagePath == ""
    ensures r.0 == OpenFailed <==> imagePath != "" && !opens
    ensures r.0 == NoSize <==> imagePath != "" && opens && (!sizeKnown || |dev.content| == 0)
    ensures r.0 == Filled && mode != Both ==>
      (WantsSha1(mode) && sha1(dev.content) != [] ==> r.1.sha1Text == HCalc.BytesToHex(sha1(dev.content))) &&
      (WantsSha256(mode) && sha256(dev.content) != [] ==> r.1.sha256Text == HCalc.BytesToHex(sha256(dev.content))) &&
      (!WantsSha1(mode) ==> r.1.sha1Text == k.sha1Text) && (!WantsSha256(mode) ==> r.1.sha256Text == k.sha256Text)
    ensures r.0 == Filled && mode == Both && sha1(HCalc.Kept(dev.content, sha1Drops, 0)) != [] ==>
      r.1.sha1Text == HCalc.BytesToHex(sha1(HCalc.Kept(dev.content, sha1Drops, 0)))
    ensures r.0 == Filled && mode == Both && sha256(HCalc.Kept(dev.content, sha256Drops, 0)) != [] ==>
      r.1.sha256Text == HCalc.BytesToHex(sha256(HCalc.Kept(dev.content, sha256Drops, 0)))
    ensures (imagePath != "" && opens && sizeKnown && |dev.content| > 0 &&
             HCalc.CryptoOk(crypto) && dev.seekOk && HCalc.RangeReadable(dev, 0, |dev.content|, updateFailAt)) ==>
      r.0 == Filled
  {
    var size := if sizeKnown then Some(|dev.content|) else None;
    var hashes: Option<(string, string)> := None;
    if imagePath != "" && opens && sizeKnown && |dev.content| > 0 {
      hashes := ImageDigests(crypto, dev, updateFailAt, sha1Drops, sha256Drops, sha1, sha256, mode);
    }
    r := Calculate(k, imagePath, ImageFile(opens, size, hashes), mode);
  }
}
