/**
 * The two digest dialogs: the one that hashes an image and compares the result
 * with a pasted value, and the one that checks the last logged digests against
 * the configured per-partition expectations. Only their decisions are
 * modelled: which verdict, which style, which checks run and whether all pass.
 */
module HashDialog {
  import opened Common
  import HW = HashWorker
  import HC = HashConfig
  import HL = HashLog

  /** The placeholder shown in a digest field before anything is computed. */
  const PLACEHOLDER: string := "\U{2014}"

  datatype Style = Secondary | Success | Warning | Danger

  // ----- age of the last digest -------------------------------------------------

  /** `_age_info`: the "last verified" text and its style for an age in days. */
  function AgeInfo(days: Option<int>): (r: (string, Style))
    ensures days.None? <==> r.1 == Secondary
    ensures r.1 == Warning <==> days.Some? && days.value >= HL.STALE_DAYS
    ensures days == Some(0) ==> r.0 == "Today"
    ensures days == Some(1) ==> r.0 == "Yesterday"
    ensures days.Some? && days.value != 0 && days.value != 1 ==>
      StartsWith(r.0, IntToDecimal(days.value) + " days ago")
  {
    if days.None? then ("Never", Secondary)
    else if days.value == 0 then ("Today", Success)
    else if days.value == 1 then ("Yesterday", Success)
    else if days.value >= 30 then
      (IntToDecimal(days.value) + " days ago  " + PLACEHOLDER + "  rehash recommended", Warning)
    else (IntToDecimal(days.value) + " days ago", Success)
  }

  /** The dialog warns exactly when the log calls the image stale. */
  lemma AgeWarnsIffStale(log: HL.Log, path: string, ageOf: string -> Option<int>)
    ensures AgeInfo(HL.DaysSince(log, path, ageOf)).1 == Warning <==> HL.IsStale(log, path, ageOf)
  {
  }

  // ----- comparing with a pasted digest ---------------------------------------------

  datatype Algorithm = Sha1 | Sha256

  datatype Verdict =
    | EnterExpected
    | NotComputed
    | Unrecognised(length: nat)
    | Match(algo: Algorithm)
    | Mismatch(algo: Algorithm)

  /** Text as the comparison sees it: surrounding whitespace dropped, lower case. */
  function Canonical(s: string): string
  {
    ToLower(Strip(s))
  }

  /**
   * `_compare`: the expected text picks the algorithm by its length (64 for
   * SHA-256, 40 for SHA-1) and matches when equal, ignoring case and
   * surrounding whitespace, to that algorithm's field.
   */
  function Compare(expected: string, sha256Field: string, sha1Field: string): (v: Verdict)
    ensures v == EnterExpected <==> Canonical(expected) == ""
    ensures v == NotComputed <==>
      Canonical(expected) != "" && Canonical(sha256Field) in {PLACEHOLDER, ""}
    ensures v.Match? || v.Mismatch? ==>
      v.algo == (if |Canonical(expected)| == 64 then Sha256 else Sha1)
      && |Canonical(expected)| in {40, 64}
    ensures v.Match? ==>
      Canonical(expected) == (if v.algo == Sha256 then Canonical(sha256Field) else Canonical(sha1Field))
    ensures v.Mismatch? ==>
      Canonical(expected) != (if v.algo == Sha256 then Canonical(sha256Field) else Canonical(sha1Field))
    ensures v.Unrecognised? ==> v.length == |Canonical(expected)| && v.length !in {40, 64}
  {
    var e := Canonical(expected);
    if e == "" then EnterExpected
    else
      var sha256 := Canonical(sha256Field);
      var sha1 := Canonical(sha1Field);
      if sha256 == PLACEHOLDER || sha256 == "" then NotComputed
      else if |e| == 64 then (if e == sha256 then Match(Sha256) else Mismatch(Sha256))
      else if |e| == 40 then (if e == sha1 then Match(Sha1) else Mismatch(Sha1))
      else Unrecognised(|e|)
  }

  predicate IsLowerHex(s: string)
  {
    forall i :: 0 <= i < |s| ==> '0' <= s[i] <= '9' || 'a' <= s[i] <= 'f'
  }

  lemma LowerHexIsCanonical(d: string)
    requires IsLowerHex(d)
    ensures Canonical(d) == d
    ensures Canonical(ToUpper(d)) == d
  {
    NoSpaceStrips(d);
    var u := ToUpper(d);
    assert forall i :: 0 <= i < |u| ==> !IsSpace(u[i]);
    NoSpaceStrips(u);
    LowerFixes(d);
    LowerUndoesUpper(d);
  }

  lemma NoSpaceStrips(s: string)
    requires forall i :: 0 <= i < |s| ==> !IsSpace(s[i])
    ensures Strip(s) == s
  {
    StripUntouched(s);
  }

  lemma LowerFixes(d: string)
    requires IsLowerHex(d)
    ensures ToLower(d) == d
  {
    assert forall i :: 0 <= i < |d| ==> LowerChar(d[i]) == d[i];
  }

  lemma LowerUndoesUpper(d: string)
    requires IsLowerHex(d)
    ensures ToLower(ToUpper(d)) == d
  {
    assert forall i :: 0 <= i < |d| ==> LowerChar(UpperChar(d[i])) == d[i];
  }

  /**
   * After a successful hash the fields hold lower-case hex digests; pasting
   * either digest, even in upper case, is a match for its algorithm.
   */
  lemma PastedDigestMatches(sha256: string, sha1: string, upper: bool)
    requires IsLowerHex(sha256) && |sha256| == 64
    requires IsLowerHex(sha1) && |sha1| == 40
    ensures Compare(if upper then ToUpper(sha256) else sha256, sha256, sha1) == Match(Sha256)
    ensures Compare(if upper then ToUpper(sha1) else sha1, sha256, sha1) == Match(Sha1)
  {
    LowerHexIsCanonical(sha256);
    LowerHexIsCanonical(sha1);
  }

  // ----- the hashing dialog -------------------------------------------------------

  datatype StatusText = Computing | DoneText | Cancelled | FailedText

  datatype HashView = HashView(
    progress: int,
    sha256Field: string,
    sha1Field: string,
    status: StatusText,
    verdict: Option<Verdict>,
    log: HL.Log)

  /**
   * `_on_done`: the bar goes to 100 whatever the outcome; on DONE the digests
   * are shown and logged, and compared when an expected value was entered.
   */
  function OnDone(v: HashView, path: string, expected: string, status: HW.HashStatus,
                  sha256: string, sha1: string, now: string): (w: HashView)
    ensures w.progress == 100
    ensures status == HW.Done ==>
      w.sha256Field == sha256 && w.sha1Field == sha1 && w.status == DoneText
      && w.log == HL.SaveEntry(v.log, path, sha256, sha1, now)
      && (Strip(expected) != "" ==> w.verdict == Some(Compare(expected, sha256, sha1)))
      && (Strip(expected) == "" ==> w.verdict == v.verdict)
    ensures status != HW.Done ==>
      w == v.(progress := 100, status := if status == HW.Stopped then Cancelled else FailedText)
  {
    var v1 := v.(progress := 100);
    if status == HW.Done then
      var v2 := v1.(sha256Field := sha256, sha1Field := sha1, status := DoneText,
                    log := HL.SaveEntry(v.log, path, sha256, sha1, now));
      if Strip(expected) != "" then v2.(verdict := Some(Compare(expected, sha256, sha1))) else v2
    else if status == HW.Stopped then v1.(status := Cancelled)
    else v1.(status := FailedText)
  }

  // ----- the stored-digest compliance check ---------------------------------------------

  /** Whether the stored dialog has digests to check: an entry with a non-empty SHA-256. */
  predicate HasStoredDigest(entry: Option<HL.LogEntry>)
  {
    entry.Some? && entry.value.sha256 != ""
  }

  datatype Check = Check(algo: Algorithm, pass: bool, stopFlag: bool)

  /** The checks one partition asks for: each enabled algorithm with a non-empty expected value. */
  function Checks(cfg: HC.PartitionCfg, sha256: string, sha1: string): (cs: seq<Check>)
    ensures |cs| == (if cfg.sha1Enabled && cfg.sha1Value != "" then 1 else 0)
                  + (if cfg.sha256Enabled && cfg.sha256Value != "" then 1 else 0)
    ensures cfg.sha1Enabled && cfg.sha1Value != "" ==>
      cs[0] == Check(Sha1, ToLower(sha1) == ToLower(cfg.sha1Value), cfg.sha1Fail)
    ensures cfg.sha256Enabled && cfg.sha256Value != "" ==>
      cs[|cs| - 1] == Check(Sha256, ToLower(sha256) == ToLower(cfg.sha256Value), cfg.sha256Fail)
  {
    var c1 := if cfg.sha1Enabled && cfg.sha1Value != "" then
      [Check(Sha1, ToLower(sha1) == ToLower(cfg.sha1Value), cfg.sha1Fail)] else [];
    var c256 := if cfg.sha256Enabled && cfg.sha256Value != "" then
      [Check(Sha256, ToLower(sha256) == ToLower(cfg.sha256Value), cfg.sha256Fail)] else [];
    c1 + c256
  }

  predicate AllPass(cs: seq<Check>)
  {
    forall i :: 0 <= i < |cs| ==> cs[i].pass
  }

  datatype PartitionReport = PartitionReport(number: int, checks: seq<Check>)

  /**
   * The compliance section of the stored dialog: one report per enabled
   * partition in ascending partition order, and whether every check performed
   * passed.
   */
  method Compliance(sha256: string, sha1: string, enabled: map<int, HC.PartitionCfg>)
    returns (reports: seq<PartitionReport>, allPass: bool)
    ensures |reports| == |SortedKeys(enabled.Keys)|
    ensures forall i :: 0 <= i < |reports| ==>
      reports[i].number == SortedKeys(enabled.Keys)[i] && reports[i].number in enabled
      && reports[i].checks == Checks(enabled[reports[i].number], sha256, sha1)
    ensures allPass <==> forall n :: n in enabled ==> AllPass(Checks(enabled[n], sha256, sha1))
  {
    var keys := SortedKeys(enabled.Keys);
    SortedKeysSpec(enabled.Keys);
    reports := [];
    allPass := true;
    var i := 0;
    while i < |keys|
      invariant 0 <= i <= |keys| && |reports| == i
      invariant forall j :: 0 <= j < i ==>
        reports[j].number == keys[j] && reports[j].checks == Checks(enabled[keys[j]], sha256, sha1)
      invariant allPass <==> forall j :: 0 <= j < i ==> AllPass(Checks(enabled[keys[j]], sha256, sha1))
    {
      var cs := Checks(enabled[keys[i]], sha256, sha1);
      reports := reports + [PartitionReport(keys[i], cs)];
      allPass := allPass && AllPass(cs);
      i := i + 1;
    }
    assert forall n :: n in enabled ==> n in keys;
  }

  /**
   * The stored dialog as a whole: with a logged SHA-256 and at least one
   * enabled partition it shows the compliance section, checking the logged
   * digests; otherwise it shows a notice instead.
   */
  method StoredCompliance(entry: Option<HL.LogEntry>, store: HC.Store, path: string)
    returns (section: Option<(seq<PartitionReport>, bool)>)
    ensures section.Some? <==> HasStoredDigest(entry) && HC.HasAnyEnabled(store, path)
    ensures section.Some? ==>
      (section.value.1 <==> forall n :: n in HC.GetEnabledPartitions(store, path) ==>
        AllPass(Checks(HC.GetEnabledPartitions(store, path)[n], entry.value.sha256, entry.value.sha1)))
  {
    HC.EnabledIffAny(store, path);
    if !HasStoredDigest(entry) {
      return None;
    }
    var enabled := HC.GetEnabledPartitions(store, path);
    if |enabled| == 0 {
      return None;
    }
    var reports, allPass := Compliance(entry.value.sha256, entry.value.sha1, enabled);
    return Some((reports, allPass));
  }

  /** `_copy`: the clipboard takes a field's value unless it is empty or the placeholder. */
  function CopyValue(field: string): (r: Option<string>)
    ensures r.Some? <==> field != "" && field != PLACEHOLDER
    ensures r.Some? ==> r.value == field
  {
    if field != "" && field != PLACEHOLDER then Some(field) else None
  }
}
