/**
 * The native multi-drive front-end's hash settings and the `.hashcfg` file it
 * keeps next to an image: two `KEY=value` lines written as 8-bit text and read
 * back by searching the text for each key.
 *
 * Wide strings are sequences of 16-bit characters, one `char` each; the file's
 * bytes are held as characters below 256.
 */
module OdinMConfig {
  import opened Common

  /** The `HashConfig` record of the native dialog. */
  datatype HashConfig = HashConfig(
    partitionNumber: int,
    partitionType: string,
    sha1Enabled: bool,
    sha256Enabled: bool,
    sha1Expected: string,
    sha256Expected: string,
    failOnSha1: bool,
    failOnSha256: bool,
    imagePath: string)

  /** The defaults: partition 1, SHA-1 checked and enforced, SHA-256 off, no expected values. */
  function DefaultHashConfig(): (c: HashConfig)
    ensures c.partitionNumber == 1
    ensures c.sha1Enabled && c.failOnSha1 && !c.sha256Enabled && !c.failOnSha256
    ensures c.sha1Expected == "" && c.sha256Expected == "" && c.imagePath == "" && c.partitionType == ""
  {
    HashConfig(1, "", true, false, "", "", true, false, "")
  }

  // ----- 8-bit text ------------------------------------------------------------------

  /** The loader reads at most this many bytes: its buffer is 4096 bytes with room for a terminator. */
  const READ_LIMIT: nat := 4095

  /** `static_cast<char>` of a wide character: its low 8 bits. */
  function Narrow(c: char): char
  {
    ((c as int) % 256) as char
  }

  function NarrowText(w: string): (t: string)
    ensures |t| == |w| && forall i :: 0 <= i < |w| ==> t[i] == Narrow(w[i])
  {
    seq(|w|, i requires 0 <= i < |w| => Narrow(w[i]))
  }

  /**
   * A byte widened to a wide character through a signed `char`: bytes from
   * 128 up become 0xFF80..0xFFFF.
   */
  function Widen(c: char): char
  {
    var b := (c as int) % 256;
    if b < 128 then b as char else (0xFF00 + b) as char
  }

  function WidenText(t: string): (w: string)
    ensures |w| == |t| && forall i :: 0 <= i < |t| ==> w[i] == Widen(t[i])
  {
    seq(|t|, i requires 0 <= i < |t| => Widen(t[i]))
  }

  predicate IsAscii(w: string) { forall i :: 0 <= i < |w| ==> (w[i] as int) < 128 }

  /** ASCII text survives being written as bytes and read back. */
  lemma AsciiSurvives(w: string)
    requires IsAscii(w)
    ensures NarrowText(w) == w && WidenText(NarrowText(w)) == w
  {
  }

  /** A character above 127 does not: 'é' (0xE9) comes back as 0xFFE9. */
  lemma NonAsciiChanges()
    ensures WidenText(NarrowText("é")) == "￩"
  {
    assert Narrow('é') == 'é';
  }

  // ----- searching ---------------------------------------------------------------------

  predicate OccursAt(text: string, pat: string, i: nat)
  {
    i + |pat| <= |text| && text[i..i + |pat|] == pat
  }

  /** `std::string::find(pat, from)`: the first position at or after `from` where `pat` occurs. */
  function Find(text: string, pat: string, from: nat): (r: Option<nat>)
    ensures r.Some? ==> from <= r.value && OccursAt(text, pat, r.value)
    decreases |text| - from
  {
    if from + |pat| > |text| then None
    else if text[from..from + |pat|] == pat then Some(from)
    else Find(text, pat, from + 1)
  }

  /** `Find` answers the first occurrence, and nothing when there is none. */
  lemma {:induction false} FindSpec(text: string, pat: string, from: nat)
    ensures Find(text, pat, from).Some? ==>
      forall k :: from <= k < Find(text, pat, from).value ==> !OccursAt(text, pat, k)
    ensures Find(text, pat, from).None? ==> forall k :: from <= k ==> !OccursAt(text, pat, k)
    decreases |text| - from
  {
    if from + |pat| > |text| {
    } else if text[from..from + |pat|] == pat {
    } else {
      FindSpec(text, pat, from + 1);
    }
  }

  /** An occurrence with none before it (from `from` on) is what `Find` answers. */
  lemma FindFirst(text: string, pat: string, from: nat, i: nat)
    requires from <= i && OccursAt(text, pat, i)
    requires forall k :: from <= k < i ==> !OccursAt(text, pat, k)
    ensures Find(text, pat, from).Some? && Find(text, pat, from).value == i
  {
    FindSpec(text, pat, from);
  }

  lemma Mismatch(text: string, pat: string, k: nat, j: nat)
    requires 0 <= j < |pat| && k + j < |text| && text[k + j] != pat[j]
    ensures !OccursAt(text, pat, k)
  {
    if k + |pat| <= |text| {
      assert text[k..k + |pat|][j] == text[k + j];
    }
  }

  // ----- the file ----------------------------------------------------------------------

  /** Drops one trailing carriage return. */
  function Chomp(v: string): (r: string)
    ensures r == v || (|v| > 0 && v[|v| - 1] == '\r' && r == v[..|v| - 1])
    ensures |v| > 0 && v[|v| - 1] == '\r' ==> r == v[..|v| - 1]
  {
    if |v| > 0 && v[|v| - 1] == '\r' then v[..|v| - 1] else v
  }

  /**
   * The loader's `parse(key)`: the text after the first `key=` up to the next
   * line feed, without one trailing carriage return, or "" when the key is
   * absent. A line feed inside the key itself would make the length wrap, and
   * the value then runs to the end of the text.
   */
  function Value(text: string, key: string): string
  {
    match Find(text, key + "=", 0)
    case None => ""
    case Some(p) => Chomp(LineFrom(text, p + |key| + 1, Find(text, "\n", p)))
  }

  /** The text from `start` up to the line feed found at `lf`, or to the end when it lies before `start` or is missing. */
  function LineFrom(text: string, start: nat, lf: Option<nat>): string
    requires start <= |text|
  {
    match lf
    case Some(e) => if start <= e <= |text| then text[start..e] else text[start..]
    case None => text[start..]
  }

  function Content(sha1: string, sha256: string): string
  {
    "SHA1=" + NarrowText(sha1) + "\r\n" + "SHA256=" + NarrowText(sha256) + "\r\n"
  }

  /**
   * `SaveHashConfig`: the bytes written, or None when the image path is empty
   * or the file cannot be created.
   */
  function Save(c: HashConfig, imagePath: string, createOk: bool): (file: Option<string>)
    ensures file.Some? <==> imagePath != "" && createOk
    ensures file.Some? ==> |file.value| == |c.sha1Expected| + |c.sha256Expected| + 16
    ensures file.Some? ==> forall i :: 0 <= i < |file.value| ==> (file.value[i] as int) < 256
  {
    if imagePath == "" || !createOk then None else Some(Content(c.sha1Expected, c.sha256Expected))
  }

  /**
   * `LoadHashConfig`: false for an empty image path or a file that cannot be
   * opened; otherwise both expected values are replaced by what the first 4095
   * bytes hold, "" for a missing key.
   */
  function Load(c: HashConfig, imagePath: string, file: Option<string>): (r: (bool, HashConfig))
    ensures r.0 <==> imagePath != "" && file.Some?
    ensures !r.0 ==> r.1 == c
    ensures r.1 == c.(sha1Expected := r.1.sha1Expected, sha256Expected := r.1.sha256Expected)
  {
    if imagePath == "" || file.None? then (false, c)
    else
      var text := if |file.value| <= READ_LIMIT then file.value else file.value[..READ_LIMIT];
      (true, c.(sha1Expected := WidenText(Value(text, "SHA1")),
                sha256Expected := WidenText(Value(text, "SHA256"))))
  }

  predicate NoLineFeed(w: string) { forall i :: 0 <= i < |w| ==> w[i] != '\n' }

  /** Inside an occurrence of `w`, a position holding no line feed in `w` starts no line feed. */
  lemma NoLineFeedAt(text: string, w: string, start: nat, k: nat)
    requires OccursAt(text, w, start) && start <= k < start + |w| && w[k - start] != '\n'
    ensures !OccursAt(text, "\n", k)
  {
    assert text[start..start + |w|][k - start] == text[k];
    Mismatch(text, "\n", k, 0);
  }

  /** The first line feed from `key=` on is the one ending the value's line. */
  lemma LineFeedAfterValue(text: string, key: string, p: nat, v: string)
    requires NoLineFeed(key) && NoLineFeed(v)
    requires OccursAt(text, key + "=", p)
    requires OccursAt(text, v + "\r\n", p + |key| + 1)
    ensures Find(text, "\n", p).Some? && Find(text, "\n", p).value == p + |key| + 1 + |v| + 1
  {
    var kq := key + "=";
    var vl := v + "\r\n";
    var start := p + |key| + 1;
    var e := start + |v| + 1;
    assert text[start..start + |vl|][|v| + 1] == text[e];
    assert text[e..e + 1] == "\n";
    forall k | p <= k < e
      ensures !OccursAt(text, "\n", k)
    {
      if k < start {
        NoLineFeedAt(text, kq, p, k);
      } else {
        NoLineFeedAt(text, vl, start, k);
      }
    }
    FindFirst(text, "\n", p, e);
  }

  /** A value followed by CR LF right after the first `key=` is what `Value` reads. */
  lemma ValueAt(text: string, key: string, p: nat, v: string)
    requires NoLineFeed(key) && NoLineFeed(v)
    requires OccursAt(text, key + "=", p)
    requires forall k :: 0 <= k < p ==> !OccursAt(text, key + "=", k)
    requires OccursAt(text, v + "\r\n", p + |key| + 1)
    ensures Value(text, key) == v
  {
    var start := p + |key| + 1;
    var e := start + |v| + 1;
    FindFirst(text, key + "=", 0, p);
    LineFeedAfterValue(text, key, p, v);
    ValueBetween(text, key, p, e);
    ValueSlice(text, v, start);
  }

  /** `Value` once both searches are answered. */
  lemma ValueBetween(text: string, key: string, p: nat, e: nat)
    requires Find(text, key + "=", 0).Some? && Find(text, key + "=", 0).value == p
    requires Find(text, "\n", p).Some? && Find(text, "\n", p).value == e && p + |key| + 1 <= e
    ensures Value(text, key) == Chomp(text[p + |key| + 1..e])
  {
    var found := Find(text, key + "=", 0);
    var lf := Find(text, "\n", p);
    assert OccursAt(text, "\n", e);
    assert LineFrom(text, p + |key| + 1, lf) == text[p + |key| + 1..e];
    assert found == Some(p);
  }

  lemma ValueSlice(text: string, v: string, start: nat)
    requires OccursAt(text, v + "\r\n", start)
    ensures Chomp(text[start..start + |v| + 1]) == v
  {
    assert text[start..start + |v| + 1] == text[start..start + |v| + 2][..|v| + 1];
    assert text[start..start + |v| + 1] == v + "\r";
  }

  predicate Contains(w: string, pat: string) { exists k :: 0 <= k <= |w| && OccursAt(w, pat, k) }

  /** No occurrence of `SHA256=` starts before the second line. */
  lemma SecondKeyFirst(a: string, b: string)
    requires NoLineFeed(a) && !Contains(a, "SHA256=")
    ensures forall k :: 0 <= k < |a| + 7 ==>
      !OccursAt("SHA1=" + a + "\r\n" + "SHA256=" + b + "\r\n", "SHA256=", k)
  {
    var text := "SHA1=" + a + "\r\n" + "SHA256=" + b + "\r\n";
    var pat := "SHA256=";
    var q := 5 + |a|;
    assert text[q] == '\r' && text[q + 1] == '\n';
    forall k | 0 <= k < |a| + 7
      ensures !OccursAt(text, pat, k)
    {
      if k == 0 {
        Mismatch(text, pat, k, 3);
      } else if k < 5 {
        Mismatch(text, pat, k, 0);
      } else if k + 7 <= q {
        if OccursAt(text, pat, k) {
          assert text[k..k + 7] == a[k - 5..k + 2];
          assert OccursAt(a, pat, k - 5);
        }
      } else if k <= q {
        Mismatch(text, pat, k, q - k);
      } else {
        Mismatch(text, pat, k, 0);
      }
    }
  }

  /**
   * Saving and loading again gives back both expected values, for ASCII
   * values without line feeds, a SHA-1 value that does not contain
   * `SHA256=`, and a file that fits the loader's 4095 bytes.
   */
  lemma SaveLoadRoundTrip(c: HashConfig, imagePath: string, target: HashConfig)
    requires imagePath != ""
    requires IsAscii(c.sha1Expected) && IsAscii(c.sha256Expected)
    requires NoLineFeed(c.sha1Expected) && NoLineFeed(c.sha256Expected)
    requires !Contains(c.sha1Expected, "SHA256=")
    requires |c.sha1Expected| + |c.sha256Expected| + 16 <= READ_LIMIT
    ensures Load(target, imagePath, Save(c, imagePath, true)) ==
      (true, target.(sha1Expected := c.sha1Expected, sha256Expected := c.sha256Expected))
  {
    var a, b := c.sha1Expected, c.sha256Expected;
    AsciiSurvives(a);
    AsciiSurvives(b);
    var text := Content(a, b);
    assert text == "SHA1=" + a + "\r\n" + "SHA256=" + b + "\r\n";
    FirstValueReads(a, b, text);
    SecondValueReads(a, b, text);
  }

  /** The first line of a saved file reads back as the SHA-1 value. */
  lemma FirstValueReads(a: string, b: string, text: string)
    requires NoLineFeed(a)
    requires text == "SHA1=" + a + "\r\n" + "SHA256=" + b + "\r\n"
    ensures Value(text, "SHA1") == a
  {
    assert OccursAt(text, "SHA1" + "=", 0);
    assert text[5..5 + |a| + 2] == a + "\r\n";
    ValueAt(text, "SHA1", 0, a);
  }

  /** The second line of a saved file reads back as the SHA-256 value. */
  lemma SecondValueReads(a: string, b: string, text: string)
    requires NoLineFeed(a) && NoLineFeed(b) && !Contains(a, "SHA256=")
    requires text == "SHA1=" + a + "\r\n" + "SHA256=" + b + "\r\n"
    ensures Value(text, "SHA256") == b
  {
    var p := |a| + 7;
    assert text[p..p + 7] == "SHA256" + "=";
    SecondKeyFirst(a, b);
    assert "SHA256" + "=" == "SHA256=";
    assert text[p + 7..p + 7 + |b| + 2] == b + "\r\n";
    ValueAt(text, "SHA256", p, b);
  }
}
