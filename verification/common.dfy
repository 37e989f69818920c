/**
 * Shared vocabulary of the model: optional values, bytes, decimal text and the
 * handful of Python/C string operations (strip, lower, upper) the tool relies on.
 * Text is `seq<char>`; case mapping and whitespace are the ASCII ones.
 */
module Common {

  datatype Option<T> = None | Some(value: T)

  /** An 8-bit byte as read from a file or a device. */
  type byte = b: int | 0 <= b < 256

  // ----- decimal text ------------------------------------------------------

  predicate IsDigit(c: char) { '0' <= c <= '9' }

  predicate AllDigits(s: string) { forall i :: 0 <= i < |s| ==> IsDigit(s[i]) }

  function DigitChar(d: nat): (c: char)
    requires d < 10
    ensures IsDigit(c)
  {
    (('0' as int) + d) as char
  }

  function DigitValue(c: char): (d: nat)
    requires IsDigit(c)
    ensures d < 10
  {
    (c as int) - ('0' as int)
  }

  /** Decimal rendering of a natural number, as Python `str()` and C `%u` write it. */
  function NatToDecimal(n: nat): (s: string)
    ensures 1 <= |s| && AllDigits(s)
    ensures s[0] == '0' ==> n == 0
    decreases n
  {
    if n < 10 then [DigitChar(n)] else NatToDecimal(n / 10) + [DigitChar(n % 10)]
  }

  /** Value of a string of decimal digits (the empty string reads as 0). */
  function DecimalValue(s: string): nat
    requires AllDigits(s)
  {
    if |s| == 0 then 0 else DecimalValue(s[..|s| - 1]) * 10 + DigitValue(s[|s| - 1])
  }

  lemma {:induction false} DecimalRoundTrip(n: nat)
    ensures DecimalValue(NatToDecimal(n)) == n
    decreases n
  {
    if n >= 10 {
      var s := NatToDecimal(n);
      DecimalRoundTrip(n / 10);
      assert s[..|s| - 1] == NatToDecimal(n / 10);
    }
  }

  /** Decimal rendering of a signed integer (a leading '-' for negatives). */
  function IntToDecimal(i: int): (s: string)
    ensures 1 <= |s|
  {
    if i < 0 then "-" + NatToDecimal(-i) else NatToDecimal(i)
  }

  /** `s` left-padded with '0' up to `width` characters, as `%0<width>u` does. */
  function ZeroPad(s: string, width: nat): (r: string)
    ensures |r| == if |s| >= width then |s| else width
    ensures r[|r| - |s|..] == s
    ensures forall i :: 0 <= i < |r| - |s| ==> r[i] == '0'
    decreases width - |s|
  {
    if |s| >= width then s else ZeroPad("0" + s, width)
  }

  /** A leading zero does not change a decimal value. */
  lemma {:induction false} LeadingZeroValue(s: string)
    requires AllDigits(s)
    ensures AllDigits("0" + s) && DecimalValue("0" + s) == DecimalValue(s)
    decreases |s|
  {
    if |s| > 0 {
      var t := "0" + s;
      assert t[..|t| - 1] == "0" + s[..|s| - 1];
      LeadingZeroValue(s[..|s| - 1]);
    }
  }

  /** Zero padding keeps the digits and their value. */
  lemma {:induction false} ZeroPadValue(s: string, width: nat)
    requires AllDigits(s)
    ensures AllDigits(ZeroPad(s, width)) && DecimalValue(ZeroPad(s, width)) == DecimalValue(s)
    decreases width - |s|
  {
    if |s| < width {
      LeadingZeroValue(s);
      ZeroPadValue("0" + s, width);
    }
  }

  /**
   * Python's integer parser `int(text)` on decimal text: surrounding whitespace,
   * an optional sign, then at least one ASCII digit.
   */
  function ParseInt(text: string): Option<int>
  {
    var t := Strip(text);
    if |t| > 0 && (t[0] == '-' || t[0] == '+') then
      var body := t[1..];
      if |body| > 0 && AllDigits(body) then
        Some(if t[0] == '-' then 0 - DecimalValue(body) else DecimalValue(body) as int)
      else None
    else if |t| > 0 && AllDigits(t) then Some(DecimalValue(t))
    else None
  }

  lemma ParseIntOfDecimal(i: int)
    ensures ParseInt(IntToDecimal(i)) == Some(i)
  {
    var d := NatToDecimal(if i < 0 then -i else i);
    DecimalRoundTrip(if i < 0 then -i else i);
    assert !IsSpace(d[0]) && !IsSpace(d[|d| - 1]);
    if i < 0 {
      var s := "-" + d;
      StripUntouched(s);
      assert s[1..] == d;
    } else {
      StripUntouched(d);
    }
  }

  // ----- hexadecimal text --------------------------------------------------

  /** The upper-case Base16 alphabet of section 8 of RFC 4648. */
  const HEX_UPPER: string := "0123456789ABCDEF"

  predicate IsUpperHex(c: char) { '0' <= c <= '9' || 'A' <= c <= 'F' }

  function UpperHexDigit(n: nat): (c: char)
    requires n < 16
    ensures IsUpperHex(c)
  {
    HEX_UPPER[n]
  }

  function UpperHexValue(c: char): (n: nat)
    requires IsUpperHex(c)
    ensures n < 16
  {
    if c <= '9' then (c as int) - ('0' as int) else (c as int) - ('A' as int) + 10
  }

  lemma UpperHexDigitRoundTrip(n: nat)
    requires n < 16
    ensures UpperHexValue(UpperHexDigit(n)) == n
  {
    assert HEX_UPPER == ['0', '1', '2', '3', '4', '5', '6', '7', '8', '9', 'A', 'B', 'C', 'D', 'E', 'F'];
  }

  /** A byte as two upper-case hex digits, high nibble first (`%02X`). */
  function Hex2(b: byte): (s: string)
    ensures |s| == 2 && IsUpperHex(s[0]) && IsUpperHex(s[1])
  {
    [UpperHexDigit(b / 16), UpperHexDigit(b % 16)]
  }

  lemma Hex2RoundTrip(b: byte)
    ensures UpperHexValue(Hex2(b)[0]) * 16 + UpperHexValue(Hex2(b)[1]) == b
  {
    UpperHexDigitRoundTrip(b / 16);
    UpperHexDigitRoundTrip(b % 16);
  }

  // ----- whitespace and case ------------------------------------------------

  /** Python `str.isspace` restricted to the characters the tool can meet (ASCII and U+FFFD). */
  predicate IsSpace(c: char)
  {
    c == ' ' || c == '\t' || c == '\n' || c == '\r' || c == '\U{B}' || c == '\U{C}'
    || ('\U{1C}' <= c <= '\U{1F}')
  }

  function LStrip(s: string): (r: string)
    ensures |r| <= |s|
  {
    if |s| > 0 && IsSpace(s[0]) then LStrip(s[1..]) else s
  }

  function RStrip(s: string): (r: string)
    ensures |r| <= |s|
  {
    if |s| > 0 && IsSpace(s[|s| - 1]) then RStrip(s[..|s| - 1]) else s
  }

  /** Python `str.strip()`. */
  function Strip(s: string): (r: string)
    ensures |r| <= |s|
  {
    LStrip(RStrip(s))
  }

  /** Stripping removes only whitespace, from the ends, and leaves no whitespace at either end. */
  lemma {:induction false} RStripSpec(s: string)
    ensures RStrip(s) == s[..|RStrip(s)|]
    ensures |RStrip(s)| > 0 ==> !IsSpace(RStrip(s)[|RStrip(s)| - 1])
    ensures forall i :: |RStrip(s)| <= i < |s| ==> IsSpace(s[i])
    decreases |s|
  {
    if |s| > 0 && IsSpace(s[|s| - 1]) {
      RStripSpec(s[..|s| - 1]);
    }
  }

  lemma {:induction false} LStripSpec(s: string)
    ensures LStrip(s) == s[|s| - |LStrip(s)|..]
    ensures |LStrip(s)| > 0 ==> !IsSpace(LStrip(s)[0])
    ensures forall i :: 0 <= i < |s| - |LStrip(s)| ==> IsSpace(s[i])
    decreases |s|
  {
    if |s| > 0 && IsSpace(s[0]) {
      LStripSpec(s[1..]);
    }
  }

  lemma StripUntouched(s: string)
    requires |s| > 0 ==> !IsSpace(s[0]) && !IsSpace(s[|s| - 1])
    ensures Strip(s) == s
  {
  }

  function LowerChar(c: char): char
  {
    if 'A' <= c <= 'Z' then (c as int + 32) as char else c
  }

  function UpperChar(c: char): char
  {
    if 'a' <= c <= 'z' then (c as int - 32) as char else c
  }

  /** Python `str.lower()` / C `towlower`, on ASCII letters. */
  function ToLower(s: string): (r: string)
    ensures |r| == |s| && forall i :: 0 <= i < |s| ==> r[i] == LowerChar(s[i])
  {
    if |s| == 0 then [] else [LowerChar(s[0])] + ToLower(s[1..])
  }

  /** C `towupper` applied character by character, on ASCII letters. */
  function ToUpper(s: string): (r: string)
    ensures |r| == |s| && forall i :: 0 <= i < |s| ==> r[i] == UpperChar(s[i])
  {
    if |s| == 0 then [] else [UpperChar(s[0])] + ToUpper(s[1..])
  }

  // ----- ordered keys ---------------------------------------------------------

  predicate IsMinOf(m: int, s: set<int>)
  {
    m in s && forall y :: y in s ==> m <= y
  }

  lemma SetElement(s: set<int>)
    ensures s == {} || exists x :: x in s
  {
    if forall y :: y !in s {
      assert s == {};
    }
  }

  lemma {:induction false} SetHasMin(s: set<int>)
    requires s != {}
    ensures exists m :: IsMinOf(m, s)
    decreases |s|
  {
    SetElement(s);
    var x :| x in s;
    var rest := s - {x};
    if rest != {} {
      SetHasMin(rest);
      var m :| IsMinOf(m, rest);
      var least := if x < m then x else m;
      forall y | y in s
        ensures least <= y
      {
        if y != x {
          assert y in rest;
        }
      }
      assert IsMinOf(least, s);
    } else {
      forall y | y in s
        ensures x <= y
      {
        assert y !in rest;
      }
      assert IsMinOf(x, s);
    }
  }

  function MinOf(s: set<int>): (m: int)
    requires s != {}
    ensures IsMinOf(m, s)
  {
    SetHasMin(s);
    var m :| IsMinOf(m, s); m
  }

  /** The elements of a finite set of integers in ascending order (Python `sorted`). */
  function SortedKeys(s: set<int>): (r: seq<int>)
    decreases |s|
  {
    if s == {} then [] else [MinOf(s)] + SortedKeys(s - {MinOf(s)})
  }

  lemma {:induction false} SortedKeysSpec(s: set<int>)
    ensures forall x :: x in SortedKeys(s) <==> x in s
    ensures forall i, j :: 0 <= i < j < |SortedKeys(s)| ==> SortedKeys(s)[i] < SortedKeys(s)[j]
    decreases |s|
  {
    if s != {} {
      var m := MinOf(s);
      SortedKeysSpec(s - {m});
      ConsSorted(m, s, SortedKeys(s - {m}));
      assert SortedKeys(s) == [m] + SortedKeys(s - {m});
    }
  }

  /** The least element put before the others, listed in ascending order, lists them all in ascending order. */
  lemma ConsSorted(m: int, s: set<int>, rest: seq<int>)
    requires IsMinOf(m, s)
    requires forall x :: x in rest <==> x in s - {m}
    requires forall i, j :: 0 <= i < j < |rest| ==> rest[i] < rest[j]
    ensures forall x :: x in [m] + rest <==> x in s
    ensures forall i, j :: 0 <= i < j < |[m] + rest| ==> ([m] + rest)[i] < ([m] + rest)[j]
  {
    var r := [m] + rest;
    assert forall i :: 0 < i < |r| ==> r[i] == rest[i - 1] && r[i] in s - {m};
  }

  // ----- Windows paths ---------------------------------------------------------

  predicate IsSeparator(c: char) { c == '\\' || c == '/' }

  /** The text after the last `\` or `/`, or the whole path if it has neither. */
  function AfterLastSeparator(p: string): (r: string)
    ensures |r| <= |p| && r == p[|p| - |r|..]
    ensures forall i :: 0 <= i < |r| ==> !IsSeparator(r[i])
    ensures |r| < |p| ==> IsSeparator(p[|p| - |r| - 1])
  {
    if |p| == 0 || IsSeparator(p[|p| - 1]) then []
    else AfterLastSeparator(p[..|p| - 1]) + [p[|p| - 1]]
  }

  /** `os.path.basename` on Windows: the last component, a bare `X:` drive prefix dropped. */
  function Basename(p: string): (r: string)
    ensures |r| <= |p| && r == p[|p| - |r|..]
    ensures forall i :: 0 <= i < |r| ==> !IsSeparator(r[i])
    ensures |r| < |p| ==>
      (IsSeparator(p[|p| - |r| - 1]) ||
       (|r| == |p| - 2 && p[1] == ':' && forall i :: 0 <= i < |p| ==> !IsSeparator(p[i])))
  {
    var tail := AfterLastSeparator(p);
    if |tail| == |p| && |p| >= 2 && p[1] == ':' then p[2..] else tail
  }

  function NormChar(c: char): char
  {
    LowerChar(if c == '/' then '\\' else c)
  }

  /** `os.path.normcase` on Windows: forward slashes become backslashes, letters lower case. */
  function NormCase(p: string): (r: string)
    ensures |r| == |p| && forall i :: 0 <= i < |p| ==> r[i] == NormChar(p[i])
  {
    if |p| == 0 then [] else [NormChar(p[0])] + NormCase(p[1..])
  }

  lemma NormCaseIdempotent(p: string)
    ensures NormCase(NormCase(p)) == NormCase(p)
  {
    var n := NormCase(p);
    assert forall i :: 0 <= i < |p| ==> NormChar(n[i]) == n[i];
  }

  predicate StartsWith(s: string, prefix: string)
  {
    |prefix| <= |s| && s[..|prefix|] == prefix
  }
}
