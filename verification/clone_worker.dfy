/**
 * One ODINC child process per drive slot: the command line it is launched with,
 * the byte-by-byte reading of its merged stdout/stderr (log lines and "NN%"
 * progress markers), and the rule that turns its exit into a final status.
 * Threads and the Tk event queue are replaced by the ordered list of events the
 * worker posts.
 */
module CloneWorker {
  import opened Common

  datatype CloneStatus = Idle | Running | Done | Failed | Stopped

  datatype Mode = Restore | Backup

  /** What the worker posts to the user interface, in order. */
  datatype Event = Progress(pct: int) | Log(line: string) | Finished(status: CloneStatus)

  datatype Worker = Worker(
    odinc: string,
    image: string,
    drive: string,
    mode: Mode,
    extraFlags: Option<seq<string>>,
    status: CloneStatus)

  function NewWorker(odinc: string, image: string, drive: string, mode: Mode,
                     extraFlags: Option<seq<string>>): (w: Worker)
    ensures w.status == Idle
  {
    Worker(odinc, image, drive, mode, extraFlags, Idle)
  }

  // ----- start / stop ---------------------------------------------------------

  /** `start()`: the new worker state and whether a reader thread is launched. */
  function Start(w: Worker): (r: (Worker, bool))
    ensures r.0.status == Running
    ensures r.1 <==> w.status != Running
    ensures r.0 == w.(status := Running)
  {
    if w.status == Running then (w, false) else (w.(status := Running), true)
  }

  /** A second `start()` on a running worker launches nothing and changes nothing. */
  lemma StartIsIdempotent(w: Worker)
    ensures Start(Start(w).0) == (Start(w).0, false)
  {
  }

  /**
   * `stop()`: the status becomes Stopped at once; the process tree is killed
   * only when a process exists and has not exited yet.
   */
  function Stop(w: Worker, processAlive: bool): (r: (Worker, bool))
    ensures r.0.status == Stopped && r.0 == w.(status := Stopped)
    ensures r.1 <==> processAlive
  {
    (w.(status := Stopped), processAlive)
  }

  // ----- command line -----------------------------------------------------------

  const DefaultBackupFlags: seq<string> := ["-allBlocks", "-compression=none"]

  /** The ODINC argument vector for the worker's mode. */
  function Command(w: Worker): (cmd: seq<string>)
    ensures |cmd| >= 4 && cmd[0] == w.odinc
  {
    match w.mode
    case Backup =>
      var flags := if w.extraFlags.Some? then w.extraFlags.value else DefaultBackupFlags;
      [w.odinc, "-backup"] + flags + ["-source=" + w.drive, "-target=" + w.image]
    case Restore =>
      [w.odinc, "-restore", "-source=" + w.image, "-target=" + w.drive, "-force"]
  }

  /**
   * A restore reads the image and writes the drive with `-force`; a backup reads
   * the drive and writes the image, passing the chosen flags (or the all-blocks,
   * uncompressed defaults) between the verb and the endpoints.
   */
  lemma CommandDirection(w: Worker)
    ensures w.mode == Restore ==>
      Command(w) == [w.odinc, "-restore", "-source=" + w.image, "-target=" + w.drive, "-force"]
    ensures w.mode == Backup ==>
      var flags := if w.extraFlags.Some? then w.extraFlags.value else DefaultBackupFlags;
      |Command(w)| == |flags| + 4
      && Command(w)[1] == "-backup"
      && Command(w)[2..2 + |flags|] == flags
      && Command(w)[|flags| + 2] == "-source=" + w.drive
      && Command(w)[|flags| + 3] == "-target=" + w.image
  {
  }

  function Join(parts: seq<string>, sep: string): string
  {
    if |parts| == 0 then "" else if |parts| == 1 then parts[0] else parts[0] + sep + Join(parts[1..], sep)
  }

  // ----- reading the output stream ---------------------------------------------

  /** One byte decoded alone as UTF-8 with replacement: ASCII stays, anything else is U+FFFD. */
  function DecodeByte(b: byte): (c: char)
    ensures IsDigit(c) ==> b as int == c as int
    ensures b < 128 ==> c as int == b as int
    ensures b >= 128 ==> c == '\U{FFFD}'
  {
    if b < 128 then b as char else '\U{FFFD}'
  }

  function DecodeAll(bs: seq<byte>): (s: string)
    ensures |s| == |bs|
  {
    if |bs| == 0 then "" else DecodeAll(bs[..|bs| - 1]) + [DecodeByte(bs[|bs| - 1])]
  }

  /** `k` decimal digits start at position `i` of `s`. */
  predicate DigitRun(s: string, i: nat, k: nat)
    decreases k
  {
    k == 0 || (i < |s| && IsDigit(s[i]) && DigitRun(s, i + 1, k - 1))
  }

  lemma {:induction false} DigitRunIsAllDigits(s: string, i: nat, k: nat)
    requires i + k <= |s|
    ensures DigitRun(s, i, k) <==> AllDigits(s[i..i + k])
    decreases k
  {
    if k > 0 {
      DigitRunIsAllDigits(s, i + 1, k - 1);
      assert s[i..i + k] == [s[i]] + s[i + 1..i + k];
    }
  }

  /** The pattern `\d{1,3}%` matches at `i` with exactly `k` digits. */
  predicate Fits(s: string, i: nat, k: nat)
  {
    i + k < |s| && DigitRun(s, i, k) && s[i + k] == '%'
  }

  /** Digits taken by `\d{1,3}%` anchored at `i`; the greedy quantifier tries three first. */
  function MatchLenAt(s: string, i: nat): Option<nat>
  {
    if Fits(s, i, 3) then Some(3) else if Fits(s, i, 2) then Some(2)
    else if Fits(s, i, 1) then Some(1) else None
  }

  datatype Match = Match(start: nat, end: nat)

  /** `re.search(r"(\d{1,3})%", s[i..])`: the leftmost match at or after `i`. */
  function SearchFrom(s: string, i: nat): Option<Match>
    decreases |s| - i
  {
    if i >= |s| then None
    else match MatchLenAt(s, i)
      case Some(k) => Some(Match(i, i + k + 1))
      case None => SearchFrom(s, i + 1)
  }

  /**
   * The search finds nothing exactly when the pattern matches nowhere; otherwise
   * it reports the first matching position, one to three digits and the '%'.
   */
  lemma {:induction false} SearchFromSpec(s: string, i: nat)
    ensures var r := SearchFrom(s, i);
      && (r.None? <==> forall j :: i <= j < |s| ==> MatchLenAt(s, j).None?)
      && (r.Some? ==>
            i <= r.value.start && r.value.start + 2 <= r.value.end <= r.value.start + 4
            && r.value.end <= |s| && s[r.value.end - 1] == '%'
            && MatchLenAt(s, r.value.start) == Some(r.value.end - r.value.start - 1)
            && (forall j :: i <= j < r.value.start ==> MatchLenAt(s, j).None?))
    decreases |s| - i
  {
    if i < |s| && MatchLenAt(s, i).None? {
      SearchFromSpec(s, i + 1);
    }
  }

  function Search(s: string): Option<Match> { SearchFrom(s, 0) }

  /** Number of consecutive digits at the end of `s`. */
  function TrailingDigits(s: string): (n: nat)
    ensures n <= |s|
  {
    if |s| == 0 || !IsDigit(s[|s| - 1]) then 0 else 1 + TrailingDigits(s[..|s| - 1])
  }

  /** Text after the last newline of `s`. */
  function LineSoFar(s: string): string
  {
    if |s| == 0 then "" else if s[|s| - 1] == '\n' then "" else LineSoFar(s[..|s| - 1]) + [s[|s| - 1]]
  }

  function Min(a: int, b: int): int { if a <= b then a else b }

  /** Reference: a newline reports the line it ends, right-stripped. */
  function LineEvent(p: string, c: char): seq<Event>
  {
    if c == '\n' then [Log(RStrip(LineSoFar(p) + "\n"))] else []
  }

  /**
   * Reference: a '%' right after a digit reports the value of its last one to
   * three digits, capped at 100.
   */
  function PercentEvent(p: string, c: char): seq<Event>
  {
    var l := TrailingDigits(p);
    if c == '%' && l > 0 then [Progress(Min(DecimalValue(LastDigits(p, Min(l, 3))), 100))]
    else []
  }

  /** The last m characters of `p`, known to be digits. */
  function LastDigits(p: string, m: nat): (d: string)
    requires m <= TrailingDigits(p)
    ensures AllDigits(d) && d == p[|p| - m..]
  {
    TrailingDigitsSpan(p, |p| - m);
    p[|p| - m..]
  }

  /** Reference meaning of one more character `c` after the text `p`. */
  function EventsAfter(p: string, c: char): seq<Event>
  {
    LineEvent(p, c) + PercentEvent(p, c)
  }

  /** Reference meaning of a whole text: the events of each character in turn. */
  function RefEvents(s: string): seq<Event>
  {
    if |s| == 0 then [] else RefEvents(s[..|s| - 1]) + EventsAfter(s[..|s| - 1], s[|s| - 1])
  }

  lemma TrailingDigitsSpan(s: string, j: nat)
    requires j <= |s|
    ensures AllDigits(s[j..]) <==> j >= |s| - TrailingDigits(s)
    decreases |s|
  {
    if |s| > 0 && j < |s| {
      var q := s[..|s| - 1];
      if IsDigit(s[|s| - 1]) {
        TrailingDigitsSpan(q, j);
        assert s[j..] == q[j..] + [s[|s| - 1]];
      } else {
        assert !IsDigit(s[j..][|s| - 1 - j]);
      }
    }
  }

  /** Cutting the text right after a '%' leaves its trailing digits alone. */
  lemma TrailingDigitsAfterCut(p: string, k: nat)
    requires k <= |p| && (k == 0 || p[k - 1] == '%')
    ensures TrailingDigits(p[k..]) == TrailingDigits(p)
    decreases |p|
  {
    if k < |p| && IsDigit(p[|p| - 1]) {
      TrailingDigitsAfterCut(p[..|p| - 1], k);
      assert p[k..][..|p| - k - 1] == p[..|p| - 1][k..];
    } else if k == |p| && k > 0 {
      assert p[..|p| - 1][|p| - 1..] == [];
    }
  }

  /**
   * The buffer step: if the buffer `b` holds no match, appending `c` creates one
   * exactly when `c` is '%' right after a digit, and the leftmost such match
   * starts at the last one to three digits and ends at the new character.
   */
  lemma SearchAfterAppend(b: string, c: char)
    requires Search(b).None?
    ensures var l := TrailingDigits(b);
      Search(b + [c]) == if c == '%' && l > 0 then Some(Match(|b| - Min(l, 3), |b| + 1)) else None
  {
    var l := TrailingDigits(b);
    if c == '%' && l > 0 {
      MatchAfterAppend(b, c);
    } else {
      NoMatchAfterAppend(b, c);
    }
  }

  /** Without a match in `b`, the only place `b + [c]` can match is at its new last character. */
  lemma FitsAfterAppend(b: string, c: char, j: nat, k: nat)
    requires Search(b).None? && 1 <= k <= 3
    ensures Fits(b + [c], j, k) <==> (j + k == |b| && c == '%' && AllDigits(b[j..]))
  {
    var s := b + [c];
    if j + k < |b| {
      SameDigitRun(b, s, j, k);
      SearchFromSpec(b, 0);
      assert MatchLenAt(b, j).None?;
    } else if j + k == |b| {
      SameDigitRun(b, s, j, k);
      DigitRunIsAllDigits(b, j, k);
      assert b[j..j + k] == b[j..];
    }
  }

  lemma {:induction false} SameDigitRun(b: string, s: string, j: nat, k: nat)
    requires j + k <= |b| <= |s| && b == s[..|b|]
    ensures DigitRun(s, j, k) <==> DigitRun(b, j, k)
    decreases k
  {
    if k > 0 {
      SameDigitRun(b, s, j + 1, k - 1);
    }
  }

  lemma NoMatchAfterAppend(b: string, c: char)
    requires Search(b).None? && !(c == '%' && TrailingDigits(b) > 0)
    ensures Search(b + [c]).None?
  {
    var s := b + [c];
    forall j | 0 <= j < |s| ensures MatchLenAt(s, j).None? {
      forall k | 1 <= k <= 3 ensures !Fits(s, j, k) {
        FitsAfterAppend(b, c, j, k);
        if j + k == |b| && c == '%' { TrailingDigitsSpan(b, j); }
      }
    }
    SearchFromSpec(s, 0);
  }

  lemma MatchAfterAppend(b: string, c: char)
    requires Search(b).None? && c == '%' && TrailingDigits(b) > 0
    ensures Search(b + [c]) == Some(Match(|b| - Min(TrailingDigits(b), 3), |b| + 1))
  {
    var s := b + [c];
    var m := Min(TrailingDigits(b), 3);
    var j0 := |b| - m;
    assert MatchLenAt(s, j0) == Some(m) by {
      TrailingDigitsSpan(b, j0);
      forall k | 1 <= k <= 3 ensures Fits(s, j0, k) <==> k == m {
        FitsAfterAppend(b, c, j0, k);
      }
    }
    assert forall j :: 0 <= j < j0 ==> MatchLenAt(s, j).None? by {
      forall j | 0 <= j < j0
        ensures MatchLenAt(s, j).None?
      {
        forall k | 1 <= k <= 3 ensures !Fits(s, j, k) {
          FitsAfterAppend(b, c, j, k);
          if j + k == |b| { TrailingDigitsSpan(b, j); }
        }
      }
    }
    LeftmostMatch(s, j0, m);
  }

  /** The search reports the first position where the pattern matches. */
  lemma LeftmostMatch(s: string, j0: nat, m: nat)
    requires MatchLenAt(s, j0) == Some(m) && j0 < |s|
    requires forall j :: 0 <= j < j0 ==> MatchLenAt(s, j).None?
    ensures Search(s) == Some(Match(j0, j0 + m + 1))
  {
    var r := SearchFrom(s, 0);
    SearchFromSpec(s, 0);
    assert r.Some?;
    assert r.value.start == j0;
  }

  lemma RefEventsStep(p: string, c: char)
    ensures RefEvents(p + [c]) == RefEvents(p) + EventsAfter(p, c)
    ensures LineSoFar(p + [c]) == if c == '\n' then "" else LineSoFar(p) + [c]
  {
    assert (p + [c])[..|p|] == p;
  }

  lemma SuffixOfCut(p: string, cut: nat, c: char, m: nat)
    requires cut + m <= |p|
    ensures (p[cut..] + [c])[|p| - cut - m..|p| - cut] == p[|p| - m..]
  {
  }

  lemma ConcatAssoc(a: seq<Event>, b: seq<Event>, c: seq<Event>)
    ensures a + b + c == a + (b + c)
  {
  }

  /** Loop body, line part: extend the line buffer; on a newline post it right-stripped and reset it. */
  function FeedLine(line: string, ch: char): (string, seq<Event>)
  {
    var l := line + [ch];
    if ch == '\n' then ("", [Log(RStrip(l))]) else (l, [])
  }

  /**
   * Loop body, progress part: extend the progress buffer, post the value of the
   * first `\d{1,3}%` match in it (capped at 100) and drop the buffer up to the
   * end of that match.
   */
  function FeedPercent(buf: string, ch: char): (string, seq<Event>)
  {
    var b := buf + [ch];
    var m := Search(b);
    if m.Some? then
      var digits := MatchedDigits(b, m.value);
      (b[m.value.end..], [Progress(Min(DecimalValue(digits), 100))])
    else (b, [])
  }

  /** The digits of a match the search reported, and where the match ends. */
  function MatchedDigits(b: string, mt: Match): (d: string)
    requires Search(b) == Some(mt)
    ensures mt.start < mt.end <= |b| && AllDigits(d) && d == b[mt.start..mt.end - 1]
  {
    SearchFromSpec(b, 0);
    DigitRunIsAllDigits(b, mt.start, mt.end - mt.start - 1);
    b[mt.start..mt.end - 1]
  }

  /** The reader loop's variables: the progress buffer, the line buffer and what was posted. */
  datatype Reader = Reader(buf: string, line: string, events: seq<Event>)

  /** The body of the reading loop for one decoded character. */
  function Feed(r: Reader, ch: char): Reader
  {
    var (line, logged) := FeedLine(r.line, ch);
    var (buf, reported) := FeedPercent(r.buf, ch);
    Reader(buf, line, r.events + logged + reported)
  }

  /**
   * The progress buffer is the text after the last cut (made just after a
   * '%', or nothing at the start) and holds no match.
   */
  predicate BufferOk(text: string, buf: string)
  {
    var cut := |text| - |buf|;
    |buf| <= |text| && buf == text[cut..] && (cut == 0 || text[cut - 1] == '%') && Search(buf).None?
  }

  /** The loop variables agree with the text read so far. */
  predicate Consistent(text: string, r: Reader)
  {
    BufferOk(text, r.buf) && r.line == LineSoFar(text) && r.events == RefEvents(text)
  }

  lemma LineFeedOk(p: string, line: string, ch: char)
    requires line == LineSoFar(p)
    ensures FeedLine(line, ch) == (LineSoFar(p + [ch]), LineEvent(p, ch))
  {
    RefEventsStep(p, ch);
  }

  /**
   * The progress part of one loop step keeps the buffer invariant and posts
   * exactly the reference percentage: the buffer gains a match precisely when
   * a '%' follows a digit, and that match is the last one to three digits.
   */
  lemma PercentFeedOk(p: string, buf: string, ch: char)
    requires BufferOk(p, buf)
    ensures BufferOk(p + [ch], FeedPercent(buf, ch).0)
    ensures FeedPercent(buf, ch).1 == PercentEvent(p, ch)
  {
    if ch == '%' && TrailingDigits(p) > 0 {
      PercentHit(p, buf, ch);
    } else {
      PercentMiss(p, buf, ch);
    }
  }

  /** A '%' right after digits: the match is reported and the buffer is emptied. */
  lemma PercentHit(p: string, buf: string, ch: char)
    requires BufferOk(p, buf) && ch == '%' && TrailingDigits(p) > 0
    ensures BufferOk(p + [ch], FeedPercent(buf, ch).0)
    ensures FeedPercent(buf, ch).1 == PercentEvent(p, ch)
  {
    TrailingDigitsAfterCut(p, |p| - |buf|);
    var m := Min(TrailingDigits(p), 3);
    var b := buf + [ch];
    var mt := Match(|b| - 1 - m, |b|);
    HitSearch(p, buf, ch);
    HitDigits(p, buf, ch, mt);
    FeedPercentOnMatch(buf, ch, mt);
    var r := FeedPercent(buf, ch);
    assert r.0 == [] by {
      assert b[mt.end..] == [];
    }
    EmptyBufferOk(p + [ch]);
  }

  /** Right after a '%' the empty buffer agrees with the text. */
  lemma EmptyBufferOk(t: string)
    requires |t| > 0 && t[|t| - 1] == '%'
    ensures BufferOk(t, [])
  {
    assert t[|t|..] == [];
    assert Search([]).None?;
  }

  /** The search finds the '%' with up to three digits before it. */
  lemma HitSearch(p: string, buf: string, ch: char)
    requires BufferOk(p, buf) && ch == '%' && TrailingDigits(p) > 0
    requires TrailingDigits(buf) == TrailingDigits(p)
    ensures Search(buf + [ch]) == Some(Match(|buf| - Min(TrailingDigits(buf), 3), |buf| + 1))
  {
    SearchAfterAppend(buf, ch);
  }

  /** The matched digits are the last digits of the text read so far. */
  lemma HitDigits(p: string, buf: string, ch: char, mt: Match)
    requires BufferOk(p, buf) && ch == '%' && TrailingDigits(p) > 0
    requires TrailingDigits(buf) == TrailingDigits(p)
    requires mt == Match(|buf| - Min(TrailingDigits(buf), 3), |buf| + 1)
    requires Search(buf + [ch]) == Some(mt)
    ensures MatchedDigits(buf + [ch], mt) == LastDigits(p, Min(TrailingDigits(p), 3))
  {
    SuffixOfCut(p, |p| - |buf|, ch, Min(TrailingDigits(p), 3));
  }

  lemma FeedPercentOnMatch(buf: string, ch: char, mt: Match)
    requires Search(buf + [ch]) == Some(mt)
    ensures FeedPercent(buf, ch)
            == ((buf + [ch])[mt.end..], [Progress(Min(DecimalValue(MatchedDigits(buf + [ch], mt)), 100))])
  {
  }

  /** Any other character: nothing is reported and the buffer just grows. */
  lemma PercentMiss(p: string, buf: string, ch: char)
    requires BufferOk(p, buf) && !(ch == '%' && TrailingDigits(p) > 0)
    ensures BufferOk(p + [ch], FeedPercent(buf, ch).0)
    ensures FeedPercent(buf, ch).1 == PercentEvent(p, ch)
  {
    var cut := |p| - |buf|;
    var b := buf + [ch];
    assert Search(b).None? by {
      SearchAfterAppend(buf, ch);
      TrailingDigitsAfterCut(p, cut);
    }
    assert FeedPercent(buf, ch) == (b, []);
    assert b == (p + [ch])[cut..];
    assert cut == 0 || (p + [ch])[cut - 1] == p[cut - 1];
  }

  lemma FeedOk(p: string, r: Reader, ch: char)
    requires Consistent(p, r)
    ensures Consistent(p + [ch], Feed(r, ch))
  {
    LineFeedOk(p, r.line, ch);
    PercentFeedOk(p, r.buf, ch);
    RefEventsStep(p, ch);
    ConcatAssoc(r.events, LineEvent(p, ch), PercentEvent(p, ch));
  }

  /** Index of the first byte left unread because a stop was seen. */
  function Consumed(output: seq<byte>, stopAt: Option<nat>): (n: nat)
    ensures n <= |output|
  {
    if stopAt.Some? && stopAt.value < |output| then stopAt.value else |output|
  }

  /**
   * `_read_output`: reads the process output one byte at a time (until a stop is
   * seen before byte `stopAt`) and feeds each decoded character to the loop
   * body. The events posted are exactly the reference meaning of the
   * characters read.
   */
  method ReadOutput(output: seq<byte>, stopAt: Option<nat>) returns (events: seq<Event>)
    ensures events == RefEvents(DecodeAll(output[..Consumed(output, stopAt)]))
  {
    var reader := Reader("", "", []);
    ghost var text := "";
    var i := 0;
    while i < |output|
      invariant 0 <= i <= |output|
      invariant stopAt.Some? ==> i <= stopAt.value
      invariant text == DecodeAll(output[..i])
      invariant Consistent(text, reader)
    {
      if stopAt.Some? && i >= stopAt.value {
        break;
      }
      var ch := DecodeByte(output[i]);
      FeedOk(text, reader, ch);
      DecodeStep(output, i);
      reader := Feed(reader, ch);
      text := text + [ch];
      i := i + 1;
    }
    StopPoint(output, stopAt, i);
    events := reader.events;
  }

  lemma DecodeStep(output: seq<byte>, i: nat)
    requires i < |output|
    ensures DecodeAll(output[..i + 1]) == DecodeAll(output[..i]) + [DecodeByte(output[i])]
  {
    assert output[..i + 1][..i] == output[..i];
  }

  lemma StopPoint(output: seq<byte>, stopAt: Option<nat>, i: nat)
    requires i <= |output| && (stopAt.Some? ==> i <= stopAt.value)
    requires i < |output| ==> stopAt.Some? && i >= stopAt.value
    ensures output[..Consumed(output, stopAt)] == output[..i]
  {
  }

  /** Events posted while the process runs: never a final status, and percentages within 0..100. */
  predicate Quiet(evs: seq<Event>)
  {
    forall i :: 0 <= i < |evs| ==> !evs[i].Finished? && (evs[i].Progress? ==> 0 <= evs[i].pct <= 100)
  }

  /** Every event but the last is quiet. */
  predicate QuietUntilLast(evs: seq<Event>)
  {
    |evs| >= 1 && Quiet(evs[..|evs| - 1])
  }

  /** The stream's events are all quiet: the reader never finishes a run and caps every percentage. */
  lemma {:induction false} StreamIsQuiet(s: string)
    ensures Quiet(RefEvents(s))
    decreases |s|
  {
    if |s| > 0 {
      var p := s[..|s| - 1];
      StreamIsQuiet(p);
      StepIsQuiet(p, s[|s| - 1]);
      QuietConcat(RefEvents(p), EventsAfter(p, s[|s| - 1]));
    }
  }

  lemma StepIsQuiet(p: string, c: char)
    ensures Quiet(EventsAfter(p, c))
  {
  }

  lemma QuietConcat(a: seq<Event>, b: seq<Event>)
    requires Quiet(a) && Quiet(b)
    ensures Quiet(a + b)
  {
  }

  // ----- the whole run --------------------------------------------------------------

  /** What happens to a pre-existing backup target before launching. */
  datatype PreClean = NoExistingFile | Removed | RemoveFailed(error: string)

  datatype Launch =
    | Launched(output: seq<byte>, exitCode: int)
    | ExeNotFound
    | LaunchFailed(error: string)

  /** When (if ever) `stop()` was called relative to the output stream. */
  datatype StopTiming = NotStopped | StopDuringOutput(atByte: nat) | StopAfterOutput

  datatype RunResult = RunResult(events: seq<Event>, status: CloneStatus)

  function PreCleanLog(w: Worker, pre: PreClean): (evs: seq<Event>)
    ensures Quiet(evs)
  {
    if w.mode == Restore then []
    else match pre
      case NoExistingFile => []
      case Removed => [Log("Removed existing file: " + w.image)]
      case RemoveFailed(e) => [Log("WARNING: could not remove existing file: " + e)]
  }

  /** What is posted after the process has been waited for. */
  function Epilogue(code: int, stop: StopTiming): (t: seq<Event>)
    ensures 1 <= |t| <= 2 && QuietUntilLast(t)
    ensures t[|t| - 1] == Finished(if stop != NotStopped then Stopped else if code == 0 then Done else Failed)
    ensures t[|t| - 1] == Finished(Done) ==> t[0] == Progress(100)
  {
    if stop != NotStopped then [Finished(Stopped)]
    else if code == 0 then [Progress(100), Finished(Done)]
    else [Log("ODINC exited with code " + IntToDecimal(code)), Finished(Failed)]
  }

  function FinalStatus(launch: Launch, stop: StopTiming): CloneStatus
  {
    if !launch.Launched? then Failed
    else if stop != NotStopped then Stopped
    else if launch.exitCode == 0 then Done
    else Failed
  }

  /** The part of a run after a successful launch: the output's events, then the epilogue. */
  function AfterLaunch(output: seq<byte>, code: int, stop: StopTiming): (evs: seq<Event>)
    ensures QuietUntilLast(evs)
    ensures evs[|evs| - 1] == Finished(FinalStatus(Launched(output, code), stop))
    ensures evs[|evs| - 1] == Finished(Done) ==> |evs| >= 2 && evs[|evs| - 2] == Progress(100)
  {
    var stopAt := if stop.StopDuringOutput? then Some(stop.atByte) else None;
    var text := DecodeAll(output[..Consumed(output, stopAt)]);
    var read := RefEvents(text);
    StreamIsQuiet(text);
    var tail := Epilogue(code, stop);
    assert (read + tail)[..|read + tail| - 1] == read + tail[..|tail| - 1];
    QuietConcat(read, tail[..|tail| - 1]);
    read + tail
  }

  /** Everything posted after the command line has been logged. */
  function Outcome(w: Worker, launch: Launch, stop: StopTiming): (evs: seq<Event>)
    ensures QuietUntilLast(evs)
    ensures evs[|evs| - 1] == Finished(FinalStatus(launch, stop))
    ensures evs[|evs| - 1] == Finished(Done) ==> |evs| >= 2 && evs[|evs| - 2] == Progress(100)
  {
    if launch.Launched? then AfterLaunch(launch.output, launch.exitCode, stop)
    else LaunchError(if launch.ExeNotFound? then "ERROR: ODINC.exe not found at " + w.odinc
                     else "ERROR launching ODINC: " + launch.error)
  }

  /** A launch that raised: the error is logged and the run fails. */
  function LaunchError(line: string): (evs: seq<Event>)
    ensures |evs| == 2 && QuietUntilLast(evs) && evs[1] == Finished(Failed)
  {
    var evs := [Log(line), Finished(Failed)];
    assert evs[..1] == [Log(line)];
    evs
  }

  /** The part of a run before the launch: the pre-clean report and the command line. */
  function Prologue(w: Worker, pre: PreClean): (evs: seq<Event>)
    ensures |evs| >= 1 && Quiet(evs)
  {
    var cmd := [Log("CMD: " + Join(Command(w), " "))];
    QuietConcat(PreCleanLog(w, pre), cmd);
    PreCleanLog(w, pre) + cmd
  }

  /** Quiet events followed by a run's tail keep the tail's last two events and stay quiet before the end. */
  function Then(head: seq<Event>, tail: seq<Event>): (evs: seq<Event>)
    requires Quiet(head) && QuietUntilLast(tail)
    ensures |evs| == |head| + |tail| && evs[|evs| - 1] == tail[|tail| - 1]
    ensures QuietUntilLast(evs)
    ensures |tail| >= 2 ==> evs[|evs| - 2] == tail[|tail| - 2]
  {
    assert (head + tail)[..|head + tail| - 1] == head + tail[..|tail| - 1];
    QuietConcat(head, tail[..|tail| - 1]);
    head + tail
  }

  /**
   * `_run`: pre-clean (backup only), log the command, launch, read the output,
   * wait, and post exactly one final status as the last event, preceded only by
   * progress values in 0..100 and log lines; DONE always follows progress 100.
   */
  function Run(w: Worker, pre: PreClean, launch: Launch, stop: StopTiming): (r: RunResult)
    ensures r.status == FinalStatus(launch, stop)
    ensures |r.events| >= 2 && r.events[|r.events| - 1] == Finished(r.status)
    ensures QuietUntilLast(r.events)
    ensures r.status == Done ==> r.events[|r.events| - 2] == Progress(100)
  {
    var rest := Outcome(w, launch, stop);
    RunResult(Then(Prologue(w, pre), rest), FinalStatus(launch, stop))
  }

  /**
   * The final status is one of DONE, FAILED, STOPPED: a launch error fails, a
   * stop wins over any exit code, and otherwise exit code 0 alone means DONE.
   */
  lemma FinalStatusRules(launch: Launch, stop: StopTiming)
    ensures FinalStatus(launch, stop) in {Done, Failed, Stopped}
    ensures FinalStatus(launch, stop) == Done <==> launch.Launched? && launch.exitCode == 0 && stop == NotStopped
    ensures FinalStatus(launch, stop) == Stopped <==> launch.Launched? && stop != NotStopped
    ensures !launch.Launched? ==> FinalStatus(launch, stop) == Failed
  {
  }
}
