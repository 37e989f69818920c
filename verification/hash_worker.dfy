/**
 * The Python front-end's digest worker: SHA-256 and SHA-1 of a byte range of
 * an image file, computed in one pass over 4 MiB chunks, with a monotone
 * progress report and a cooperative stop.
 * The digests themselves are parameters (functions of the bytes fed in); the
 * file is its size as `getsize` reports it and its content as reads return it.
 */
module HashWorker {
  import opened Common

  const CHUNK_SIZE: nat := 4 * 1024 * 1024

  datatype HashStatus = Idle | Running | Done | Failed | Stopped

  /** `start()`: nothing happens while running; otherwise the worker runs and a thread is launched. */
  function Start(status: HashStatus): (r: (HashStatus, bool))
    ensures r.0 == Running
    ensures r.1 <==> status != Running
  {
    if status == Running then (status, false) else (Running, true)
  }

  /** `stop()` only raises the flag the reading loop looks at. */
  function Stop(status: HashStatus): (r: HashStatus)
    ensures r == Stopped
  {
    Stopped
  }

  /**
   * The file as the worker meets it: the size `getsize` returns (None when it
   * raises), whether `open` succeeds, and the bytes reads deliver (which may be
   * fewer than the size if the file shrank).
   */
  datatype FileView = FileView(size: Option<int>, opens: bool, content: seq<byte>)

  /**
   * Outside events during the loop: a stop noticed before the read of chunk
   * number `k`, or an OSError raised by the read of chunk number `k`.
   */
  datatype Interference = Interference(stopBefore: Option<nat>, failAt: Option<nat>)

  /** What the worker posts: the progress values, then the final status and the two hex digests. */
  datatype HashResult = HashResult(
    progress: seq<int>,
    status: HashStatus,
    sha256: string,
    sha1: string,
    fed: seq<byte>,
    chunks: seq<seq<byte>>)

  function Max(a: int, b: int): int { if a >= b then a else b }
  function Min(a: int, b: int): int { if a <= b then a else b }

  /**
   * The number of bytes to hash: the requested count (or everything after the
   * offset when the count is negative), never more than the file holds after
   * the offset and never negative.
   */
  function RangeLength(size: int, offset: nat, byteCount: int): (total: nat)
    ensures total <= Max(0, size - offset)
    ensures byteCount < 0 ==> total == Max(0, size - offset)
    ensures byteCount >= 0 ==> total == Min(byteCount, Max(0, size - offset))
  {
    var t := if byteCount >= 0 then byteCount else size - offset;
    Max(0, Min(t, size - offset))
  }

  /** The range always lies inside the file. */
  lemma RangeInsideFile(size: int, offset: nat, byteCount: int)
    ensures RangeLength(size, offset, byteCount) > 0 ==> offset + RangeLength(size, offset, byteCount) <= size
  {
  }

  /** `f.read(n)` at position `pos`: up to n bytes, fewer at the end of the content. */
  function ReadAt(content: seq<byte>, pos: nat, n: nat): (chunk: seq<byte>)
    ensures |chunk| <= n
    ensures pos < |content| && n > 0 ==> |chunk| > 0
  {
    if pos >= |content| then [] else content[pos..Min(pos + n, |content|)]
  }

  /** The bytes from `from` on, at most `len` of them, as far as the content reaches. */
  function Window(content: seq<byte>, from: nat, len: nat): seq<byte>
  {
    if from >= |content| then [] else content[from..Min(from + len, |content|)]
  }

  /** Progress after `done` of `total` bytes, kept below 100 until the digests are ready. */
  function Pct(done: nat, total: nat): (p: int)
    requires total > 0
    ensures 0 <= p <= 99
  {
    Min(done * 100 / total, 99)
  }

  lemma PctMonotone(d1: nat, d2: nat, total: nat)
    requires total > 0 && d1 <= d2
    ensures Pct(d1, total) <= Pct(d2, total)
  {
    assert d1 * 100 <= d2 * 100;
    DivMonotone(d1 * 100, d2 * 100, total);
  }

  lemma DivMonotone(a: nat, b: nat, d: nat)
    requires d > 0 && a <= b
    ensures a / d <= b / d
  {
    var qa, qb := a / d, b / d;
    assert qa * d <= a;
    assert b < qb * d + d;
    MulMono(qa, qb + 1, d);
  }

  lemma MulMono(x: int, y: int, d: nat)
    ensures x >= y ==> x * d >= y * d
  {
    assert x * d - y * d == (x - y) * d;
  }

  predicate Rising(ps: seq<int>)
  {
    forall i, j :: 0 <= i < j < |ps| ==> ps[i] < ps[j]
  }

  predicate Below100(ps: seq<int>)
  {
    forall i :: 0 <= i < |ps| ==> 0 <= ps[i] <= 99
  }

  function Flatten(chunks: seq<seq<byte>>): seq<byte>
  {
    if |chunks| == 0 then [] else Flatten(chunks[..|chunks| - 1]) + chunks[|chunks| - 1]
  }

  predicate ChunksOk(chunks: seq<seq<byte>>)
  {
    forall i :: 0 <= i < |chunks| ==> 0 < |chunks[i]| <= CHUNK_SIZE
  }

  /** The loop's progress bookkeeping: rising values below 100, the last one remembered. */
  predicate ProgressOk(progress: seq<int>, lastPct: int, done: nat, total: nat)
  {
    Rising(progress) && Below100(progress)
    && (if |progress| == 0 then lastPct == -1 else lastPct == progress[|progress| - 1])
    && (total > 0 ==> lastPct <= Pct(done, total))
  }

  /** One progress check after a chunk: report the new percentage only if it changed. */
  function Report(progress: seq<int>, lastPct: int, done: nat, total: nat): (r: (seq<int>, int))
    requires total > 0
  {
    var pct := Pct(done, total);
    if pct != lastPct then (progress + [pct], pct) else (progress, lastPct)
  }

  lemma ReportOk(progress: seq<int>, lastPct: int, d0: nat, done: nat, total: nat)
    requires total > 0 && d0 <= done && ProgressOk(progress, lastPct, d0, total)
    ensures var r := Report(progress, lastPct, done, total);
      ProgressOk(r.0, r.1, done, total)
  {
    PctMonotone(d0, done, total);
  }

  lemma WindowGrows(content: seq<byte>, offset: nat, done: nat, chunk: seq<byte>, n: nat)
    requires done == 0 || offset + done <= |content|
    requires chunk == ReadAt(content, offset + done, n) && |chunk| > 0
    ensures Window(content, offset, done) + chunk == Window(content, offset, done + |chunk|)
    ensures offset + done + |chunk| <= |content|
  {
  }

  /** The loop's byte bookkeeping: `fed` is the first `done` bytes of the range, cut into the chunks read. */
  predicate Hashed(content: seq<byte>, offset: nat, done: nat, fed: seq<byte>, chunks: seq<seq<byte>>)
  {
    (done == 0 || offset + done <= |content|)
    && fed == Window(content, offset, done)
    && Flatten(chunks) == fed && ChunksOk(chunks)
  }

  lemma HashedStep(content: seq<byte>, offset: nat, done: nat, fed: seq<byte>, chunks: seq<seq<byte>>,
                   chunk: seq<byte>, n: nat)
    requires Hashed(content, offset, done, fed, chunks)
    requires chunk == ReadAt(content, offset + done, n) && 0 < |chunk| && n <= CHUNK_SIZE
    ensures Hashed(content, offset, done + |chunk|, fed + chunk, chunks + [chunk])
  {
    WindowGrows(content, offset, done, chunk, n);
    FlattenStep(chunks, chunk);
  }

  lemma FlattenStep(chunks: seq<seq<byte>>, c: seq<byte>)
    ensures Flatten(chunks + [c]) == Flatten(chunks) + c
  {
    assert (chunks + [c])[..|chunks|] == chunks;
  }

  /** One pass of the reading loop keeps the byte and progress bookkeeping. */
  lemma FeedStepOk(content: seq<byte>, offset: nat, total: nat, done: nat, fed: seq<byte>,
                   chunks: seq<seq<byte>>, progress: seq<int>, lastPct: int, chunk: seq<byte>, n: nat)
    requires Hashed(content, offset, done, fed, chunks) && ProgressOk(progress, lastPct, done, total)
    requires chunk == ReadAt(content, offset + done, n) && 0 < |chunk| && n <= CHUNK_SIZE && done + n <= total
    ensures done + |chunk| <= total
    ensures Hashed(content, offset, done + |chunk|, fed + chunk, chunks + [chunk])
    ensures ProgressOk(Report(progress, lastPct, done + |chunk|, total).0,
                       Report(progress, lastPct, done + |chunk|, total).1, done + |chunk|, total)
  {
    HashedStep(content, offset, done, fed, chunks, chunk, n);
    ReportOk(progress, lastPct, done, done + |chunk|, total);
  }

  /** The loop ends with the whole range hashed: all `total` bytes, or up to the end of the content. */
  lemma FeedEnd(content: seq<byte>, offset: nat, total: nat, done: nat, fed: seq<byte>, chunks: seq<seq<byte>>)
    requires Hashed(content, offset, done, fed, chunks) && done <= total
    requires done < total ==> offset + done >= |content|
    ensures fed == Window(content, offset, total)
  {
  }

  /**
   * The reading loop of `_run`: reads up to 4 MiB at a time until `total`
   * bytes are in or a read comes back empty, checking for a stop before each
   * read. Returns the interrupting status, if any, with what was hashed so far.
   */
  method Feed(content: seq<byte>, offset: nat, total: nat, outside: Interference)
    returns (interrupted: Option<HashStatus>, progress: seq<int>, fed: seq<byte>, chunks: seq<seq<byte>>)
    ensures interrupted.None? ==> fed == Window(content, offset, total)
    ensures Interrupts(outside, interrupted)
    ensures Rising(progress) && Below100(progress)
    ensures Flatten(chunks) == fed && ChunksOk(chunks)
  {
    fed, chunks, progress := [], [], [];
    interrupted := None;
    var done: nat := 0;
    var lastPct := -1;
    var k: nat := 0;
    var remaining: nat := total;
    var ended := false;
    while remaining > 0 && interrupted.None? && !ended
      invariant done + remaining == total
      invariant Hashed(content, offset, done, fed, chunks)
      invariant ProgressOk(progress, lastPct, done, total)
      invariant ended ==> offset + done >= |content|
      invariant Interrupts(outside, interrupted)
      decreases remaining, if interrupted.None? && !ended then 1 else 0
    {
      if outside.stopBefore == Some(k) {
        interrupted := Some(Stopped);
      } else if outside.failAt == Some(k) {
        interrupted := Some(Failed);
      } else {
        var chunk := ReadAt(content, offset + done, Min(CHUNK_SIZE, remaining));
        if |chunk| == 0 {
          ended := true;
        } else {
          FeedStepOk(content, offset, total, done, fed, chunks, progress, lastPct, chunk, Min(CHUNK_SIZE, remaining));
          var rep := Report(progress, lastPct, done + |chunk|, total);
          fed, chunks, done := fed + chunk, chunks + [chunk], done + |chunk|;
          remaining := remaining - |chunk|;
          progress, lastPct := rep.0, rep.1;
          k := k + 1;
        }
      }
    }
    if interrupted.None? {
      FeedEnd(content, offset, total, done, fed, chunks);
    }
  }

  /** An interruption is a stop or a failure, each only when the outside world caused it. */
  predicate Interrupts(outside: Interference, interrupted: Option<HashStatus>)
  {
    (interrupted == Some(Stopped) ==> outside.stopBefore.Some?) &&
    (interrupted == Some(Failed) ==> outside.failAt.Some?) &&
    interrupted in {None, Some(Stopped), Some(Failed)} &&
    (outside.stopBefore.None? && outside.failAt.None? ==> interrupted.None?)
  }

  /**
   * `_run`: hashes `RangeLength` bytes from `offset`, both digests fed the
   * same chunks in one pass.
   * A stop seen before a read gives STOPPED and a raised OSError gives FAILED,
   * both with empty digests; otherwise the result is DONE with the digests of
   * exactly the bytes of the range (fewer if the file ended early), preceded by
   * rising progress values below 100 and a final 100.
   */
  method Run(file: FileView, offset: nat, byteCount: int, outside: Interference,
             sha256: seq<byte> -> string, sha1: seq<byte> -> string)
    returns (r: HashResult)
    ensures file.size.None? || !file.opens ==> r.status == Failed
    ensures r.status in {Done, Failed, Stopped}
    ensures r.status == Stopped ==> outside.stopBefore.Some?
    ensures r.status == Failed ==> file.size.None? || !file.opens || outside.failAt.Some?
    ensures r.status != Done ==> r.sha256 == "" && r.sha1 == ""
    ensures file.size.Some? && file.opens && outside.stopBefore.None? && outside.failAt.None? ==> r.status == Done
    ensures r.status == Done ==>
      && file.size.Some?
      && r.fed == Window(file.content, offset, RangeLength(file.size.value, offset, byteCount))
      && r.sha256 == sha256(r.fed) && r.sha1 == sha1(r.fed)
      && |r.progress| >= 1 && r.progress[|r.progress| - 1] == 100
      && Rising(r.progress[..|r.progress| - 1]) && Below100(r.progress[..|r.progress| - 1])
    ensures Flatten(r.chunks) == r.fed && ChunksOk(r.chunks)
  {
    if file.size.None? || !file.opens {
      return HashResult([], Failed, "", "", [], []);
    }
    var total := RangeLength(file.size.value, offset, byteCount);
    var interrupted, progress, fed, chunks := Feed(file.content, offset, total, outside);
    if interrupted.Some? {
      return HashResult(progress, interrupted.value, "", "", fed, chunks);
    }
    var all := progress + [100];
    assert all[..|all| - 1] == progress;
    return HashResult(all, Done, sha256(fed), sha1(fed), fed, chunks);
  }

  /** Hashing with a negative count from offset 0 covers the whole file when its content matches its size. */
  lemma WholeFile(content: seq<byte>)
    ensures Window(content, 0, RangeLength(|content|, 0, -1)) == content
  {
  }
}
