/**
 * The native digest calculator: SHA-1 and/or SHA-256 of a byte range of an
 * open file or device, read in 1 MiB chunks, reported as upper-case hex.
 * The digest algorithms are parameters (from the bytes fed to the raw digest
 * bytes); the device is its content plus the failures it may produce.
 */
module HashCalculator {
  import opened Common
  import HW = HashWorker

  const BUFFER_SIZE: nat := 1024 * 1024

  // ----- hex output ------------------------------------------------------------------

  /** `BytesToHex`: two upper-case hex digits per byte, high nibble first. */
  function BytesToHex(bs: seq<byte>): (s: string)
    ensures |s| == 2 * |bs|
  {
    if |bs| == 0 then "" else Hex2(bs[0]) + BytesToHex(bs[1..])
  }

  /** Digit pair `i` of the text is byte `i` written with `%02X`. */
  lemma {:induction false} BytesToHexSpec(bs: seq<byte>, i: nat)
    requires i < |bs|
    ensures BytesToHex(bs)[2 * i..2 * i + 2] == Hex2(bs[i])
    decreases i
  {
    var s := BytesToHex(bs);
    if i == 0 {
      assert s[..2] == Hex2(bs[0]);
    } else {
      BytesToHexSpec(bs[1..], i - 1);
      assert s[2 * i..2 * i + 2] == BytesToHex(bs[1..])[2 * (i - 1)..2 * (i - 1) + 2];
    }
  }

  /** Reference decoder: pairs of upper-case hex digits back to bytes. */
  function HexToBytes(s: string): (r: Option<seq<byte>>)
    ensures r.Some? ==> 2 * |r.value| == |s|
    decreases |s|
  {
    if |s| == 0 then Some([])
    else if |s| == 1 || !IsUpperHex(s[0]) || !IsUpperHex(s[1]) then None
    else
      match HexToBytes(s[2..])
      case None => None
      case Some(rest) => Some([UpperHexValue(s[0]) * 16 + UpperHexValue(s[1])] + rest)
  }

  /** The hex text decodes back to the bytes it was made from. */
  lemma {:induction false} HexRoundTrip(bs: seq<byte>)
    ensures HexToBytes(BytesToHex(bs)) == Some(bs)
  {
    if |bs| > 0 {
      var s := BytesToHex(bs);
      assert s[2..] == BytesToHex(bs[1..]);
      HexRoundTrip(bs[1..]);
      Hex2RoundTrip(bs[0]);
      assert [bs[0]] + bs[1..] == bs;
    }
  }

  /** Every character of the output is an upper-case hex digit. */
  lemma {:induction false} HexIsUpper(bs: seq<byte>)
    ensures forall i :: 0 <= i < |BytesToHex(bs)| ==> IsUpperHex(BytesToHex(bs)[i])
  {
    if |bs| > 0 {
      HexIsUpper(bs[1..]);
      assert BytesToHex(bs) == Hex2(bs[0]) + BytesToHex(bs[1..]);
    }
  }

  // ----- the read loop -----------------------------------------------------------------

  /**
   * The file or device during one call: its content from position 0, whether
   * the seek to the offset succeeds, and the read (counted from 0) that
   * fails, if any. A read past the end returns no bytes.
   */
  datatype Device = Device(content: seq<byte>, seekOk: bool, readFailAt: Option<nat>)

  /** The number of reads a range of `size` bytes takes when every read is full. */
  function Chunks(size: nat): nat
  {
    (size + BUFFER_SIZE - 1) / BUFFER_SIZE
  }

  lemma ChunksExact(size: nat, readCount: nat)
    requires readCount > 0 && (readCount - 1) * BUFFER_SIZE < size <= readCount * BUFFER_SIZE
    ensures Chunks(size) == readCount
  {
  }

  lemma ChunksZero()
    ensures Chunks(0) == 0
  {
  }

  /** `ReadFile` of `n` bytes at `pos`: as many as the content holds there, up to `n`. */
  function ReadAt(content: seq<byte>, pos: nat, n: nat): (chunk: seq<byte>)
    ensures |chunk| <= n
    ensures pos + n <= |content| ==> chunk == content[pos..pos + n]
    ensures |chunk| > 0 ==> pos + |chunk| <= |content| && chunk == content[pos..pos + |chunk|]
    ensures |chunk| == 0 ==> n == 0 || pos >= |content|
  {
    if pos >= |content| then [] else content[pos..if pos + n <= |content| then pos + n else |content|]
  }

  predicate NonDecreasing(ps: seq<int>)
  {
    forall i, j :: 0 <= i < j < |ps| ==> ps[i] <= ps[j]
  }

  predicate Percentages(ps: seq<int>)
  {
    forall i :: 0 <= i < |ps| ==> 0 <= ps[i] <= 100
  }

  /** The loop's progress bookkeeping after `processed` of `size` bytes. */
  predicate ProgressOk(ps: seq<int>, processed: nat, size: nat)
  {
    NonDecreasing(ps) && Percentages(ps)
    && (size > 0 ==> forall i :: 0 <= i < |ps| ==> ps[i] <= processed * 100 / size)
  }

  lemma ProgressStep(ps: seq<int>, processed: nat, next: nat, size: nat)
    requires size > 0 && processed <= next <= size && ProgressOk(ps, processed, size)
    ensures ProgressOk(ps + [next * 100 / size], next, size)
  {
    var p := next * 100 / size;
    PctBounds(processed, next, size);
    var qs := ps + [p];
    assert forall i :: 0 <= i < |ps| ==> ps[i] <= p;
    assert forall i :: 0 <= i < |qs| ==> qs[i] <= p;
  }

  lemma PctBounds(processed: nat, next: nat, size: nat)
    requires size > 0 && processed <= next <= size
    ensures processed * 100 / size <= next * 100 / size <= 100
  {
    HW.MulMono(next, processed, 100);
    HW.DivMonotone(processed * 100, next * 100, size);
    HW.MulMono(size, next, 100);
    HW.DivMonotone(next * 100, size * 100, size);
    MulDiv(100, size);
  }

  lemma MulDiv(a: nat, d: nat)
    requires d > 0
    ensures (d * a) / d == a
  {
    var q := (d * a) / d;
    assert q * d <= d * a < q * d + d;
    HW.MulMono(q, a + 1, d);
    assert (a + 1) * d == a * d + d;
    HW.MulMono(a, q + 1, d);
    assert (q + 1) * d == q * d + d;
  }

  /**
   * The loop of `CalculateHash` and `CalculateBothHashes` after a successful
   * seek: each read asks for at most 1 MiB; a failed or empty read, or a
   * failed digest update (`updateFailAt`, never given for the two-digest
   * loop, which ignores the update's result), ends it unsuccessfully. On
   * success exactly the bytes of the range were fed, in order.
   */
  method ReadLoop(dev: Device, offset: nat, size: nat, updateFailAt: Option<nat>)
    returns (ok: bool, fed: seq<byte>, readCount: nat, progress: seq<int>)
    ensures ok && size > 0 ==> offset + size <= |dev.content| && fed == dev.content[offset..offset + size]
    ensures size == 0 ==> ok && fed == [] && progress == []
    ensures ok ==> readCount == Chunks(size) && |progress| == readCount
    ensures ok ==> (dev.readFailAt.None? || dev.readFailAt.value >= readCount)
    ensures ok ==> (updateFailAt.None? || updateFailAt.value >= readCount)
    ensures RangeReadable(dev, offset, size, updateFailAt) ==> ok
    ensures NonDecreasing(progress) && Percentages(progress)
    ensures ok && size > 0 ==> |progress| > 0 && progress[|progress| - 1] == 100
  {
    fed, progress, readCount := [], [], 0;
    var processed: nat := 0;
    ok := true;
    while processed < size && ok
      invariant LoopState(dev, offset, size, processed, fed, readCount, progress)
      invariant size == 0 ==> ok && readCount == 0
      invariant ok ==> (dev.readFailAt.None? || dev.readFailAt.value >= readCount)
      invariant ok ==> (updateFailAt.None? || updateFailAt.value >= readCount)
      invariant !ok ==> !RangeReadable(dev, offset, size, updateFailAt)
      decreases size - processed, if ok then 1 else 0
    {
      var chunk := ReadAt(dev.content, offset + processed, Request(size, processed));
      if dev.readFailAt == Some(readCount) || |chunk| == 0 || updateFailAt == Some(readCount) {
        LoopCanFail(dev, offset, size, processed, readCount, updateFailAt);
        ok := false;
      } else {
        LoopStep(dev, offset, size, processed, fed, readCount, progress, chunk);
        fed := fed + chunk;
        progress := progress + [(processed + |chunk|) * 100 / size];
        processed := processed + |chunk|;
        readCount := readCount + 1;
      }
    }
    if ok {
      LoopDone(dev, offset, size, fed, readCount, progress);
    }
  }

  /** A loop that read the whole range fed exactly the range, in the expected number of reads, ending at 100. */
  lemma LoopDone(dev: Device, offset: nat, size: nat, fed: seq<byte>, readCount: nat, progress: seq<int>)
    requires LoopState(dev, offset, size, size, fed, readCount, progress)
    ensures size > 0 ==> offset + size <= |dev.content| && fed == dev.content[offset..offset + size]
    ensures size > 0 ==> |progress| > 0 && progress[|progress| - 1] == 100
    ensures readCount == Chunks(size)
  {
    if size > 0 {
      ChunksExact(size, readCount);
      MulDiv(100, size);
      assert size * 100 == 100 * size;
    } else {
      ChunksZero();
    }
  }

  /** The device holds the range and no failure falls among the reads it takes. */
  predicate RangeReadable(dev: Device, offset: nat, size: nat, updateFailAt: Option<nat>)
  {
    offset + size <= |dev.content|
    && (dev.readFailAt.None? || dev.readFailAt.value >= Chunks(size))
    && (updateFailAt.None? || updateFailAt.value >= Chunks(size))
  }

  /**
   * The loop after `readCount` successful reads totalling `processed` bytes:
   * the bytes fed are the start of the range, every read but a short last
   * one was full, and one progress value was reported per read.
   */
  predicate LoopState(dev: Device, offset: nat, size: nat, processed: nat, fed: seq<byte>,
                      readCount: nat, progress: seq<int>)
  {
    FedOk(dev, offset, size, processed, fed)
    && CountOk(dev, offset, size, processed, readCount)
    && |progress| == readCount
    && ProgressOk(progress, processed, size)
    && LastOk(progress, processed, size)
  }

  predicate FedOk(dev: Device, offset: nat, size: nat, processed: nat, fed: seq<byte>)
  {
    processed <= size
    && (processed > 0 ==> offset + processed <= |dev.content|)
    && fed == (if processed == 0 then [] else dev.content[offset..offset + processed])
  }

  predicate CountOk(dev: Device, offset: nat, size: nat, processed: nat, readCount: nat)
  {
    processed <= readCount * BUFFER_SIZE
    && (processed == readCount * BUFFER_SIZE
        || (processed == size && (readCount - 1) * BUFFER_SIZE < processed)
        || (processed < size && offset + processed == |dev.content|))
  }

  predicate LastOk(progress: seq<int>, processed: nat, size: nat)
  {
    size > 0 && processed > 0 ==> |progress| > 0 && progress[|progress| - 1] == processed * 100 / size
  }

  function Request(size: nat, processed: nat): nat
    requires processed <= size
  {
    if size - processed < BUFFER_SIZE then size - processed else BUFFER_SIZE
  }

  lemma LoopStep(dev: Device, offset: nat, size: nat, processed: nat, fed: seq<byte>,
                 readCount: nat, progress: seq<int>, chunk: seq<byte>)
    requires LoopState(dev, offset, size, processed, fed, readCount, progress)
    requires processed < size
    requires chunk == ReadAt(dev.content, offset + processed, Request(size, processed))
    requires |chunk| > 0
    ensures LoopState(dev, offset, size, processed + |chunk|, fed + chunk, readCount + 1,
                      progress + [(processed + |chunk|) * 100 / size])
  {
    var next := processed + |chunk|;
    ProgressStep(progress, processed, next, size);
    FedStep(dev, offset, size, processed, fed, chunk);
    CountStep(dev, offset, size, processed, readCount, chunk);
  }

  lemma FedStep(dev: Device, offset: nat, size: nat, processed: nat, fed: seq<byte>, chunk: seq<byte>)
    requires FedOk(dev, offset, size, processed, fed) && processed < size
    requires chunk == ReadAt(dev.content, offset + processed, Request(size, processed)) && |chunk| > 0
    ensures FedOk(dev, offset, size, processed + |chunk|, fed + chunk)
  {
    var next := processed + |chunk|;
    assert chunk == dev.content[offset + processed..offset + next];
    if processed > 0 {
      assert dev.content[offset..offset + next]
          == dev.content[offset..offset + processed] + dev.content[offset + processed..offset + next];
    }
  }

  lemma CountStep(dev: Device, offset: nat, size: nat, processed: nat, readCount: nat, chunk: seq<byte>)
    requires CountOk(dev, offset, size, processed, readCount) && processed < size
    requires offset + processed <= |dev.content|
    requires chunk == ReadAt(dev.content, offset + processed, Request(size, processed)) && |chunk| > 0
    ensures CountOk(dev, offset, size, processed + |chunk|, readCount + 1)
  {
    assert processed == readCount * BUFFER_SIZE;
  }

  /**
   * A read that is due while bytes remain fails only when the device is
   * short or one of the failures falls inside the range's reads.
   */
  lemma LoopCanFail(dev: Device, offset: nat, size: nat, processed: nat, readCount: nat, updateFailAt: Option<nat>)
    requires processed < size && CountOk(dev, offset, size, processed, readCount)
    requires dev.readFailAt == Some(readCount) || updateFailAt == Some(readCount)
             || |ReadAt(dev.content, offset + processed, Request(size, processed))| == 0
    ensures !RangeReadable(dev, offset, size, updateFailAt)
  {
    if offset + size <= |dev.content| {
      assert processed == readCount * BUFFER_SIZE;
      assert readCount < Chunks(size);
    }
  }

  // ----- the two entry points --------------------------------------------------------------

  /** What CryptoAPI does: whether the context and digest objects are created and read back. */
  datatype Crypto = Crypto(contextOk: bool, createOk: bool, retrieveOk: bool)

  predicate CryptoOk(c: Crypto) { c.contextOk && c.createOk && c.retrieveOk }

  /**
   * `CalculateHash`: the digest of the range as hex, or nothing when the
   * context, the seek, a read, an update or the retrieval fails. A range of
   * size 0 reads nothing and gives the digest of the empty message.
   */
  method CalculateHash(crypto: Crypto, dev: Device, offset: nat, size: nat, updateFailAt: Option<nat>,
                       digest: seq<byte> -> seq<byte>)
    returns (result: Option<string>, progress: seq<int>)
    ensures result.Some? ==> CryptoOk(crypto) && dev.seekOk
    ensures result.Some? && size > 0 ==>
      offset + size <= |dev.content| && result.value == BytesToHex(digest(dev.content[offset..offset + size]))
    ensures result.Some? && size == 0 ==> result.value == BytesToHex(digest([])) && progress == []
    ensures CryptoOk(crypto) && dev.seekOk && RangeReadable(dev, offset, size, updateFailAt) ==> result.Some?
    ensures NonDecreasing(progress) && Percentages(progress)
  {
    if !crypto.contextOk || !crypto.createOk || !dev.seekOk {
      return None, [];
    }
    var ok, fed, readCount;
    ok, fed, readCount, progress := ReadLoop(dev, offset, size, updateFailAt);
    if !ok || !crypto.retrieveOk {
      return None, progress;
    }
    if size == 0 {
      ChunksZero();
    }
    result := Some(BytesToHex(digest(fed)));
  }

  /**
   * What a digest is fed in `CalculateBothHashes`, whose `CryptHashData`
   * results are ignored: `data` in chunks of `BUFFER_SIZE`, numbered from
   * `i`, without the chunks in `drops`, whose update failed and added nothing.
   */
  function Kept(data: seq<byte>, drops: set<nat>, i: nat): (r: seq<byte>)
    ensures |r| <= |data|
    decreases |data|
  {
    if |data| == 0 then []
    else
      var n := if |data| < BUFFER_SIZE then |data| else BUFFER_SIZE;
      (if i in drops then [] else data[..n]) + Kept(data[n..], drops, i + 1)
  }

  /** With no failed update, the digest is fed the whole range. */
  lemma {:induction false} KeptEverything(data: seq<byte>, i: nat)
    ensures Kept(data, {}, i) == data
    decreases |data|
  {
    if |data| > 0 {
      var n := if |data| < BUFFER_SIZE then |data| else BUFFER_SIZE;
      KeptEverything(data[n..], i + 1);
      assert data[..n] + data[n..] == data;
    }
  }

  /**
   * A failed update of a chunk that starts inside the range leaves the digest
   * fed less than the range, although the call still reports success.
   */
  lemma {:induction false} DroppedChunkIsMissing(data: seq<byte>, drops: set<nat>, i: nat, j: nat)
    requires i <= j && j in drops && (j - i) * BUFFER_SIZE < |data|
    ensures |Kept(data, drops, i)| < |data|
    decreases |data|
  {
    var n := if |data| < BUFFER_SIZE then |data| else BUFFER_SIZE;
    if j > i {
      assert (j - i) * BUFFER_SIZE == (j - (i + 1)) * BUFFER_SIZE + BUFFER_SIZE;
      DroppedChunkIsMissing(data[n..], drops, i + 1, j);
    }
  }

  /**
   * `CalculateBothHashes`: one pass feeding every chunk to both digests. The
   * update's result is not checked, so only the context, the seek, the reads
   * and the retrieval can make it fail.
   */
  method CalculateBothHashes(crypto: Crypto, dev: Device, offset: nat, size: nat,
                             sha1Drops: set<nat>, sha256Drops: set<nat>,
                             sha1: seq<byte> -> seq<byte>, sha256: seq<byte> -> seq<byte>)
    returns (result: Option<(string, string)>, progress: seq<int>)
    ensures result.Some? ==> CryptoOk(crypto) && dev.seekOk
    ensures result.Some? && size > 0 ==>
      offset + size <= |dev.content|
      && result.value == (BytesToHex(sha1(Kept(dev.content[offset..offset + size], sha1Drops, 0))),
                          BytesToHex(sha256(Kept(dev.content[offset..offset + size], sha256Drops, 0))))
    ensures result.Some? && size == 0 ==> result.value == (BytesToHex(sha1([])), BytesToHex(sha256([])))
    ensures CryptoOk(crypto) && dev.seekOk && RangeReadable(dev, offset, size, None) ==> result.Some?
    ensures NonDecreasing(progress) && Percentages(progress)
    ensures result.Some? && size > 0 ==> |progress| > 0 && progress[|progress| - 1] == 100
  {
    if !crypto.contextOk || !crypto.createOk || !dev.seekOk {
      return None, [];
    }
    var ok, fed, readCount;
    ok, fed, readCount, progress := ReadLoop(dev, offset, size, None);
    if !ok || !crypto.retrieveOk {
      return None, progress;
    }
    result := Some((BytesToHex(sha1(Kept(fed, sha1Drops, 0))), BytesToHex(sha256(Kept(fed, sha256Drops, 0)))));
  }
}
