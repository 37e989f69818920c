/**
 * The backup options dialog: it turns the current backup flag list into
 * control settings, and the settings back into a flag list on OK. Only the
 * conversion is modelled; the window itself is not.
 */
module ImageOptionsDialog {
  import opened Common

  const DISK_MODES: seq<string> := ["-allBlocks", "-usedBlocks"]
  const COMPRESSIONS: seq<string> := ["none", "gzip", "lz4", "lz4hc", "zstd"]
  const COMPRESSION_FLAG: string := "-compression="
  const SPLIT_FLAG: string := "-split="

  /** The chunk size the spin box offers when no split size is known. */
  const DEFAULT_CHUNK_MB: int := 700
  /** The smallest split size OK writes out. */
  const MIN_CHUNK_MB: int := 100

  /** What the dialog reads from a flag list; a split size of 0 means a single file. */
  datatype State = State(diskMode: string, compression: string, splitMb: int)

  const DEFAULT_STATE: State := State("-allBlocks", "none", 0)

  /** The flags the conversion understands; every other flag is skipped. */
  predicate Recognised(f: string)
  {
    f in DISK_MODES || StartsWith(f, COMPRESSION_FLAG) || StartsWith(f, SPLIT_FLAG)
  }

  /**
   * One step of `_flags_to_state`. The prefixes end in their only `=`, so the
   * text after the first `=` is the text after the prefix; a split value that
   * is not an integer leaves the split size as it was.
   */
  function ApplyFlag(s: State, f: string): (r: State)
    ensures !Recognised(f) ==> r == s
    ensures f in DISK_MODES ==> r == s.(diskMode := f)
    ensures r.diskMode != s.diskMode ==> f in DISK_MODES
  {
    if f == "-allBlocks" || f == "-usedBlocks" then s.(diskMode := f)
    else if StartsWith(f, COMPRESSION_FLAG) then s.(compression := f[|COMPRESSION_FLAG|..])
    else if StartsWith(f, SPLIT_FLAG) then
      match ParseInt(f[|SPLIT_FLAG|..])
      case Some(n) => s.(splitMb := n)
      case None => s
    else s
  }

  /** `_flags_to_state`: the defaults, then each flag in order, a later flag overriding an earlier one. */
  function FlagsToState(flags: seq<string>): State
    decreases |flags|
  {
    if |flags| == 0 then DEFAULT_STATE
    else ApplyFlag(FlagsToState(flags[..|flags| - 1]), flags[|flags| - 1])
  }

  /** Whatever the flags, the disk mode is one of the two the radio buttons offer. */
  lemma {:induction false} DiskModeAlwaysKnown(flags: seq<string>)
    ensures FlagsToState(flags).diskMode in DISK_MODES
    decreases |flags|
  {
    if |flags| > 0 {
      DiskModeAlwaysKnown(flags[..|flags| - 1]);
    }
  }

  /** An unrecognised flag anywhere in the list changes nothing. */
  lemma {:induction false} UnknownFlagsIgnored(pre: seq<string>, f: string, post: seq<string>)
    requires !Recognised(f)
    ensures FlagsToState(pre + [f] + post) == FlagsToState(pre + post)
    decreases |post|
  {
    var whole := pre + [f] + post;
    if |post| == 0 {
      FlagsStep(whole, pre, f);
      assert pre + post == pre;
    } else {
      var init, last := post[..|post| - 1], post[|post| - 1];
      UnknownFlagsIgnored(pre, f, init);
      assert post == init + [last];
      FlagsStep(whole, pre + [f] + init, last);
      FlagsStep(pre + post, pre + init, last);
    }
  }

  /** The flags are applied left to right: the last one on the state the others give. */
  lemma FlagsStep(flags: seq<string>, init: seq<string>, last: string)
    requires flags == init + [last]
    ensures FlagsToState(flags) == ApplyFlag(FlagsToState(init), last)
  {
    assert flags[..|flags| - 1] == init;
  }

  // ----- the controls -------------------------------------------------------------

  /** The dialog's controls: the two radio groups, the split choice and the chunk spin box. */
  datatype Controls = Controls(disk: string, comp: string, split: bool, chunk: int)

  /**
   * The controls as the dialog sets them up: a split is selected for any
   * non-zero size, and the spin box starts at the larger of the size and 700.
   */
  function OpenAsWritten(s: State): (c: Controls)
    ensures c.disk == s.diskMode && c.comp == s.compression
    ensures c.split <==> s.splitMb != 0
    ensures c.chunk >= DEFAULT_CHUNK_MB && (s.splitMb >= DEFAULT_CHUNK_MB ==> c.chunk == s.splitMb)
  {
    Controls(s.diskMode, s.compression, s.splitMb != 0, Max(s.splitMb, DEFAULT_CHUNK_MB))
  }

  /** The spin box as evidently intended: the stored size when OK could have written it, 700 otherwise. */
  function Open(s: State): (c: Controls)
    ensures c.disk == s.diskMode && c.comp == s.compression
    ensures c.split <==> s.splitMb != 0
    ensures c.chunk >= MIN_CHUNK_MB
    ensures s.splitMb >= MIN_CHUNK_MB ==> c.chunk == s.splitMb
  {
    Controls(s.diskMode, s.compression, s.splitMb != 0,
             if s.splitMb >= MIN_CHUNK_MB then s.splitMb else DEFAULT_CHUNK_MB)
  }

  function Max(a: int, b: int): int { if a >= b then a else b }

  /** `_ok`: the disk mode, the compression, and a split size of at least 100 when splitting. */
  function Ok(c: Controls): (flags: seq<string>)
    ensures |flags| == (if c.split then 3 else 2)
    ensures flags[0] == c.disk && flags[1] == COMPRESSION_FLAG + c.comp
  {
    [c.disk, COMPRESSION_FLAG + c.comp]
      + (if c.split then [SPLIT_FLAG + IntToDecimal(Max(c.chunk, MIN_CHUNK_MB))] else [])
  }

  /** The flags OK writes read back as the settings the controls showed. */
  lemma OkRoundTrip(c: Controls)
    requires c.disk in DISK_MODES
    ensures FlagsToState(Ok(c)) ==
      State(c.disk, c.comp, if c.split then Max(c.chunk, MIN_CHUNK_MB) else 0)
  {
    var flags := Ok(c);
    assert flags[..1] == [c.disk];
    assert flags[..1][..0] == [];
    assert FlagsToState(flags[..1]) == DEFAULT_STATE.(diskMode := c.disk);
    var comp := COMPRESSION_FLAG + c.comp;
    assert comp[..|COMPRESSION_FLAG|] == COMPRESSION_FLAG;
    assert comp[|COMPRESSION_FLAG|..] == c.comp;
    assert comp != "-allBlocks" && comp != "-usedBlocks";
    assert flags[..2][..1] == flags[..1];
    assert FlagsToState(flags[..2]) == State(c.disk, c.comp, 0);
    if c.split {
      var n := Max(c.chunk, MIN_CHUNK_MB);
      var sp := SPLIT_FLAG + IntToDecimal(n);
      assert sp[..|SPLIT_FLAG|] == SPLIT_FLAG;
      assert sp[|SPLIT_FLAG|..] == IntToDecimal(n);
      assert sp != "-allBlocks" && sp != "-usedBlocks" && !StartsWith(sp, COMPRESSION_FLAG);
      ParseIntOfDecimal(n);
      assert flags[..|flags| - 1] == flags[..2];
    } else {
      assert flags == flags[..2];
    }
  }

  /**
   * `_ok` as pressed: `chunk` is the spin box's value as `IntVar.get` reads
   * it, None when its text is not a number. Only with splitting selected is
   * it read, and then a non-number raises: no result is set and the dialog
   * stays open. Otherwise the result is the flags `Ok` writes.
   */
  function OkPressed(disk: string, comp: string, split: bool, chunk: Option<int>): (r: Option<seq<string>>)
    ensures r.None? <==> split && chunk.None?
    ensures r.Some? && disk in DISK_MODES ==>
      FlagsToState(r.value) == State(disk, comp, if split then Max(chunk.value, MIN_CHUNK_MB) else 0)
  {
    if split && chunk.None? then None
    else
      var c := Controls(disk, comp, split, if chunk.Some? then chunk.value else 0);
      if disk in DISK_MODES then OkRoundTrip(c); Some(Ok(c))
      else Some(Ok(c))
  }

  /**
   * Reopening the dialog on the flags it wrote and pressing OK again writes
   * the same settings back, for every split size OK can produce.
   */
  lemma ReopenKeepsSettings(s: State)
    requires s.diskMode in DISK_MODES
    requires s.splitMb == 0 || s.splitMb >= MIN_CHUNK_MB
    ensures FlagsToState(Ok(Open(s))) == s
  {
    OkRoundTrip(Open(s));
  }

  /**
   * As written, reopening the dialog on a split size between 100 and 699 and
   * pressing OK replaces it with 700.
   */
  lemma ReopenRaisesSmallSplits(s: State)
    requires s.diskMode in DISK_MODES
    requires MIN_CHUNK_MB <= s.splitMb < DEFAULT_CHUNK_MB
    ensures FlagsToState(Ok(OpenAsWritten(s))) == s.(splitMb := DEFAULT_CHUNK_MB)
    ensures FlagsToState(Ok(OpenAsWritten(s))) != s
  {
    OkRoundTrip(OpenAsWritten(s));
  }

  /** The concrete case: `-split=200` comes back as `-split=700`. */
  lemma ReopenSplit200()
    ensures FlagsToState(Ok(OpenAsWritten(State("-allBlocks", "none", 200)))).splitMb == 700
  {
    ReopenRaisesSmallSplits(State("-allBlocks", "none", 200));
  }
}
