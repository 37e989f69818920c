/**
 * Reading the primary MBR partition table of a disk image: raw images, and
 * ODIN images whose 128-byte header moves the disk data to a `dataOffset`.
 * The legacy MBR layout is the one of section 5.2.1 of the UEFI Specification:
 * four 16-byte records from byte 446 and the signature 0x55 0xAA at byte 510.
 * The image is its bytes, or None when opening or reading raises OSError.
 */
module PartitionReader {
  import opened Common

  const SECTOR_SIZE: nat := 512
  const MBR_SIG_OFFSET: nat := 510
  const MBR_PART_OFFSET: nat := 446
  const RECORD_SIZE: nat := 16
  const HEADER_SIZE: nat := 128
  /** The first position a file seek cannot take: positions are signed 64-bit. */
  const SEEK_LIMIT: nat := 0x8000_0000_0000_0000
  /** Byte position of the header's `dataOffset` field (the fifth 64-bit field, after 4 bytes of padding). */
  const DATA_OFFSET_AT: nat := 88

  /** The ODIN image GUID {1d4d7b73-fa01-40e1-b094-5267d8fa0be7} in Windows mixed-endian order. */
  const ODIN_MAGIC: seq<byte> :=
    [0x73, 0x7b, 0x4d, 0x1d, 0x01, 0xfa, 0xe1, 0x40, 0xb0, 0x94, 0x52, 0x67, 0xd8, 0xfa, 0x0b, 0xe7]

  datatype PartitionInfo = PartitionInfo(number: nat, partType: byte, offset: nat, size: nat, active: bool)

  // ----- little-endian integers ----------------------------------------------

  function Pow256(n: nat): (p: nat)
    ensures p >= 1
  {
    if n == 0 then 1 else 256 * Pow256(n - 1)
  }

  /** Unsigned little-endian value of a byte string (`struct` formats `<I`, `<Q`). */
  function LeValue(s: seq<byte>): nat
  {
    if |s| == 0 then 0 else s[0] + 256 * LeValue(s[1..])
  }

  /** The `n`-byte little-endian encoding of `v` (higher bytes dropped when it does not fit). */
  function LeBytes(v: nat, n: nat): (s: seq<byte>)
    ensures |s| == n
  {
    if n == 0 then [] else [v % 256] + LeBytes(v / 256, n - 1)
  }

  lemma {:induction false} LeRoundTrip(v: nat, n: nat)
    requires v < Pow256(n)
    ensures LeValue(LeBytes(v, n)) == v
  {
    if n > 0 {
      assert v / 256 < Pow256(n - 1);
      LeRoundTrip(v / 256, n - 1);
      assert LeBytes(v, n)[1..] == LeBytes(v / 256, n - 1);
    }
  }

  lemma {:induction false} LeValueBound(s: seq<byte>)
    ensures LeValue(s) < Pow256(|s|)
  {
    if |s| > 0 {
      LeValueBound(s[1..]);
    }
  }

  // ----- the ODIN header -------------------------------------------------------

  predicate IsOdinImage(content: seq<byte>)
  {
    |content| >= HEADER_SIZE && content[..16] == ODIN_MAGIC
  }

  /**
   * `_odin_data_offset`: where the raw disk data starts; the header's
   * `dataOffset` for an ODIN image, 0 for anything else (short file, other
   * magic, unreadable file).
   */
  function DataOffset(image: Option<seq<byte>>): (d: nat)
    ensures image.None? || !IsOdinImage(image.value) ==> d == 0
  {
    if image.Some? && IsOdinImage(image.value) then
      LeValue(image.value[DATA_OFFSET_AT..DATA_OFFSET_AT + 8])
    else 0
  }

  function Zeros(n: nat): (s: seq<byte>)
    ensures |s| == n && forall i :: 0 <= i < n ==> s[i] == 0
  {
    seq(n, _ => 0)
  }

  /** A minimal ODIN header announcing disk data at `dataOffset` (every other field zero). */
  function OdinHeader(dataOffset: nat): (h: seq<byte>)
    ensures |h| == HEADER_SIZE
  {
    ODIN_MAGIC + Zeros(DATA_OFFSET_AT - 16) + LeBytes(dataOffset, 8) + Zeros(HEADER_SIZE - DATA_OFFSET_AT - 8)
  }

  /** The offset written into a header is the offset read back from it. */
  lemma DataOffsetOfHeader(dataOffset: nat, rest: seq<byte>)
    requires dataOffset < Pow256(8)
    ensures DataOffset(Some(OdinHeader(dataOffset) + rest)) == dataOffset
  {
    var c := OdinHeader(dataOffset) + rest;
    assert c[..16] == ODIN_MAGIC;
    assert c[DATA_OFFSET_AT..DATA_OFFSET_AT + 8] == LeBytes(dataOffset, 8);
    LeRoundTrip(dataOffset, 8);
  }

  // ----- the partition records -------------------------------------------------

  /** The fields of one 16-byte MBR record the reader looks at. */
  datatype Record = Record(status: byte, partType: byte, lbaStart: nat, lbaSize: nat)

  function DecodeRecord(raw: seq<byte>): (r: Record)
    requires |raw| == RECORD_SIZE
    ensures r.lbaStart < Pow256(4) && r.lbaSize < Pow256(4)
  {
    LeValueBound(raw[8..12]);
    LeValueBound(raw[12..16]);
    Record(raw[0], raw[4], LeValue(raw[8..12]), LeValue(raw[12..16]))
  }

  /** A record with its CHS fields zero. */
  function EncodeRecord(r: Record): (raw: seq<byte>)
    ensures |raw| == RECORD_SIZE
  {
    [r.status, 0, 0, 0, r.partType, 0, 0, 0] + LeBytes(r.lbaStart, 4) + LeBytes(r.lbaSize, 4)
  }

  lemma RecordRoundTrip(r: Record)
    requires r.lbaStart < Pow256(4) && r.lbaSize < Pow256(4)
    ensures DecodeRecord(EncodeRecord(r)) == r
  {
    var raw := EncodeRecord(r);
    assert raw[8..12] == LeBytes(r.lbaStart, 4);
    assert raw[12..16] == LeBytes(r.lbaSize, 4);
    LeRoundTrip(r.lbaStart, 4);
    LeRoundTrip(r.lbaSize, 4);
  }

  /** `f.seek(pos); f.read(n)`: up to `n` bytes, fewer at the end of the file. */
  function ReadAt(content: seq<byte>, pos: nat, n: nat): (s: seq<byte>)
    ensures |s| <= n
    ensures pos + n <= |content| ==> s == content[pos..pos + n]
  {
    if pos >= |content| then []
    else if pos + n <= |content| then content[pos..pos + n]
    else content[pos..]
  }

  /** A record that describes a partition: neither its size nor its type is zero. */
  predicate Used(r: Record)
  {
    r.lbaSize != 0 && r.partType != 0
  }

  /** The entry for record number `i` (0-based) of a table whose disk data starts at `d`. */
  function Entry(d: nat, i: nat, r: Record): (e: PartitionInfo)
    ensures e.number == i + 1
  {
    PartitionInfo(i + 1, r.partType, d + r.lbaStart * SECTOR_SIZE, r.lbaSize * SECTOR_SIZE, r.status == 0x80)
  }

  /** The loop over records `i..3`: a short read ends it, an unused record is skipped. */
  function Records(content: seq<byte>, d: nat, i: nat): seq<PartitionInfo>
    requires i <= 4
    decreases 4 - i
  {
    if i == 4 then []
    else
      var raw := ReadAt(content, d + MBR_PART_OFFSET + RECORD_SIZE * i, RECORD_SIZE);
      if |raw| < RECORD_SIZE then []
      else
        var r := DecodeRecord(raw);
        if Used(r) then [Entry(d, i, r)] + Records(content, d, i + 1)
        else Records(content, d, i + 1)
  }

  predicate SignatureOk(content: seq<byte>, d: nat)
  {
    ReadAt(content, d + MBR_SIG_OFFSET, 2) == [0x55, 0xAA]
  }

  /** The seek to the signature is past any file position, so it raises rather than fail with an OSError. */
  predicate SeekOverflows(image: Option<seq<byte>>)
  {
    image.Some? && DataOffset(image) + MBR_SIG_OFFSET >= SEEK_LIMIT
  }

  /**
   * `read_mbr_partitions`: the used primary partitions, with file-absolute
   * offsets; nothing for an unreadable file or a missing signature. None is
   * the exception that escapes when the header's data offset is too large to
   * seek to, since only an OSError is caught.
   */
  function ReadMbrPartitions(image: Option<seq<byte>>): (r: Option<seq<PartitionInfo>>)
    ensures r.None? <==> SeekOverflows(image)
    ensures image.None? ==> r == Some([])
    ensures !SeekOverflows(image) && image.Some? && !SignatureOk(image.value, DataOffset(image)) ==> r == Some([])
  {
    if image.None? then Some([])
    else
      var d := DataOffset(image);
      if d + MBR_SIG_OFFSET >= SEEK_LIMIT then None
      else if !SignatureOk(image.value, d) then Some([]) else Some(Records(image.value, d, 0))
  }

  // ----- what a table yields -----------------------------------------------------

  /** The reference reading of a table given as records: the used ones from index `i` on, in order. */
  function Kept(recs: seq<Record>, d: nat, i: nat): seq<PartitionInfo>
    requires i <= |recs|
    decreases |recs| - i
  {
    if i == |recs| then []
    else if Used(recs[i]) then [Entry(d, i, recs[i])] + Kept(recs, d, i + 1)
    else Kept(recs, d, i + 1)
  }

  /** The record the reader decodes at index `i`, when the whole table is present. */
  function RecordAt(content: seq<byte>, d: nat, i: nat): Record
    requires i < 4 && d + SECTOR_SIZE <= |content|
  {
    DecodeRecord(content[d + MBR_PART_OFFSET + RECORD_SIZE * i..d + MBR_PART_OFFSET + RECORD_SIZE * (i + 1)])
  }

  function TableRecords(content: seq<byte>, d: nat): (recs: seq<Record>)
    requires d + SECTOR_SIZE <= |content|
    ensures |recs| == 4
  {
    [RecordAt(content, d, 0), RecordAt(content, d, 1), RecordAt(content, d, 2), RecordAt(content, d, 3)]
  }

  /** A valid signature means the whole 512-byte sector is present, so no record read comes up short. */
  lemma SignatureMeansSector(content: seq<byte>, d: nat)
    requires SignatureOk(content, d)
    ensures d + SECTOR_SIZE <= |content|
  {
  }

  lemma {:induction false} RecordsAreKept(content: seq<byte>, d: nat, i: nat)
    requires i <= 4 && d + SECTOR_SIZE <= |content|
    ensures Records(content, d, i) == Kept(TableRecords(content, d), d, i)
    decreases 4 - i
  {
    if i < 4 {
      RecordsAreKept(content, d, i + 1);
      RecordStep(content, d, i);
    }
  }

  /** Within a whole sector, record `i` is read in full and decoded to the table's record `i`. */
  lemma RecordStep(content: seq<byte>, d: nat, i: nat)
    requires i < 4 && d + SECTOR_SIZE <= |content|
    ensures var raw := ReadAt(content, d + MBR_PART_OFFSET + RECORD_SIZE * i, RECORD_SIZE);
      |raw| == RECORD_SIZE && DecodeRecord(raw) == TableRecords(content, d)[i]
  {
    assert d + MBR_PART_OFFSET + RECORD_SIZE * i + RECORD_SIZE <= |content|;
    assert TableRecords(content, d)[i] == RecordAt(content, d, i);
  }

  /**
   * Once the signature is there (at a position a seek can reach), the result
   * is exactly the used records of the table, in order.
   */
  lemma TableIsRead(image: seq<byte>)
    requires SignatureOk(image, DataOffset(Some(image))) && !SeekOverflows(Some(image))
    ensures ReadMbrPartitions(Some(image)) == Some(Kept(TableRecords(image, DataOffset(Some(image))), DataOffset(Some(image)), 0))
  {
    SignatureMeansSector(image, DataOffset(Some(image)));
    RecordsAreKept(image, DataOffset(Some(image)), 0);
  }

  /** Entries kept from index `i` on are numbered strictly increasingly within `i+1..|recs|`. */
  lemma {:induction false} KeptNumbers(recs: seq<Record>, d: nat, i: nat)
    requires i <= |recs|
    ensures |Kept(recs, d, i)| <= |recs| - i
    ensures forall k :: 0 <= k < |Kept(recs, d, i)| ==> i < Kept(recs, d, i)[k].number <= |recs|
    ensures forall k, l :: 0 <= k < l < |Kept(recs, d, i)| ==> Kept(recs, d, i)[k].number < Kept(recs, d, i)[l].number
    decreases |recs| - i
  {
    if i < |recs| {
      KeptNumbers(recs, d, i + 1);
    }
  }

  /** A record is reported, under its 1-based number, exactly when it is used. */
  lemma {:induction false} KeptMember(recs: seq<Record>, d: nat, i: nat, j: nat)
    requires i <= j < |recs|
    ensures Entry(d, j, recs[j]) in Kept(recs, d, i) <==> Used(recs[j])
    ensures !Used(recs[j]) ==> forall e :: e in Kept(recs, d, i) ==> e.number != j + 1
    decreases |recs| - i
  {
    KeptNumbers(recs, d, i);
    if i < j {
      KeptMember(recs, d, i + 1, j);
    } else {
      KeptNumbers(recs, d, i + 1);
    }
  }

  /** The shape of any result: at most four entries, numbered 1..4 strictly increasingly. */
  lemma ResultShape(image: Option<seq<byte>>, ps: seq<PartitionInfo>)
    requires ReadMbrPartitions(image) == Some(ps)
    ensures |ps| <= 4
    ensures forall k :: 0 <= k < |ps| ==> 1 <= ps[k].number <= 4
    ensures forall k, l :: 0 <= k < l < |ps| ==> ps[k].number < ps[l].number
  {
    if image.Some? && SignatureOk(image.value, DataOffset(image)) {
      TableIsRead(image.value);
      KeptNumbers(TableRecords(image.value, DataOffset(image)), DataOffset(image), 0);
    }
  }

  /** A sector holding the four records and the signature (the boot code zero). */
  function Sector(recs: seq<Record>): (s: seq<byte>)
    requires |recs| == 4
    ensures |s| == SECTOR_SIZE
  {
    Zeros(MBR_PART_OFFSET) + EncodeRecord(recs[0]) + EncodeRecord(recs[1])
      + EncodeRecord(recs[2]) + EncodeRecord(recs[3]) + [0x55, 0xAA]
  }

  predicate Encodable(recs: seq<Record>)
  {
    forall i :: 0 <= i < |recs| ==> recs[i].lbaStart < Pow256(4) && recs[i].lbaSize < Pow256(4)
  }

  lemma SectorRecords(recs: seq<Record>, prefix: seq<byte>, rest: seq<byte>)
    requires |recs| == 4 && Encodable(recs)
    ensures var c := prefix + Sector(recs) + rest;
      |prefix| + SECTOR_SIZE <= |c| && TableRecords(c, |prefix|) == recs && SignatureOk(c, |prefix|)
  {
    var c := prefix + Sector(recs) + rest;
    var d := |prefix|;
    SectorRecordAt(recs, prefix, rest, 0);
    SectorRecordAt(recs, prefix, rest, 1);
    SectorRecordAt(recs, prefix, rest, 2);
    SectorRecordAt(recs, prefix, rest, 3);
    assert TableRecords(c, d) == recs;
    SliceInMiddle(prefix, Sector(recs), rest, MBR_SIG_OFFSET, SECTOR_SIZE);
    SignatureSlice(recs);
  }

  lemma SectorRecordAt(recs: seq<Record>, prefix: seq<byte>, rest: seq<byte>, i: nat)
    requires |recs| == 4 && Encodable(recs) && i < 4
    ensures |prefix| + SECTOR_SIZE <= |prefix + Sector(recs) + rest|
    ensures RecordAt(prefix + Sector(recs) + rest, |prefix|, i) == recs[i]
  {
    var lo, hi := MBR_PART_OFFSET + RECORD_SIZE * i, MBR_PART_OFFSET + RECORD_SIZE * (i + 1);
    var c, d := prefix + Sector(recs) + rest, |prefix|;
    var raw := c[d + lo..d + hi];
    SliceInMiddle(prefix, Sector(recs), rest, lo, hi);
    SectorSlice(recs, i);
    assert raw == EncodeRecord(recs[i]);
    RecordRoundTrip(recs[i]);
    RecordAtIs(c, d, i, raw);
  }

  lemma RecordAtIs(c: seq<byte>, d: nat, i: nat, raw: seq<byte>)
    requires i < 4 && d + SECTOR_SIZE <= |c|
    requires raw == c[d + MBR_PART_OFFSET + RECORD_SIZE * i..d + MBR_PART_OFFSET + RECORD_SIZE * (i + 1)]
    ensures RecordAt(c, d, i) == DecodeRecord(raw)
  {
  }

  lemma SliceInMiddle(prefix: seq<byte>, mid: seq<byte>, rest: seq<byte>, a: nat, b: nat)
    requires a <= b <= |mid|
    ensures (prefix + mid + rest)[|prefix| + a..|prefix| + b] == mid[a..b]
  {
    var c := prefix + mid + rest;
    assert forall j :: |prefix| + a <= j < |prefix| + b ==> c[j] == mid[j - |prefix|];
  }

  lemma SectorSlice(recs: seq<Record>, i: nat)
    requires |recs| == 4 && i < 4
    ensures Sector(recs)[MBR_PART_OFFSET + RECORD_SIZE * i..MBR_PART_OFFSET + RECORD_SIZE * (i + 1)] == EncodeRecord(recs[i])
  {
    var e0, e1, e2, e3 := EncodeRecord(recs[0]), EncodeRecord(recs[1]), EncodeRecord(recs[2]), EncodeRecord(recs[3]);
    var z, sig := Zeros(MBR_PART_OFFSET), [0x55, 0xAA];
    var pre, post := if i == 0 then z else if i == 1 then z + e0 else if i == 2 then z + e0 + e1 else z + e0 + e1 + e2,
      if i == 0 then e1 + e2 + e3 + sig else if i == 1 then e2 + e3 + sig else if i == 2 then e3 + sig else sig;
    assert Sector(recs) == pre + EncodeRecord(recs[i]) + post;
    assert |pre| == MBR_PART_OFFSET + RECORD_SIZE * i;
    SliceInMiddle(pre, EncodeRecord(recs[i]), post, 0, RECORD_SIZE);
  }

  lemma SignatureSlice(recs: seq<Record>)
    requires |recs| == 4
    ensures Sector(recs)[MBR_SIG_OFFSET..SECTOR_SIZE] == [0x55, 0xAA]
  {
    var s := Sector(recs);
    assert s[MBR_SIG_OFFSET] == 0x55 && s[MBR_SIG_OFFSET + 1] == 0xAA;
  }

  /** Round trip for a raw image: writing a table and reading it back gives its used records. */
  lemma RawImageRoundTrip(recs: seq<Record>, rest: seq<byte>)
    requires |recs| == 4 && Encodable(recs)
    ensures ReadMbrPartitions(Some(Sector(recs) + rest)) == Some(Kept(recs, 0, 0))
  {
    var c := Sector(recs) + rest;
    SectorRecords(recs, [], rest);
    assert [] + Sector(recs) + rest == c;
    assert c[..16] != ODIN_MAGIC by {
      assert c[0] == 0 && ODIN_MAGIC[0] == 0x73;
    }
    TableIsRead(c);
  }

  /** Round trip for an ODIN image whose data follows its header: offsets are shifted by the header. */
  lemma OdinImageRoundTrip(recs: seq<Record>, rest: seq<byte>)
    requires |recs| == 4 && Encodable(recs)
    ensures ReadMbrPartitions(Some(OdinHeader(HEADER_SIZE) + Sector(recs) + rest)) == Some(Kept(recs, HEADER_SIZE, 0))
  {
    var c := OdinHeader(HEADER_SIZE) + Sector(recs) + rest;
    assert c == OdinHeader(HEADER_SIZE) + (Sector(recs) + rest);
    DataOffsetOfHeader(HEADER_SIZE, Sector(recs) + rest);
    SectorRecords(recs, OdinHeader(HEADER_SIZE), rest);
    TableIsRead(c);
  }

  /**
   * An ODIN header whose data offset is within 510 bytes of 2^63, or beyond,
   * makes the reader raise instead of returning no partitions, whatever follows.
   */
  lemma HugeDataOffsetRaises(dataOffset: nat, rest: seq<byte>)
    requires SEEK_LIMIT - MBR_SIG_OFFSET <= dataOffset < Pow256(8)
    ensures ReadMbrPartitions(Some(OdinHeader(dataOffset) + rest)).None?
  {
    DataOffsetOfHeader(dataOffset, rest);
  }

  // ----- type names ----------------------------------------------------------------

  function KnownTypeName(t: byte): Option<string>
  {
    match t
    case 0x01 => Some("FAT12")
    case 0x04 => Some("FAT16 <32M")
    case 0x05 => Some("Extended")
    case 0x06 => Some("FAT16")
    case 0x07 => Some("NTFS/exFAT")
    case 0x0B => Some("FAT32")
    case 0x0C => Some("FAT32 LBA")
    case 0x0E => Some("FAT16 LBA")
    case 0x0F => Some("Extended LBA")
    case 0x82 => Some("Linux swap")
    case 0x83 => Some("Linux ext4")
    case 0x8E => Some("Linux LVM")
    case 0xEE => Some("GPT protective")
    case 0xEF => Some("EFI System")
    case _ => None
  }

  /** `PartitionInfo.type_name`: the table's name, else "Type 0x" and two upper-case hex digits. */
  function TypeName(t: byte): (name: string)
    ensures KnownTypeName(t).Some? ==> name == KnownTypeName(t).value
    ensures KnownTypeName(t).None? ==> |name| == 9 && name[..7] == "Type 0x"
  {
    if KnownTypeName(t).Some? then KnownTypeName(t).value else "Type 0x" + Hex2(t)
  }

  /** An unnamed type can be read back from its name. */
  lemma TypeNameRoundTrip(t: byte)
    requires KnownTypeName(t).None?
    ensures IsUpperHex(TypeName(t)[7]) && IsUpperHex(TypeName(t)[8])
    ensures UpperHexValue(TypeName(t)[7]) * 16 + UpperHexValue(TypeName(t)[8]) == t
  {
    Hex2RoundTrip(t);
    assert TypeName(t)[7..] == Hex2(t);
  }
}
