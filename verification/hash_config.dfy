/**
 * The per-image, per-partition store of expected digests: for each image
 * (keyed by its normalised path) the configuration of each partition number.
 * The JSON file behind the store is not modelled; the store is its content.
 */
module HashConfig {
  import opened Common

  const NUM_PARTITIONS: nat := 5

  /** One partition's expectations: a value, an enable flag and a fail-on-mismatch flag per algorithm. */
  datatype PartitionCfg = PartitionCfg(
    sha1Value: string, sha1Enabled: bool, sha1Fail: bool,
    sha256Value: string, sha256Enabled: bool, sha256Fail: bool)

  datatype FileEntry = FileEntry(filename: string, partitions: map<int, PartitionCfg>)

  type Store = map<string, FileEntry>

  function BlankPartition(): (c: PartitionCfg)
    ensures c.sha1Value == "" && c.sha256Value == ""
    ensures !c.sha1Enabled && !c.sha1Fail && !c.sha256Enabled && !c.sha256Fail
  {
    PartitionCfg("", false, false, "", false, false)
  }

  predicate AnyEnabled(c: PartitionCfg)
  {
    c.sha1Enabled || c.sha256Enabled
  }

  /** The partitions stored for a path (none when the image is unknown). */
  function PartitionsOf(store: Store, path: string): map<int, PartitionCfg>
  {
    var key := NormCase(path);
    if key in store then store[key].partitions else map[]
  }

  /** `get_partition`: the stored configuration, or a blank one. */
  function GetPartition(store: Store, path: string, partition: int): (c: PartitionCfg)
    ensures partition in PartitionsOf(store, path) ==> c == PartitionsOf(store, path)[partition]
    ensures partition !in PartitionsOf(store, path) ==> c == BlankPartition()
  {
    var parts := PartitionsOf(store, path);
    if partition in parts then parts[partition] else BlankPartition()
  }

  /**
   * `save_partition`: records `cfg` for the partition, creating the image's
   * entry (named after the path's base name) on first use.
   */
  function SavePartition(store: Store, path: string, partition: int, cfg: PartitionCfg): (s: Store)
    ensures NormCase(path) in s
    ensures s.Keys == store.Keys + {NormCase(path)}
    ensures s[NormCase(path)].filename ==
      (if NormCase(path) in store then store[NormCase(path)].filename else Basename(path))
  {
    var key := NormCase(path);
    var entry := if key in store then store[key] else FileEntry(Basename(path), map[]);
    store[key := entry.(partitions := entry.partitions[partition := cfg])]
  }

  /** Saving then reading the same partition gives back what was saved. */
  lemma SaveThenGet(store: Store, path: string, partition: int, cfg: PartitionCfg)
    ensures GetPartition(SavePartition(store, path, partition, cfg), path, partition) == cfg
  {
  }

  /** Saving one partition leaves every other partition of every image as it was. */
  lemma SaveKeepsOthers(store: Store, path: string, partition: int, cfg: PartitionCfg, other: string, n: int)
    requires NormCase(other) != NormCase(path) || n != partition
    ensures GetPartition(SavePartition(store, path, partition, cfg), other, n) == GetPartition(store, other, n)
  {
  }

  /** Paths that differ only in case or slash direction name the same image. */
  lemma SameImage(store: Store, p: string, q: string, n: int)
    requires NormCase(p) == NormCase(q)
    ensures GetPartition(store, p, n) == GetPartition(store, q, n)
  {
  }

  /** `has_any_enabled`: some stored partition of the image has an algorithm enabled. */
  predicate HasAnyEnabled(store: Store, path: string)
  {
    var parts := PartitionsOf(store, path);
    exists n :: n in parts && AnyEnabled(parts[n])
  }

  /** `get_enabled_partitions`: the stored partitions with an algorithm enabled, by number. */
  function GetEnabledPartitions(store: Store, path: string): (m: map<int, PartitionCfg>)
    ensures forall n :: n in m <==> n in PartitionsOf(store, path) && AnyEnabled(PartitionsOf(store, path)[n])
    ensures forall n :: n in m ==> m[n] == PartitionsOf(store, path)[n]
  {
    var parts := PartitionsOf(store, path);
    map n | n in parts && AnyEnabled(parts[n]) :: parts[n]
  }

  /** The enabled partitions are non-empty exactly when `has_any_enabled` holds. */
  lemma EnabledIffAny(store: Store, path: string)
    ensures |GetEnabledPartitions(store, path)| > 0 <==> HasAnyEnabled(store, path)
  {
    var m := GetEnabledPartitions(store, path);
    if HasAnyEnabled(store, path) {
      var n :| n in PartitionsOf(store, path) && AnyEnabled(PartitionsOf(store, path)[n]);
      assert n in m;
    } else {
      assert forall n :: n !in m;
      assert m == map[];
    }
  }

  /** A blank configuration enables nothing, so saving it never makes an image enabled on its own. */
  lemma SaveBlankAddsNothing(store: Store, path: string, partition: int)
    ensures HasAnyEnabled(SavePartition(store, path, partition, BlankPartition()), path)
        ==> HasAnyEnabled(store, path)
  {
    var parts := PartitionsOf(SavePartition(store, path, partition, BlankPartition()), path);
    if HasAnyEnabled(SavePartition(store, path, partition, BlankPartition()), path) {
      var n :| n in parts && AnyEnabled(parts[n]);
      assert n != partition;
      assert n in PartitionsOf(store, path) && AnyEnabled(PartitionsOf(store, path)[n]);
    }
  }
}
