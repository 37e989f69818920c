/**
 * The log of computed digests per image path, with the time of the last
 * computation. The clock and the timestamp parser are parameters: `now` is
 * the ISO text written on save and `ageOf` gives the whole days elapsed since
 * a stored timestamp (None when the text does not parse).
 */
module HashLog {
  import opened Common

  const STALE_DAYS: int := 30

  datatype LogEntry = LogEntry(filename: string, sha256: string, sha1: string, timestamp: Option<string>)

  type Log = map<string, LogEntry>

  /** `get_entry`: the entry stored under the normalised path, if any. */
  function GetEntry(log: Log, path: string): (e: Option<LogEntry>)
    ensures e.Some? <==> NormCase(path) in log
  {
    if NormCase(path) in log then Some(log[NormCase(path)]) else None
  }

  /** `save_entry`: records the digests under the normalised path, stamped with `now`. */
  function SaveEntry(log: Log, path: string, sha256: string, sha1: string, now: string): (l: Log)
    ensures l.Keys == log.Keys + {NormCase(path)}
    ensures forall k :: k in log && k != NormCase(path) ==> l[k] == log[k]
  {
    log[NormCase(path) := LogEntry(Basename(path), sha256, sha1, Some(now))]
  }

  /** Saving then reading back gives the base name, both digests and the save time. */
  lemma SaveThenGet(log: Log, path: string, sha256: string, sha1: string, now: string)
    ensures GetEntry(SaveEntry(log, path, sha256, sha1, now), path)
      == Some(LogEntry(Basename(path), sha256, sha1, Some(now)))
  {
  }

  /** `days_since`: None without an entry, without a timestamp, or with one that does not parse. */
  function DaysSince(log: Log, path: string, ageOf: string -> Option<int>): (d: Option<int>)
    ensures GetEntry(log, path).None? ==> d.None?
    ensures GetEntry(log, path).Some? && GetEntry(log, path).value.timestamp.None? ==> d.None?
    ensures d.Some? ==> d == ageOf(GetEntry(log, path).value.timestamp.value)
    ensures GetEntry(log, path).Some? && GetEntry(log, path).value.timestamp.Some? ==>
      d == ageOf(GetEntry(log, path).value.timestamp.value)
  {
    var e := GetEntry(log, path);
    if e.None? || e.value.timestamp.None? then None else ageOf(e.value.timestamp.value)
  }

  /** `is_stale`: a known age of at least 30 days. */
  function IsStale(log: Log, path: string, ageOf: string -> Option<int>): (b: bool)
    ensures b <==> DaysSince(log, path, ageOf).Some? && DaysSince(log, path, ageOf).value >= STALE_DAYS
  {
    var days := DaysSince(log, path, ageOf);
    days.Some? && days.value >= STALE_DAYS
  }

  /** A path never saved is never stale; a path just saved is stale only if its own stamp already reads as 30 days old. */
  lemma StalenessAfterSave(log: Log, path: string, sha256: string, sha1: string, now: string,
                           ageOf: string -> Option<int>)
    ensures IsStale(SaveEntry(log, path, sha256, sha1, now), path, ageOf)
      <==> ageOf(now).Some? && ageOf(now).value >= STALE_DAYS
    ensures NormCase(path) !in log ==> !IsStale(log, path, ageOf)
  {
    var saved := SaveEntry(log, path, sha256, sha1, now);
    SaveThenGet(log, path, sha256, sha1, now);
    assert DaysSince(saved, path, ageOf) == ageOf(now);
  }
}
