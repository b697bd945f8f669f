/**
 * Today's statistics and the key-value stores that cache them: the statistics as a function
 * of the table, the `attendance:stats:` key space, and the two store operations the service
 * and the listener use (forgetting one key, flushing every key of a pattern).
 */
module TodayStatistics {
  import opened Text
  import opened Calendar
  import opened Rounding
  import opened Models

  datatype Stats = Stats(date: string, total: nat, present: nat, absent: nat, late: nat, percentage: real)

  const StatsKeyPrefix: string := "attendance:stats:"
  const TodayKeyPrefix: string := "attendance:stats:today:"

  /** Seconds a cached statistics entry lives (`setex` TTL); expiry itself is not modelled. */
  const StatsTtl: nat := 3600

  /** The reader's key: `attendance:stats:today:` followed by the date as `Y-m-d`. */
  function TodayKey(today: Date): (k: string)
    requires ValidDate(today)
    ensures HasPrefix(k, StatsKeyPrefix) && |k| == |TodayKeyPrefix| + 10
  {
    TodayKeyPrefix + FormatYmd(today)
  }

  /** Different days never share a key. */
  lemma TodayKeyInjective(a: Date, b: Date)
    requires ValidDate(a) && ValidDate(b) && TodayKey(a) == TodayKey(b)
    ensures a == b
  {
    assert FormatYmd(a) == TodayKey(a)[|TodayKeyPrefix|..];
    assert FormatYmd(b) == TodayKey(b)[|TodayKeyPrefix|..];
    FormatYmdInjective(a, b);
  }

  /** `calculateTodayStatistics`: counts of today's rows and the present percentage. */
  function CalculateTodayStatistics(t: Table, today: Date): (s: Stats)
    requires ValidDate(today)
    ensures s.date == FormatYmd(today) && s.total == |ForDate(t, today)|
    ensures s.present == |ByStatus(ForDate(t, today), Present)|
    ensures s.absent == |ByStatus(ForDate(t, today), Absent)|
    ensures s.late == |ByStatus(ForDate(t, today), Late)|
    ensures s.present + s.absent + s.late == s.total
    ensures s.percentage == Percentage(s.present, s.total)
    ensures 0.0 <= s.percentage <= 100.0
    ensures s.total == 0 ==> s.percentage == 0.0
  {
    var rows := ForDate(t, today);
    var present := |ByStatus(rows, Present)|;
    StatusPartition(rows);
    PercentageBounds(present, |rows|);
    Stats(FormatYmd(today), |rows|, present, |ByStatus(rows, Absent)|, |ByStatus(rows, Late)|,
          Percentage(present, |rows|))
  }

  /** The worked example: one present and one absent row on the day give 50 percent. */
  lemma TwoRowsExample(t: Table, today: Date, a: Attendance, b: Attendance)
    requires ValidDate(today)
    requires a.date == today && b.date == today && a.status == Present && b.status == Absent
    requires t == map[KeyOf(a) := a, KeyOf(b) := b] && KeyOf(a) != KeyOf(b)
    ensures var s := CalculateTodayStatistics(t, today);
      s.total == 2 && s.present == 1 && s.absent == 1 && s.late == 0 && s.percentage == 50.0
  {
    var rows := ForDate(t, today);
    assert rows.Keys == {KeyOf(a), KeyOf(b)};
    assert ByStatus(rows, Present).Keys == {KeyOf(a)};
    assert ByStatus(rows, Absent).Keys == {KeyOf(b)};
    assert ByStatus(rows, Late).Keys == {};
    RoundTo2OfCents(5000);
    assert 1 as real / 2 as real * 100.0 == 5000 as real / 100.0;
  }

  /** What a store holds under a key: the encoded statistics and the TTL they were stored with. */
  datatype CacheEntry = CacheEntry(value: Stats, ttl: nat)

  /** A key-value store: the Redis connection the service uses, or the cache store the listener uses. */
  class KeyValueStore {
    var entries: map<string, CacheEntry>

    constructor (entries: map<string, CacheEntry>)
      ensures this.entries == entries
    {
      this.entries := entries;
    }
  }

  /** Deleting one key (`Cache::forget`, `Redis::del`): removing an absent key changes nothing. */
  function Forget(entries: map<string, CacheEntry>, key: string): (r: map<string, CacheEntry>)
    ensures key !in r
    ensures forall k :: k != key ==> (k in r <==> k in entries) && (k in r ==> r[k] == entries[k])
  {
    entries - {key}
  }

  lemma ForgetIdempotent(entries: map<string, CacheEntry>, key: string)
    ensures Forget(Forget(entries, key), key) == Forget(entries, key)
    ensures key !in entries ==> Forget(entries, key) == entries
  {
  }

  /** The keys matching the pattern `prefix*`. */
  function MatchingKeys(entries: map<string, CacheEntry>, prefix: string): set<string>
  {
    set k | k in entries && HasPrefix(k, prefix)
  }

  /** Deleting every key that matches `prefix*` and keeping every other key. */
  function FlushPrefix(entries: map<string, CacheEntry>, prefix: string): (r: map<string, CacheEntry>)
    ensures forall k :: k in r <==> k in entries && !HasPrefix(k, prefix)
    ensures forall k :: k in r ==> r[k] == entries[k]
  {
    entries - MatchingKeys(entries, prefix)
  }

  /** After a flush of `attendance:stats:*`, no day's statistics are cached any more. */
  lemma FlushClearsEveryDay(entries: map<string, CacheEntry>, d: Date)
    requires ValidDate(d)
    ensures TodayKey(d) !in FlushPrefix(entries, StatsKeyPrefix)
  {
  }
}
