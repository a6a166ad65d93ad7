/**
 * Minute buckets of cached verdicts: per-fingerprint counters with an expiry, pruned
 * now and then, that must agree with the log of the scans they stand for.
 */
module VerdictRate {
  import opened Wrappers
  import opened Counting

  const RATE_BUCKET_SECONDS := 60
  const RATE_PRUNE_INTERVAL_SECONDS := 60.0

  datatype RateEntry = RateEntry(expiresAt: real, count: int)

  type Rate = map<(string, int), RateEntry>

  /** `int(t)`: truncation toward zero. */
  function Truncated(t: real): int {
    if t >= 0.0 then t.Floor else -((-t).Floor)
  }

  function RateBucket(t: real): int {
    Truncated(t) / RATE_BUCKET_SECONDS
  }

  predicate HoldsEntry(rate: Rate, k: (string, int), now: real) {
    k in rate && rate[k].expiresAt > now
  }

  function Pruned(rate: Rate, now: real): Rate {
    map k | k in rate && rate[k].expiresAt > now :: rate[k]
  }

  /** A recorded scan without its pruning: the minute's live counter goes up, or starts over. */
  function Counted(rate: Rate, k: (string, int), retainSeconds: int, now: real): Rate {
    rate[k := if HoldsEntry(rate, k, now) then rate[k].(count := rate[k].count + 1)
              else RateEntry(now + retainSeconds as real, 1)]
  }

  function CountAt(rate: Rate, k: (string, int), now: real): int {
    if HoldsEntry(rate, k, now) then rate[k].count else 0
  }

  /** The live counts of buckets `first` to `last`. */
  function CountRange(rate: Rate, fingerprint: string, first: int, last: int, now: real): int
    decreases last - first
  {
    if last < first then 0
    else CountRange(rate, fingerprint, first, last - 1, now) + CountAt(rate, (fingerprint, last), now)
  }

  /** What the cache answers for the minutes overlapping [since, upTo]. */
  function CachedScans(rate: Rate, fingerprint: string, since: real, upTo: real, now: real): int {
    CountRange(rate, fingerprint, RateBucket(since), RateBucket(upTo), now)
  }

  datatype CacheState = CacheState(rate: Rate, nextRatePrune: real)

  datatype Scan = Scan(fingerprint: string, retainSeconds: int, at: real)

  function AfterScan(c: CacheState, scan: Scan): CacheState {
    var due := scan.at >= c.nextRatePrune;
    CacheState(
      Counted(if due then Pruned(c.rate, scan.at) else c.rate,
              (scan.fingerprint, RateBucket(scan.at)), scan.retainSeconds, scan.at),
      if due then scan.at + RATE_PRUNE_INTERVAL_SECONDS else c.nextRatePrune)
  }

  class InMemoryVerdictCache {
    var rate: Rate
    var nextRatePrune: real

    constructor ()
      ensures State() == CacheState(map[], 0.0)
    {
      rate, nextRatePrune := map[], 0.0;
    }

    function State(): CacheState
      reads this
    {
      CacheState(rate, nextRatePrune)
    }

    /** `now` is the wall clock, read under the lock. */
    method RecordCachedScan(fingerprint: string, retainSeconds: int, now: real)
      modifies this
      ensures State() == AfterScan(old(State()), Scan(fingerprint, retainSeconds, now))
    {
      if now >= nextRatePrune {
        rate := map k | k in rate && rate[k].expiresAt > now :: rate[k];
        nextRatePrune := now + RATE_PRUNE_INTERVAL_SECONDS;
      }
      var key := (fingerprint, RateBucket(now));
      if key !in rate || rate[key].expiresAt <= now {
        rate := rate[key := RateEntry(now + retainSeconds as real, 1)];
      } else {
        rate := rate[key := RateEntry(rate[key].expiresAt, rate[key].count + 1)];
      }
    }

    method CachedScanCount(fingerprint: string, since: real, upTo: real, now: real) returns (total: int)
      ensures total == CachedScans(rate, fingerprint, since, upTo, now)
    {
      total := 0;
      var bucket, last := RateBucket(since), RateBucket(upTo);
      while bucket <= last
        invariant RateBucket(since) <= bucket <= if last < RateBucket(since) then RateBucket(since) else last + 1
        invariant total == CountRange(rate, fingerprint, RateBucket(since), bucket - 1, now)
        decreases last - bucket
      {
        var key := (fingerprint, bucket);
        if key in rate && rate[key].expiresAt > now {
          total := total + rate[key].count;
        }
        bucket := bucket + 1;
      }
    }
  }

  // ----- Pruning is unobservable -----

  function Run(scans: seq<Scan>): CacheState {
    if scans == [] then CacheState(map[], 0.0)
    else AfterScan(Run(scans[..|scans| - 1]), scans[|scans| - 1])
  }

  /** The same scans with no pruning at all. */
  function RunUnpruned(scans: seq<Scan>): Rate {
    if scans == [] then map[]
    else
      var scan := scans[|scans| - 1];
      Counted(RunUnpruned(scans[..|scans| - 1]), (scan.fingerprint, RateBucket(scan.at)), scan.retainSeconds, scan.at)
  }

  predicate ClockRuns(scans: seq<Scan>) {
    forall i, j :: 0 <= i <= j < |scans| ==> scans[i].at <= scans[j].at
  }

  function LastScanAt(scans: seq<Scan>): real
    requires scans != []
  {
    scans[|scans| - 1].at
  }

  /** The same live entries from `now` on. */
  ghost predicate Agree(a: Rate, b: Rate, now: real) {
    && (forall k :: HoldsEntry(a, k, now) ==> HoldsEntry(b, k, now))
    && (forall k :: HoldsEntry(b, k, now) ==> HoldsEntry(a, k, now) && a[k] == b[k])
  }

  lemma AgreeLater(a: Rate, b: Rate, now: real, later: real)
    requires Agree(a, b, now) && now <= later
    ensures Agree(a, b, later)
  {
    assert forall k :: HoldsEntry(a, k, later) ==> HoldsEntry(a, k, now);
    assert forall k :: HoldsEntry(b, k, later) ==> HoldsEntry(b, k, now);
  }

  lemma CountedAgree(a: Rate, b: Rate, scan: Scan)
    requires Agree(a, b, scan.at)
    ensures var k := (scan.fingerprint, RateBucket(scan.at));
            Agree(Counted(Pruned(a, scan.at), k, scan.retainSeconds, scan.at),
                  Counted(b, k, scan.retainSeconds, scan.at), scan.at)
    ensures var k := (scan.fingerprint, RateBucket(scan.at));
            Agree(Counted(a, k, scan.retainSeconds, scan.at), Counted(b, k, scan.retainSeconds, scan.at), scan.at)
  {
    assert Agree(Pruned(a, scan.at), b, scan.at) by {
      assert forall k :: HoldsEntry(Pruned(a, scan.at), k, scan.at) <==> HoldsEntry(a, k, scan.at);
    }
    CountingKeepsAgreement(Pruned(a, scan.at), b, scan);
    CountingKeepsAgreement(a, b, scan);
  }

  lemma CountingKeepsAgreement(a: Rate, b: Rate, scan: Scan)
    requires Agree(a, b, scan.at)
    ensures var k := (scan.fingerprint, RateBucket(scan.at));
            Agree(Counted(a, k, scan.retainSeconds, scan.at), Counted(b, k, scan.retainSeconds, scan.at), scan.at)
  {
    var k := (scan.fingerprint, RateBucket(scan.at));
    var a', b' := Counted(a, k, scan.retainSeconds, scan.at), Counted(b, k, scan.retainSeconds, scan.at);
    forall j ensures HoldsEntry(a', j, scan.at) == HoldsEntry(b', j, scan.at)
    ensures HoldsEntry(b', j, scan.at) ==> a'[j] == b'[j] {
      assert HoldsEntry(a, j, scan.at) == HoldsEntry(b, j, scan.at);
    }
  }

  lemma {:induction false} RunsAgree(scans: seq<Scan>, now: real)
    requires ClockRuns(scans) && (scans != [] ==> LastScanAt(scans) <= now)
    ensures Agree(Run(scans).rate, RunUnpruned(scans), now)
    decreases |scans|
  {
    if scans != [] {
      var init, scan := scans[..|scans| - 1], scans[|scans| - 1];
      RunsAgree(init, scan.at);
      CountedAgree(Run(init).rate, RunUnpruned(init), scan);
      AgreeLater(Run(scans).rate, RunUnpruned(scans), scan.at, now);
    }
  }

  lemma {:induction false} AgreeingCounts(a: Rate, b: Rate, fingerprint: string, first: int, last: int, now: real)
    requires Agree(a, b, now)
    ensures CountRange(a, fingerprint, first, last, now) == CountRange(b, fingerprint, first, last, now)
    decreases last - first
  {
    if first <= last {
      AgreeingCounts(a, b, fingerprint, first, last - 1, now);
      assert HoldsEntry(a, (fingerprint, last), now) == HoldsEntry(b, (fingerprint, last), now);
    }
  }

  /** Over every run with a forward clock, no read can tell whether the cache ever pruned. */
  lemma PruningIsUnobservable(scans: seq<Scan>, fingerprint: string, since: real, upTo: real, now: real)
    requires ClockRuns(scans) && (scans != [] ==> LastScanAt(scans) <= now)
    ensures CachedScans(Run(scans).rate, fingerprint, since, upTo, now) ==
            CachedScans(RunUnpruned(scans), fingerprint, since, upTo, now)
  {
    RunsAgree(scans, now);
    AgreeingCounts(Run(scans).rate, RunUnpruned(scans), fingerprint, RateBucket(since), RateBucket(upTo), now);
  }

  // ----- Buckets agree with the log -----

  /** The scans of a fingerprint are kept at least `retained` seconds, and happened after 1970. */
  predicate Retained(scans: seq<Scan>, fingerprint: string, retained: real) {
    forall i :: 0 <= i < |scans| ==>
      scans[i].at >= 0.0 && (scans[i].fingerprint == fingerprint ==> scans[i].retainSeconds as real >= retained)
  }

  predicate ScanIn(scan: Scan, fingerprint: string, first: int, last: int) {
    scan.fingerprint == fingerprint && first <= RateBucket(scan.at) <= last
  }

  /** The logged scans of a fingerprint in the minutes `first` to `last`. */
  function LoggedScans(scans: seq<Scan>, fingerprint: string, first: int, last: int): nat {
    Count(scans, (scan: Scan) => ScanIn(scan, fingerprint, first, last))
  }

  /** A minute's counter holds exactly its logged scans, until the minute's start plus the retention. */
  predicate BucketIsExact(rate: Rate, scans: seq<Scan>, fingerprint: string, bucket: int, retained: real) {
    var n := LoggedScans(scans, fingerprint, bucket, bucket);
    && (n == 0 ==> (fingerprint, bucket) !in rate)
    && (n > 0 ==>
          && (fingerprint, bucket) in rate && rate[(fingerprint, bucket)].count == n
          && rate[(fingerprint, bucket)].expiresAt >= (RATE_BUCKET_SECONDS * bucket) as real + retained)
  }

  predicate OfMinute(scan: Scan, k: (string, int)) {
    scan.fingerprint == k.0 && RateBucket(scan.at) == k.1
  }

  /** Scan `i` began a counting period of the minute: later scans of the minute came before its retention ran out. */
  predicate Begins(scans: seq<Scan>, k: (string, int), i: int) {
    && 0 <= i < |scans| && OfMinute(scans[i], k)
    && forall j :: i < j < |scans| && OfMinute(scans[j], k) ==>
         scans[j].at < scans[i].at + scans[i].retainSeconds as real
  }

  /** The entry expires with the scan that began its period, and counts the minute's scans from there. */
  predicate CountsFrom(entry: RateEntry, scans: seq<Scan>, k: (string, int), i: int) {
    && Begins(scans, k, i)
    && entry == RateEntry(scans[i].at + scans[i].retainSeconds as real, Count(scans[i..], (scan: Scan) => OfMinute(scan, k)))
  }

  lemma CountsOneMore(scans: seq<Scan>, scan: Scan, k: (string, int), i: nat)
    requires i < |scans|
    ensures Count((scans + [scan])[i..], (s: Scan) => OfMinute(s, k)) ==
            Count(scans[i..], (s: Scan) => OfMinute(s, k)) + if OfMinute(scan, k) then 1 else 0
  {
    assert (scans + [scan])[i..] == scans[i..] + [scan];
    CountAppend(scans[i..], scan, (s: Scan) => OfMinute(s, k));
  }

  lemma CountsNew(scans: seq<Scan>, scan: Scan, k: (string, int))
    requires OfMinute(scan, k)
    ensures CountsFrom(RateEntry(scan.at + scan.retainSeconds as real, 1), scans + [scan], k, |scans|)
  {
    assert (scans + [scan])[|scans|..] == [] + [scan];
    CountAppend([], scan, (s: Scan) => OfMinute(s, k));
  }

  /** Whatever the retention, a minute's entry is as old as the scan that began its period, and scans do not renew it. */
  lemma {:induction false} EntryCountsItsPeriod(scans: seq<Scan>, k: (string, int))
    ensures k in RunUnpruned(scans) <==> exists j :: 0 <= j < |scans| && OfMinute(scans[j], k)
    ensures k in RunUnpruned(scans) ==> exists i :: CountsFrom(RunUnpruned(scans)[k], scans, k, i)
    decreases |scans|
  {
    if scans != [] {
      var (init, scan) := (scans[..|scans| - 1], scans[|scans| - 1]);
      EntryCountsItsPeriod(init, k);
      assert init + [scan] == scans;
      var before := RunUnpruned(init);
      if OfMinute(scan, k) && !HoldsEntry(before, k, scan.at) {
        CountsNew(init, scan, k);
      } else if k in before {
        var i :| CountsFrom(before[k], init, k, i);
        CountsOneMore(init, scan, k, i);
        assert CountsFrom(RunUnpruned(scans)[k], scans, k, i);
      }
      if j :| 0 <= j < |init| && OfMinute(init[j], k) {
        assert scans[j] == init[j];
      }
    }
  }

  lemma InMinute(t: real)
    requires t >= 0.0
    ensures (RATE_BUCKET_SECONDS * RateBucket(t)) as real <= t < (RATE_BUCKET_SECONDS * RateBucket(t)) as real + 60.0
  {
  }

  lemma ScanKeepsBucketExact(rate: Rate, scans: seq<Scan>, scan: Scan, fingerprint: string, bucket: int, retained: real)
    requires BucketIsExact(rate, scans, fingerprint, bucket, retained) && retained >= 60.0
    requires scan.at >= 0.0 && (scan.fingerprint == fingerprint ==> scan.retainSeconds as real >= retained)
    ensures BucketIsExact(
              Counted(rate, (scan.fingerprint, RateBucket(scan.at)), scan.retainSeconds, scan.at),
              scans + [scan], fingerprint, bucket, retained)
  {
    CountAppend(scans, scan, (s: Scan) => ScanIn(s, fingerprint, bucket, bucket));
    InMinute(scan.at);
  }

  lemma {:induction false} BucketsAreExact(scans: seq<Scan>, fingerprint: string, bucket: int, retained: real)
    requires Retained(scans, fingerprint, retained) && retained >= 60.0
    ensures BucketIsExact(RunUnpruned(scans), scans, fingerprint, bucket, retained)
    decreases |scans|
  {
    if scans != [] {
      var init, scan := scans[..|scans| - 1], scans[|scans| - 1];
      BucketsAreExact(init, fingerprint, bucket, retained);
      ScanKeepsBucketExact(RunUnpruned(init), init, scan, fingerprint, bucket, retained);
      assert init + [scan] == scans;
    }
  }

  lemma {:induction false} RangeIsExact(scans: seq<Scan>, fingerprint: string, first: int, last: int, retained: real, now: real)
    requires Retained(scans, fingerprint, retained) && retained >= 60.0
    requires (RATE_BUCKET_SECONDS * first) as real + retained > now
    ensures CountRange(RunUnpruned(scans), fingerprint, first, last, now) == LoggedScans(scans, fingerprint, first, last)
    decreases last - first
  {
    if last < first {
      CountNone(scans, (scan: Scan) => ScanIn(scan, fingerprint, first, last));
    } else {
      RangeIsExact(scans, fingerprint, first, last - 1, retained, now);
      BucketsAreExact(scans, fingerprint, last, retained);
      CountSplits(
        scans,
        (scan: Scan) => ScanIn(scan, fingerprint, first, last),
        (scan: Scan) => ScanIn(scan, fingerprint, first, last - 1),
        (scan: Scan) => ScanIn(scan, fingerprint, last, last));
    }
  }

  /**
   * When scans are retained a minute, and a minute longer than the window reaches back, the cache's
   * count is exactly the number of logged scans in the minutes overlapping the window.
   */
  lemma CacheCountsTheLog(scans: seq<Scan>, fingerprint: string, since: real, upTo: real, retained: real, now: real)
    requires ClockRuns(scans) && (scans != [] ==> LastScanAt(scans) <= now)
    requires Retained(scans, fingerprint, retained) && retained >= 60.0 && retained >= now - since + 60.0
    ensures CachedScans(Run(scans).rate, fingerprint, since, upTo, now) ==
            LoggedScans(scans, fingerprint, RateBucket(since), RateBucket(upTo))
  {
    PruningIsUnobservable(scans, fingerprint, since, upTo, now);
    assert (RATE_BUCKET_SECONDS * RateBucket(since)) as real > since - 60.0;
    RangeIsExact(scans, fingerprint, RateBucket(since), RateBucket(upTo), retained, now);
  }

  /** The whole minutes that meet the window: from the start of `since`'s to the end of `upTo`'s. */
  predicate InMinutesOf(scan: Scan, fingerprint: string, since: real, upTo: real) {
    && scan.fingerprint == fingerprint
    && (60 * (since.Floor / 60)) as real <= scan.at < (60 * (upTo.Floor / 60) + 60) as real
  }

  lemma {:induction false} CountAlike(scans: seq<Scan>, p: Scan -> bool, q: Scan -> bool)
    requires forall i :: 0 <= i < |scans| ==> (p(scans[i]) <==> q(scans[i]))
    ensures Count(scans, p) == Count(scans, q)
  {
    if scans != [] {
      CountAlike(scans[..|scans| - 1], p, q);
    }
  }

  lemma MinutesExactly(t: real, since: real, upTo: real)
    requires t >= 0.0 && since >= 0.0 && upTo >= 0.0
    ensures RateBucket(since) <= RateBucket(t) <= RateBucket(upTo) <==>
            (60 * (since.Floor / 60)) as real <= t < (60 * (upTo.Floor / 60) + 60) as real
  {
    assert t.Floor as real <= t < t.Floor as real + 1.0;
    assert (60 * (since.Floor / 60)) as real <= t <==> 60 * (since.Floor / 60) <= t.Floor;
    assert t < (60 * (upTo.Floor / 60) + 60) as real <==> t.Floor < 60 * (upTo.Floor / 60) + 60;
  }

  /** In seconds: the count is of the scans in the whole minutes that meet the window. */
  lemma CacheCountsWholeMinutes(scans: seq<Scan>, fingerprint: string, since: real, upTo: real, retained: real, now: real)
    requires ClockRuns(scans) && (scans != [] ==> LastScanAt(scans) <= now) && since >= 0.0 && upTo >= 0.0
    requires Retained(scans, fingerprint, retained) && retained >= 60.0 && retained >= now - since + 60.0
    ensures CachedScans(Run(scans).rate, fingerprint, since, upTo, now) ==
            Count(scans, (scan: Scan) => InMinutesOf(scan, fingerprint, since, upTo))
  {
    CacheCountsTheLog(scans, fingerprint, since, upTo, retained, now);
    forall i | 0 <= i < |scans|
      ensures ScanIn(scans[i], fingerprint, RateBucket(since), RateBucket(upTo)) <==>
              InMinutesOf(scans[i], fingerprint, since, upTo)
    {
      MinutesExactly(scans[i].at, since, upTo);
    }
    CountAlike(
      scans, (scan: Scan) => ScanIn(scan, fingerprint, RateBucket(since), RateBucket(upTo)),
      (scan: Scan) => InMinutesOf(scan, fingerprint, since, upTo));
  }
}
