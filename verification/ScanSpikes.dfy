/** The spike detector: evidence rows and cached scans of the trailing window against the envelope's own history. */
module ScanSpikes {
  import opened Counting
  import opened Permutations
  import opened VerdictRate

  datatype Thresholds = Thresholds(windowSeconds: int, baselineSeconds: int, ratio: real, minScans: int)

  /** One candidate envelope: the counts of its evidence rows. */
  datatype EnvelopeRow = EnvelopeRow(fingerprint: string, recentCount: int, baselineCount: int)

  datatype Spike = Spike(fingerprint: string, recent: int, baseline: int)

  /** Scans outside the alert window, scaled to one window's worth. */
  function BaselinePerWindow(recent: int, baseline: int, t: Thresholds): real {
    var prior := if baseline - recent < 0 then 0 else baseline - recent;
    var remaining := t.baselineSeconds - t.windowSeconds;
    if remaining > 0 then (prior * t.windowSeconds) as real / remaining as real else 0.0
  }

  predicate IsSpike(recent: int, baseline: int, t: Thresholds) {
    && recent >= t.minScans
    && var usual := BaselinePerWindow(recent, baseline, t);
       (usual > 0.0 ==> recent as real / usual >= t.ratio)
  }

  /** The cache reads its own clock whenever it is asked: twice for each candidate. */
  datatype Asked = Asked(recentAt: real, baselineAt: real)

  /** The window ends at `now`, whenever the cache is asked about it. */
  function MergedSpike(row: EnvelopeRow, rate: Rate, now: real, asked: Asked, t: Thresholds): Spike {
    Spike(
      row.fingerprint,
      row.recentCount + CachedScans(rate, row.fingerprint, now - t.windowSeconds as real, now, asked.recentAt),
      row.baselineCount + CachedScans(rate, row.fingerprint, now - t.baselineSeconds as real, now, asked.baselineAt))
  }

  function SpikeOf(row: EnvelopeRow, rate: Rate, now: real, asked: Asked, t: Thresholds): seq<Spike> {
    var spike := MergedSpike(row, rate, now, asked, t);
    if IsSpike(spike.recent, spike.baseline, t) then [spike] else []
  }

  /** What each candidate contributes: its spike, or nothing. */
  function Contributions(rows: seq<EnvelopeRow>, rate: Rate, now: real, asked: seq<Asked>, t: Thresholds)
    : (parts: seq<seq<Spike>>)
    requires |asked| == |rows|
    ensures |parts| == |rows|
  {
    seq(|rows|, i requires 0 <= i < |rows| => SpikeOf(rows[i], rate, now, asked[i], t))
  }

  function Spikes(rows: seq<EnvelopeRow>, rate: Rate, now: real, asked: seq<Asked>, t: Thresholds): seq<Spike>
    requires |asked| == |rows|
  {
    Flat(Contributions(rows, rate, now, asked, t))
  }

  /** A stable insertion: behind every spike that is at least as large. */
  function Insert(sorted: seq<Spike>, spike: Spike): seq<Spike> {
    if sorted != [] && sorted[|sorted| - 1].recent < spike.recent
    then Insert(sorted[..|sorted| - 1], spike) + [sorted[|sorted| - 1]]
    else sorted + [spike]
  }

  /** `sort(key=recent_count, reverse=True)`, which keeps equal spikes in their order. */
  function SortByRecent(spikes: seq<Spike>): seq<Spike> {
    if spikes == [] then [] else Insert(SortByRecent(spikes[..|spikes| - 1]), spikes[|spikes| - 1])
  }

  /** `spikes[:limit]` */
  function Taken(spikes: seq<Spike>, limit: int): seq<Spike> {
    var end := if limit < 0 then |spikes| + limit else limit;
    spikes[..if end < 0 then 0 else if end > |spikes| then |spikes| else end]
  }

  /** The detector: the accumulating loop, then the sort and the truncation. */
  method DetectEnvelopeSpikes(
    rows: seq<EnvelopeRow>, cache: InMemoryVerdictCache, now: real, asked: seq<Asked>, t: Thresholds, limit: int)
    returns (listed: seq<Spike>)
    requires |asked| == |rows|
    ensures listed == Taken(SortByRecent(Spikes(rows, cache.rate, now, asked, t)), limit)
  {
    var spikes := CollectSpikes(rows, cache, now, asked, t);
    return Taken(SortByRecent(spikes), limit);
  }

  lemma NextContribution(rows: seq<EnvelopeRow>, rate: Rate, now: real, asked: seq<Asked>, t: Thresholds, i: nat)
    requires |asked| == |rows| && i < |rows|
    ensures Spikes(rows[..i + 1], rate, now, asked[..i + 1], t) ==
            Spikes(rows[..i], rate, now, asked[..i], t) + SpikeOf(rows[i], rate, now, asked[i], t)
  {
    var parts := Contributions(rows[..i], rate, now, asked[..i], t);
    assert Contributions(rows[..i + 1], rate, now, asked[..i + 1], t) == parts + [SpikeOf(rows[i], rate, now, asked[i], t)];
    SelectAppend(parts, SpikeOf(rows[i], rate, now, asked[i], t), (part: seq<Spike>) => part);
  }

  method CollectSpikes(rows: seq<EnvelopeRow>, cache: InMemoryVerdictCache, now: real, asked: seq<Asked>, t: Thresholds)
    returns (spikes: seq<Spike>)
    requires |asked| == |rows|
    ensures spikes == Spikes(rows, cache.rate, now, asked, t)
  {
    spikes := [];
    for i := 0 to |rows|
      invariant spikes == Spikes(rows[..i], cache.rate, now, asked[..i], t)
    {
      NextContribution(rows, cache.rate, now, asked, t, i);
      var spike := JudgeRow(rows[i], cache, now, asked[i], t);
      spikes := spikes + spike;
    }
    assert rows[..|rows|] == rows && asked[..|rows|] == asked;
  }

  /** The body of the loop: merge the two sources, compare with the floor and the ratio. */
  method JudgeRow(row: EnvelopeRow, cache: InMemoryVerdictCache, now: real, asked: Asked, t: Thresholds)
    returns (spike: seq<Spike>)
    ensures spike == SpikeOf(row, cache.rate, now, asked, t)
  {
    var baselineStart, windowStart := now - t.baselineSeconds as real, now - t.windowSeconds as real;
    var remainingSeconds := t.baselineSeconds - t.windowSeconds;
    var cachedRecent := cache.CachedScanCount(row.fingerprint, windowStart, now, asked.recentAt);
    var cachedBaseline := cache.CachedScanCount(row.fingerprint, baselineStart, now, asked.baselineAt);
    var recent := row.recentCount + cachedRecent;
    var baseline := row.baselineCount + cachedBaseline;
    var prior := if baseline - recent < 0 then 0 else baseline - recent;
    var perWindow := 0.0;
    if remainingSeconds > 0 {
      perWindow := (prior * t.windowSeconds) as real / remainingSeconds as real;
    }
    assert perWindow == BaselinePerWindow(recent, baseline, t);
    if recent < t.minScans {
      return [];
    }
    if perWindow > 0.0 && recent as real / perWindow < t.ratio {
      return [];
    }
    return [Spike(row.fingerprint, recent, baseline)];
  }

  lemma QuotientGrows(a: real, b: real, d: real)
    requires d > 0.0 && a <= b
    ensures a / d <= b / d
  {
    assert b / d - a / d == (b - a) / d;
  }

  /** Scans inside the trailing window count on both sides, and so never clear a spike. */
  lemma TrailingScansKeepSpikes(recent: int, baseline: int, extra: nat, t: Thresholds)
    requires IsSpike(recent, baseline, t)
    ensures IsSpike(recent + extra, baseline + extra, t)
  {
    var usual := BaselinePerWindow(recent, baseline, t);
    assert BaselinePerWindow(recent + extra, baseline + extra, t) == usual;
    if usual > 0.0 {
      QuotientGrows(recent as real, (recent + extra) as real, usual);
    }
  }

  lemma BucketsAreMonotone(a: real, b: real)
    requires a <= b
    ensures RateBucket(a) <= RateBucket(b)
  {
    assert Truncated(a) <= Truncated(b);
  }

  /** One more scan in the window raises the cache's count of it by exactly one. */
  lemma ScanRaisesCount(scans: seq<Scan>, scan: Scan, since: real, upTo: real, retained: real, readAt: real)
    requires ClockRuns(scans + [scan]) && since <= scan.at <= upTo && scan.at <= readAt
    requires Retained(scans + [scan], scan.fingerprint, retained) && retained >= 60.0 && retained >= readAt - since + 60.0
    ensures CachedScans(Run(scans + [scan]).rate, scan.fingerprint, since, upTo, readAt) ==
            CachedScans(Run(scans).rate, scan.fingerprint, since, upTo, readAt) + 1
  {
    var all := scans + [scan];
    assert forall i :: 0 <= i < |scans| ==> scans[i] == all[i];
    assert all[|scans|] == scan;
    CacheCountsTheLog(all, scan.fingerprint, since, upTo, retained, readAt);
    CacheCountsTheLog(scans, scan.fingerprint, since, upTo, retained, readAt);
    BucketsAreMonotone(since, scan.at);
    BucketsAreMonotone(scan.at, upTo);
    CountAppend(scans, scan, (s: Scan) => ScanIn(s, scan.fingerprint, RateBucket(since), RateBucket(upTo)));
  }

  /** Another envelope's scan leaves the cache's count of this one alone. */
  lemma OtherScanKeepsCount(
    scans: seq<Scan>, scan: Scan, fingerprint: string, since: real, upTo: real, retained: real, readAt: real)
    requires ClockRuns(scans + [scan]) && scan.at <= readAt && scan.fingerprint != fingerprint
    requires Retained(scans + [scan], fingerprint, retained) && retained >= 60.0 && retained >= readAt - since + 60.0
    ensures CachedScans(Run(scans + [scan]).rate, fingerprint, since, upTo, readAt) ==
            CachedScans(Run(scans).rate, fingerprint, since, upTo, readAt)
  {
    var all := scans + [scan];
    assert forall i :: 0 <= i < |scans| ==> scans[i] == all[i];
    assert all[|scans|] == scan;
    CacheCountsTheLog(all, fingerprint, since, upTo, retained, readAt);
    CacheCountsTheLog(scans, fingerprint, since, upTo, retained, readAt);
    CountAppend(scans, scan, (s: Scan) => ScanIn(s, fingerprint, RateBucket(since), RateBucket(upTo)));
  }

  /** Both reads come after the window ends, and retention covers what lies between, and a minute. */
  predicate ReadInTime(asked: Asked, now: real, retained: real, t: Thresholds) {
    && 0 <= t.windowSeconds <= t.baselineSeconds && retained >= 60.0
    && now <= asked.recentAt && retained >= asked.recentAt - (now - t.windowSeconds as real) + 60.0
    && now <= asked.baselineAt && retained >= asked.baselineAt - (now - t.baselineSeconds as real) + 60.0
  }

  /** The cached count of a fingerprint differs by `step` between two rates. */
  predicate CountMoves(rate: Rate, rate': Rate, fingerprint: string, step: nat, since: real, upTo: real, readAt: real) {
    CachedScans(rate', fingerprint, since, upTo, readAt) == CachedScans(rate, fingerprint, since, upTo, readAt) + step
  }

  /** Both counts of a fingerprint do. */
  predicate CountsMove(rate: Rate, rate': Rate, fingerprint: string, step: nat, now: real, asked: Asked, t: Thresholds) {
    && CountMoves(rate, rate', fingerprint, step, now - t.windowSeconds as real, now, asked.recentAt)
    && CountMoves(rate, rate', fingerprint, step, now - t.baselineSeconds as real, now, asked.baselineAt)
  }

  function StepOf(scan: Scan, fingerprint: string): nat {
    if scan.fingerprint == fingerprint then 1 else 0
  }

  function Earlier(scans: seq<Scan>): seq<Scan>
    requires scans != []
  {
    scans[..|scans| - 1]
  }

  function Latest(scans: seq<Scan>): Scan
    requires scans != []
  {
    scans[|scans| - 1]
  }

  lemma LatestMovesCount(scans: seq<Scan>, fingerprint: string, since: real, upTo: real, retained: real, readAt: real)
    requires scans != [] && ClockRuns(scans) && since <= Latest(scans).at <= upTo && Latest(scans).at <= readAt
    requires Retained(scans, fingerprint, retained) && retained >= 60.0 && retained >= readAt - since + 60.0
    ensures CountMoves(Run(Earlier(scans)).rate, Run(scans).rate, fingerprint,
                       StepOf(Latest(scans), fingerprint), since, upTo, readAt)
  {
    var (front, scan) := (Earlier(scans), Latest(scans));
    assert scans == front + [scan];
    if scan.fingerprint == fingerprint {
      ScanRaisesCount(front, scan, since, upTo, retained, readAt);
    } else {
      OtherScanKeepsCount(front, scan, fingerprint, since, upTo, retained, readAt);
    }
  }

  lemma WindowsContain(at: real, retained: real, now: real, asked: Asked, t: Thresholds)
    requires ReadInTime(asked, now, retained, t) && now - t.windowSeconds as real <= at <= now
    ensures now - t.baselineSeconds as real <= at && at <= asked.recentAt && at <= asked.baselineAt
  {
  }

  /** The latest scan, in the trailing window. */
  predicate ScannedInWindow(scans: seq<Scan>, now: real, t: Thresholds) {
    scans != [] && ClockRuns(scans) && now - t.windowSeconds as real <= Latest(scans).at <= now
  }

  /** It raises both counts of its own fingerprint and no other's. */
  lemma ScanMovesCounts(scans: seq<Scan>, fingerprint: string, retained: real, now: real, asked: Asked, t: Thresholds)
    requires ScannedInWindow(scans, now, t) && Retained(scans, fingerprint, retained) && ReadInTime(asked, now, retained, t)
    ensures CountsMove(Run(Earlier(scans)).rate, Run(scans).rate, fingerprint, StepOf(Latest(scans), fingerprint), now, asked, t)
  {
    WindowsContain(Latest(scans).at, retained, now, asked, t);
    LatestMovesCount(scans, fingerprint, now - t.windowSeconds as real, now, retained, asked.recentAt);
    LatestMovesCount(scans, fingerprint, now - t.baselineSeconds as real, now, retained, asked.baselineAt);
  }

  lemma MergedCountsFollow(row: EnvelopeRow, rate: Rate, rate': Rate, step: nat, now: real, asked: Asked, t: Thresholds)
    requires CountsMove(rate, rate', row.fingerprint, step, now, asked, t)
    ensures var before := MergedSpike(row, rate, now, asked, t);
            MergedSpike(row, rate', now, asked, t) == Spike(row.fingerprint, before.recent + step, before.baseline + step)
  {
  }

  /** Counts that move together keep a spike a spike. */
  lemma MovedSpike(row: EnvelopeRow, rate: Rate, rate': Rate, step: nat, now: real, asked: Asked, t: Thresholds)
    requires CountsMove(rate, rate', row.fingerprint, step, now, asked, t) && SpikeOf(row, rate, now, asked, t) != []
    ensures var before := MergedSpike(row, rate, now, asked, t);
            SpikeOf(row, rate', now, asked, t) == [Spike(row.fingerprint, before.recent + step, before.baseline + step)]
  {
    var before := MergedSpike(row, rate, now, asked, t);
    MergedCountsFollow(row, rate, rate', step, now, asked, t);
    TrailingScansKeepSpikes(before.recent, before.baseline, step, t);
  }

  /**
   * End to end: with retention for both windows, the delay of each read and a minute, a further cached scan
   * inside the trailing window leaves a spiking envelope spiking, with both of its counts one higher.
   */
  lemma SpikeSurvivesScan(
    row: EnvelopeRow, scans: seq<Scan>, retained: real, now: real, asked: Asked, t: Thresholds)
    requires ScannedInWindow(scans, now, t) && Latest(scans).fingerprint == row.fingerprint
    requires Retained(scans, row.fingerprint, retained) && ReadInTime(asked, now, retained, t)
    requires SpikeOf(row, Run(Earlier(scans)).rate, now, asked, t) != []
    ensures var before := MergedSpike(row, Run(Earlier(scans)).rate, now, asked, t);
            SpikeOf(row, Run(scans).rate, now, asked, t) ==
            [Spike(row.fingerprint, before.recent + 1, before.baseline + 1)]
  {
    ScanMovesCounts(scans, row.fingerprint, retained, now, asked, t);
    MovedSpike(row, Run(Earlier(scans)).rate, Run(scans).rate, 1, now, asked, t);
  }

  // ----- What is listed -----

  predicate Descending(spikes: seq<Spike>) {
    forall i, j :: 0 <= i <= j < |spikes| ==> spikes[i].recent >= spikes[j].recent
  }

  lemma {:induction false} InsertItems(sorted: seq<Spike>, spike: Spike)
    ensures SameItems(Insert(sorted, spike), sorted + [spike])
    decreases |sorted|
  {
    if sorted != [] && sorted[|sorted| - 1].recent < spike.recent {
      var front, last := sorted[..|sorted| - 1], sorted[|sorted| - 1];
      InsertItems(front, spike);
      assert sorted == front + [last];
    }
  }

  /** Appending a spike no larger than any before it keeps the order. */
  lemma AppendDescends(spikes: seq<Spike>, last: Spike)
    requires Descending(spikes) && forall s :: s in spikes ==> s.recent >= last.recent
    ensures Descending(spikes + [last])
  {
    assert forall i :: 0 <= i < |spikes| ==> (spikes + [last])[i] == spikes[i] && spikes[i] in spikes;
  }

  lemma {:induction false} InsertSorts(sorted: seq<Spike>, spike: Spike)
    requires Descending(sorted)
    ensures Descending(Insert(sorted, spike))
    decreases |sorted|
  {
    var n := |sorted| - 1;
    if sorted != [] && sorted[n].recent < spike.recent {
      InsertSorts(sorted[..n], spike);
      InsertItems(sorted[..n], spike);
      SameMembers(Insert(sorted[..n], spike), sorted[..n] + [spike]);
      assert forall s :: s in sorted[..n] + [spike] ==> s.recent >= sorted[n].recent;
      AppendDescends(Insert(sorted[..n], spike), sorted[n]);
    } else {
      assert forall s :: s in sorted ==> s.recent >= spike.recent;
      AppendDescends(sorted, spike);
    }
  }

  /** The sort lists the same spikes, largest first. */
  lemma {:induction false} SortSorts(spikes: seq<Spike>)
    ensures Descending(SortByRecent(spikes)) && SameItems(SortByRecent(spikes), spikes)
    decreases |spikes|
  {
    if spikes != [] {
      var front, last := spikes[..|spikes| - 1], spikes[|spikes| - 1];
      SortSorts(front);
      InsertSorts(SortByRecent(front), last);
      InsertItems(SortByRecent(front), last);
      assert spikes == front + [last];
    }
  }

  /**
   * A non-negative limit lists that many spikes and a negative one leaves that many out, as far as there are
   * any; none left out is larger than one listed.
   */
  lemma ListedAreLargest(spikes: seq<Spike>, limit: int) returns (omitted: seq<Spike>)
    ensures var listed := Taken(SortByRecent(spikes), limit);
            && (limit >= 0 ==> |listed| == if limit < |spikes| then limit else |spikes|)
            && (limit < 0 ==> |omitted| == if -limit < |spikes| then -limit else |spikes|)
            && SameItems(listed + omitted, spikes) && Descending(listed + omitted)
  {
    SortSorts(spikes);
    SameMembers(SortByRecent(spikes), spikes);
    var listed := Taken(SortByRecent(spikes), limit);
    omitted := SortByRecent(spikes)[|listed|..];
    assert listed + omitted == SortByRecent(spikes);
  }

  // ----- Which candidates are reported -----

  /** A rate is at least `ratio` times a positive usual one exactly when it is after clearing the denominator. */
  lemma RatioCleared(recent: real, traffic: real, remaining: real, ratio: real)
    requires traffic > 0.0 && remaining > 0.0
    ensures traffic / remaining > 0.0
    ensures recent / (traffic / remaining) >= ratio <==> recent * remaining >= ratio * traffic
  {
    var usual := traffic / remaining;
    assert usual * remaining == traffic;
    assert (recent / usual) * usual == recent;
    if recent / usual >= ratio {
      Scaled(ratio, recent / usual, usual);
      Scaled(ratio * usual, recent, remaining);
    }
    if recent * remaining >= ratio * traffic {
      if recent / usual < ratio {
        StrictlyScaled(recent / usual, ratio, usual);
        StrictlyScaled(recent, ratio * usual, remaining);
      }
    }
  }

  lemma Scaled(a: real, b: real, c: real)
    requires a <= b && c > 0.0
    ensures a * c <= b * c
  {
  }

  lemma StrictlyScaled(a: real, b: real, c: real)
    requires a < b && c > 0.0
    ensures a * c < b * c
  {
  }

  lemma NoTraffic(traffic: int, remaining: int)
    requires remaining > 0 && traffic <= 0
    ensures traffic as real / remaining as real <= 0.0
  {
  }

  /**
   * The recent count reaches the floor, and either nothing is usual or it is at least `ratio` times the scans of
   * a window's length in the rest of the baseline.
   */
  predicate Reportable(recent: int, baseline: int, t: Thresholds) {
    var prior := if baseline > recent then baseline - recent else 0;
    var remaining := t.baselineSeconds - t.windowSeconds;
    && recent >= t.minScans
    && (|| remaining <= 0 || prior * t.windowSeconds <= 0
        || recent as real * remaining as real >= t.ratio * (prior * t.windowSeconds) as real)
  }

  lemma SpikeExactly(recent: int, baseline: int, t: Thresholds)
    ensures IsSpike(recent, baseline, t) <==> Reportable(recent, baseline, t)
  {
    var prior := if baseline > recent then baseline - recent else 0;
    var remaining := t.baselineSeconds - t.windowSeconds;
    var traffic := prior * t.windowSeconds;
    assert BaselinePerWindow(recent, baseline, t) == if remaining > 0 then traffic as real / remaining as real else 0.0;
    if remaining > 0 {
      if traffic > 0 {
        RatioCleared(recent as real, traffic as real, remaining as real, t.ratio);
      } else {
        NoTraffic(traffic, remaining);
      }
    }
  }

  /** The merged counts of a candidate: its evidence rows, and the cached scans of either window. */
  function RecentOf(row: EnvelopeRow, rate: Rate, now: real, asked: Asked, t: Thresholds): int {
    row.recentCount + CachedScans(rate, row.fingerprint, now - t.windowSeconds as real, now, asked.recentAt)
  }

  function BaselineOf(row: EnvelopeRow, rate: Rate, now: real, asked: Asked, t: Thresholds): int {
    row.baselineCount + CachedScans(rate, row.fingerprint, now - t.baselineSeconds as real, now, asked.baselineAt)
  }

  lemma ContributesExactly(row: EnvelopeRow, rate: Rate, now: real, asked: Asked, t: Thresholds)
    ensures var (recent, baseline) := (RecentOf(row, rate, now, asked, t), BaselineOf(row, rate, now, asked, t));
            SpikeOf(row, rate, now, asked, t) ==
            if Reportable(recent, baseline, t) then [Spike(row.fingerprint, recent, baseline)] else []
  {
    var recent, baseline := RecentOf(row, rate, now, asked, t), BaselineOf(row, rate, now, asked, t);
    SpikeOfCounts(row, rate, now, asked, t, recent, baseline);
    SpikeExactly(recent, baseline, t);
  }

  lemma SpikeOfCounts(
    row: EnvelopeRow, rate: Rate, now: real, asked: Asked, t: Thresholds, recent: int, baseline: int)
    requires recent == RecentOf(row, rate, now, asked, t) && baseline == BaselineOf(row, rate, now, asked, t)
    ensures SpikeOf(row, rate, now, asked, t) ==
            if IsSpike(recent, baseline, t) then [Spike(row.fingerprint, recent, baseline)] else []
  {
    assert MergedSpike(row, rate, now, asked, t) == Spike(row.fingerprint, recent, baseline);
  }

  /** A candidate is reported, with its merged counts, exactly when they reach the floor and the ratio. */
  lemma ReportedExactly(
    rows: seq<EnvelopeRow>, i: nat, rate: Rate, now: real, asked: seq<Asked>, t: Thresholds)
    requires |asked| == |rows| && i < |rows| && DistinctFingerprints(rows)
    ensures var (recent, baseline) := (RecentOf(rows[i], rate, now, asked[i], t), BaselineOf(rows[i], rate, now, asked[i], t));
            && (Reportable(recent, baseline, t) <==>
                  Spike(rows[i].fingerprint, recent, baseline) in Spikes(rows, rate, now, asked, t))
            && (forall s :: s in Spikes(rows, rate, now, asked, t) && s.fingerprint == rows[i].fingerprint ==>
                  s == Spike(rows[i].fingerprint, recent, baseline))
  {
    var parts := Contributions(rows, rate, now, asked, t);
    var (recent, baseline) := (RecentOf(rows[i], rate, now, asked[i], t), BaselineOf(rows[i], rate, now, asked[i], t));
    ContributesExactly(rows[i], rate, now, asked[i], t);
    if Reportable(recent, baseline, t) {
      SelectMembers(parts, (part: seq<Spike>) => part, Spike(rows[i].fingerprint, recent, baseline));
      assert parts[i] in parts && Spike(rows[i].fingerprint, recent, baseline) in parts[i];
    }
    forall s | s in Spikes(rows, rate, now, asked, t) && s.fingerprint == rows[i].fingerprint
      ensures s == Spike(rows[i].fingerprint, recent, baseline) && Reportable(recent, baseline, t)
    {
      var own := SpikesHaveRows(rows, rate, now, asked, t, s);
      assert own == i;
    }
  }

  /** Scans no denser in the window than in the rest of the baseline. */
  predicate SteadyTraffic(recent: int, baseline: int, t: Thresholds) {
    && 0 < t.windowSeconds < t.baselineSeconds && baseline > recent
    && recent * (t.baselineSeconds - t.windowSeconds) <= (baseline - recent) * t.windowSeconds
  }

  lemma SteadyIsNotReportable(recent: int, baseline: int, t: Thresholds)
    requires SteadyTraffic(recent, baseline, t) && t.ratio > 1.0
    ensures !Reportable(recent, baseline, t)
  {
    var traffic := (baseline - recent) * t.windowSeconds;
    var remaining := t.baselineSeconds - t.windowSeconds;
    assert traffic > 0 by {
      PositiveProduct(baseline - recent, t.windowSeconds);
    }
    assert recent as real * remaining as real == (recent * remaining) as real;
    StrictlyScaled(1.0, t.ratio, traffic as real);
  }

  lemma PositiveProduct(a: int, b: int)
    requires a > 0 && b > 0
    ensures a * b > 0
  {
  }

  /** An envelope at its usual rate, or below it, is never listed under a ratio above one. */
  lemma SteadyTrafficIsNotListed(
    rows: seq<EnvelopeRow>, i: nat, rate: Rate, now: real, asked: seq<Asked>, t: Thresholds, limit: nat)
    requires |asked| == |rows| && i < |rows| && DistinctFingerprints(rows) && t.ratio > 1.0
    requires SteadyTraffic(
               RecentOf(rows[i], rate, now, asked[i], t), BaselineOf(rows[i], rate, now, asked[i], t), t)
    ensures forall s :: s in Taken(SortByRecent(Spikes(rows, rate, now, asked, t)), limit) ==>
              s.fingerprint != rows[i].fingerprint
  {
    var spikes := Spikes(rows, rate, now, asked, t);
    SortSorts(spikes);
    SameMembers(SortByRecent(spikes), spikes);
    ReportedExactly(rows, i, rate, now, asked, t);
    SteadyIsNotReportable(RecentOf(rows[i], rate, now, asked[i], t), BaselineOf(rows[i], rate, now, asked[i], t), t);
    forall s | s in Taken(SortByRecent(spikes), limit) ensures s in spikes {
      assert s in SortByRecent(spikes);
    }
  }

  // ----- A listed spike stays listed -----

  /** Where the stable insertion puts a spike. */
  function InsertAt(sorted: seq<Spike>, spike: Spike): (at: nat)
    ensures at <= |sorted|
  {
    if sorted != [] && sorted[|sorted| - 1].recent < spike.recent then InsertAt(sorted[..|sorted| - 1], spike) else |sorted|
  }

  lemma {:induction false} InsertSplits(sorted: seq<Spike>, spike: Spike)
    ensures Insert(sorted, spike) == sorted[..InsertAt(sorted, spike)] + [spike] + sorted[InsertAt(sorted, spike)..]
    decreases |sorted|
  {
    if sorted != [] && sorted[|sorted| - 1].recent < spike.recent {
      InsertSplits(sorted[..|sorted| - 1], spike);
    }
  }

  /** In a descending list the insertion comes after exactly the spikes that are at least as large. */
  lemma {:induction false} InsertAtExactly(sorted: seq<Spike>, spike: Spike)
    requires Descending(sorted)
    ensures forall i :: 0 <= i < |sorted| ==> (i < InsertAt(sorted, spike) <==> sorted[i].recent >= spike.recent)
    decreases |sorted|
  {
    if sorted != [] && sorted[|sorted| - 1].recent < spike.recent {
      InsertAtExactly(sorted[..|sorted| - 1], spike);
    }
  }

  lemma {:induction false} LargerComesEarlier(sorted: seq<Spike>, spike: Spike, larger: Spike)
    requires spike.recent <= larger.recent
    ensures InsertAt(sorted, larger) <= InsertAt(sorted, spike)
    decreases |sorted|
  {
    if sorted != [] && sorted[|sorted| - 1].recent < spike.recent {
      LargerComesEarlier(sorted[..|sorted| - 1], spike, larger);
    }
  }

  /** The spike is in that place of the list. */
  predicate Placed(sorted: seq<Spike>, at: nat, spike: Spike) {
    at < |sorted| && sorted[at] == spike
  }

  lemma InsertedPlaced(sorted: seq<Spike>, spike: Spike)
    ensures Placed(Insert(sorted, spike), InsertAt(sorted, spike), spike)
  {
    InsertSplits(sorted, spike);
  }

  /** An insertion moves what it comes before, and only that, one place on. */
  lemma EarlierPlaced(sorted: seq<Spike>, last: Spike, at: nat, x: Spike)
    requires Descending(sorted) && Placed(sorted, at, x)
    ensures Placed(Insert(sorted, last), if last.recent > x.recent then at + 1 else at, x)
  {
    InsertSplits(sorted, last);
    InsertAtExactly(sorted, last);
  }

  lemma SortAppend(front: seq<Spike>, last: Spike)
    ensures SortByRecent(front + [last]) == Insert(SortByRecent(front), last)
  {
    assert (front + [last])[..|front|] == front;
  }

  /** Raising one spike does not push it back. */
  lemma {:induction false} RaisedComesNoLater(front: seq<Spike>, spike: Spike, raised: Spike, rest: seq<Spike>)
    returns (at: nat, at': nat)
    requires spike.recent <= raised.recent
    ensures at' <= at
    ensures Placed(SortByRecent(front + [spike] + rest), at, spike)
    ensures Placed(SortByRecent(front + [raised] + rest), at', raised)
    decreases |rest|
  {
    if rest == [] {
      assert front + [spike] + rest == front + [spike] && front + [raised] + rest == front + [raised];
      SortAppend(front, spike);
      SortAppend(front, raised);
      at, at' := InsertAt(SortByRecent(front), spike), InsertAt(SortByRecent(front), raised);
      InsertedPlaced(SortByRecent(front), spike);
      InsertedPlaced(SortByRecent(front), raised);
      LargerComesEarlier(SortByRecent(front), spike, raised);
    } else {
      var n := |rest| - 1;
      var (init, last) := (rest[..n], rest[n]);
      var (before, after) := (front + [spike] + init, front + [raised] + init);
      assert front + [spike] + rest == before + [last] && front + [raised] + rest == after + [last];
      at, at' := RaisedComesNoLater(front, spike, raised, init);
      SortSorts(before);
      SortSorts(after);
      SortAppend(before, last);
      SortAppend(after, last);
      EarlierPlaced(SortByRecent(before), last, at, spike);
      EarlierPlaced(SortByRecent(after), last, at', raised);
      at, at' := if last.recent > spike.recent then at + 1 else at, if last.recent > raised.recent then at' + 1 else at';
    }
  }

  predicate DistinctFingerprints(rows: seq<EnvelopeRow>) {
    forall i, j :: 0 <= i < j < |rows| ==> rows[i].fingerprint != rows[j].fingerprint
  }

  lemma OneContribution(row: EnvelopeRow, rate: Rate, now: real, asked: Asked, t: Thresholds)
    ensures |SpikeOf(row, rate, now, asked, t)| <= 1
    ensures SpikeOf(row, rate, now, asked, t) != [] ==>
              SpikeOf(row, rate, now, asked, t) == [MergedSpike(row, rate, now, asked, t)]
    ensures MergedSpike(row, rate, now, asked, t).fingerprint == row.fingerprint
  {
  }

  lemma SpikesHaveRows(rows: seq<EnvelopeRow>, rate: Rate, now: real, asked: seq<Asked>, t: Thresholds, s: Spike)
    returns (i: nat)
    requires |asked| == |rows| && s in Spikes(rows, rate, now, asked, t)
    ensures i < |rows| && SpikeOf(rows[i], rate, now, asked[i], t) == [s] && rows[i].fingerprint == s.fingerprint
  {
    var parts := Contributions(rows, rate, now, asked, t);
    SelectMembers(parts, (part: seq<Spike>) => part, s);
    var part :| part in parts && s in part;
    i :| i < |parts| && parts[i] == part;
    OneContribution(rows[i], rate, now, asked[i], t);
  }

  lemma SpikesAreDistinct(rows: seq<EnvelopeRow>, rate: Rate, now: real, asked: seq<Asked>, t: Thresholds)
    requires |asked| == |rows| && DistinctFingerprints(rows)
    ensures DistinctBy(Spikes(rows, rate, now, asked, t), (s: Spike) => s.fingerprint)
  {
    var parts: seq<seq<Spike>> := Contributions(rows, rate, now, asked, t);
    forall i: nat | i < |rows|
      ensures |parts[i]| <= 1 && (parts[i] != [] ==> parts[i][0].fingerprint == rows[i].fingerprint)
    {
      OneContribution(rows[i], rate, now, asked[i], t);
    }
    SelectDistinct(parts, (part: seq<Spike>) => part, (s: Spike) => s.fingerprint);
  }

  /** A spike has one place in the sorted list. */
  lemma OnlyPlace(spikes: seq<Spike>, spike: Spike, p: nat, q: nat)
    requires DistinctBy(spikes, (s: Spike) => s.fingerprint)
    requires Placed(SortByRecent(spikes), p, spike) && Placed(SortByRecent(spikes), q, spike)
    ensures p == q
  {
    SortSorts(spikes);
    DistinctInAnyOrder(spikes, SortByRecent(spikes), (s: Spike) => s.fingerprint);
  }

  lemma TakenPlace(sorted: seq<Spike>, limit: nat, spike: Spike) returns (at: nat)
    requires spike in Taken(sorted, limit)
    ensures Placed(sorted, at, spike) && at < limit
  {
    var listed := Taken(sorted, limit);
    at :| at < |listed| && listed[at] == spike;
  }

  lemma PlacedIsTaken(sorted: seq<Spike>, limit: nat, at: nat, spike: Spike)
    requires Placed(sorted, at, spike) && at < limit
    ensures spike in Taken(sorted, limit)
  {
    assert Taken(sorted, limit)[at] == spike;
  }

  /** A listed spike that is raised where it stands stays listed. */
  lemma RaisedStaysListed(spikes: seq<Spike>, k: nat, raised: Spike, limit: nat)
    requires DistinctBy(spikes, (s: Spike) => s.fingerprint) && k < |spikes|
    requires spikes[k] in Taken(SortByRecent(spikes), limit) && spikes[k].recent <= raised.recent
    ensures raised in Taken(SortByRecent(spikes[k := raised]), limit)
  {
    var (front, rest) := (spikes[..k], spikes[k + 1..]);
    assert spikes == front + [spikes[k]] + rest && spikes[k := raised] == front + [raised] + rest;
    var q := TakenPlace(SortByRecent(spikes), limit, spikes[k]);
    var at, at' := RaisedComesNoLater(front, spikes[k], raised, rest);
    OnlyPlace(spikes, spikes[k], at, q);
    PlacedIsTaken(SortByRecent(spikes[k := raised]), limit, at', raised);
  }

  /** A listed envelope's own row contributes its spike. */
  lemma ListedContributes(
    rows: seq<EnvelopeRow>, i: nat, rate: Rate, now: real, asked: seq<Asked>, t: Thresholds, limit: nat)
    requires |asked| == |rows| && i < |rows| && DistinctFingerprints(rows)
    requires MergedSpike(rows[i], rate, now, asked[i], t) in Taken(SortByRecent(Spikes(rows, rate, now, asked, t)), limit)
    ensures SpikeOf(rows[i], rate, now, asked[i], t) == [MergedSpike(rows[i], rate, now, asked[i], t)]
  {
    var (spikes, spike) := (Spikes(rows, rate, now, asked, t), MergedSpike(rows[i], rate, now, asked[i], t));
    SortSorts(spikes);
    SameMembers(SortByRecent(spikes), spikes);
    assert spike in spikes;
    var own := SpikesHaveRows(rows, rate, now, asked, t, spike);
    assert own == i;
  }

  /** Only the counts of the scan's own envelope move, by one. */
  predicate OneEnvelopeMoves(
    rows: seq<EnvelopeRow>, scan: Scan, rate: Rate, rate': Rate, now: real, asked: seq<Asked>, t: Thresholds)
    requires |asked| == |rows|
  {
    forall j :: 0 <= j < |rows| ==>
      CountsMove(rate, rate', rows[j].fingerprint, StepOf(scan, rows[j].fingerprint), now, asked[j], t)
  }

  lemma ContributionsMove(
    rows: seq<EnvelopeRow>, i: nat, scan: Scan, rate: Rate, rate': Rate, now: real, asked: seq<Asked>, t: Thresholds)
    requires |asked| == |rows| && i < |rows| && DistinctFingerprints(rows) && rows[i].fingerprint == scan.fingerprint
    requires OneEnvelopeMoves(rows, scan, rate, rate', now, asked, t)
    requires SpikeOf(rows[i], rate, now, asked[i], t) != []
    ensures var own := MergedSpike(rows[i], rate, now, asked[i], t);
            Contributions(rows, rate', now, asked, t) ==
            Contributions(rows, rate, now, asked, t)[i := [Spike(own.fingerprint, own.recent + 1, own.baseline + 1)]]
  {
    forall j | 0 <= j < |rows| && j != i
      ensures SpikeOf(rows[j], rate', now, asked[j], t) == SpikeOf(rows[j], rate, now, asked[j], t)
    {
      assert StepOf(scan, rows[j].fingerprint) == 0;
      MergedCountsFollow(rows[j], rate, rate', 0, now, asked[j], t);
    }
    assert StepOf(scan, rows[i].fingerprint) == 1;
    MovedSpike(rows[i], rate, rate', 1, now, asked[i], t);
  }

  lemma MovedStaysListed(
    rows: seq<EnvelopeRow>, i: nat, scan: Scan, rate: Rate, rate': Rate, now: real, asked: seq<Asked>, t: Thresholds, limit: nat)
    requires |asked| == |rows| && i < |rows| && DistinctFingerprints(rows) && rows[i].fingerprint == scan.fingerprint
    requires OneEnvelopeMoves(rows, scan, rate, rate', now, asked, t)
    requires MergedSpike(rows[i], rate, now, asked[i], t) in Taken(SortByRecent(Spikes(rows, rate, now, asked, t)), limit)
    ensures var before := MergedSpike(rows[i], rate, now, asked[i], t);
            Spike(before.fingerprint, before.recent + 1, before.baseline + 1)
            in Taken(SortByRecent(Spikes(rows, rate', now, asked, t)), limit)
  {
    var (spikes, before) := (Spikes(rows, rate, now, asked, t), MergedSpike(rows[i], rate, now, asked[i], t));
    var after := Spike(before.fingerprint, before.recent + 1, before.baseline + 1);
    ListedContributes(rows, i, rate, now, asked, t, limit);
    ContributionsMove(rows, i, scan, rate, rate', now, asked, t);
    SpikesAreDistinct(rows, rate, now, asked, t);
    var k := FlatReplaced(Contributions(rows, rate, now, asked, t), i, after);
    assert Spikes(rows, rate', now, asked, t) == spikes[k := after];
    RaisedStaysListed(spikes, k, after, limit);
  }

  /**
   * End to end, truncation included: a further cached scan of a listed envelope inside the trailing window
   * keeps it listed, with both counts one higher, whatever the other candidates are.
   */
  lemma ListedSpikeStaysListed(
    rows: seq<EnvelopeRow>, i: nat, scans: seq<Scan>, retained: real, now: real, asked: seq<Asked>, t: Thresholds, limit: nat)
    requires |asked| == |rows| && i < |rows| && DistinctFingerprints(rows)
    requires ScannedInWindow(scans, now, t) && rows[i].fingerprint == Latest(scans).fingerprint
    requires forall j :: 0 <= j < |rows| ==>
               Retained(scans, rows[j].fingerprint, retained) && ReadInTime(asked[j], now, retained, t)
    requires MergedSpike(rows[i], Run(Earlier(scans)).rate, now, asked[i], t)
             in Taken(SortByRecent(Spikes(rows, Run(Earlier(scans)).rate, now, asked, t)), limit)
    ensures var before := MergedSpike(rows[i], Run(Earlier(scans)).rate, now, asked[i], t);
            Spike(before.fingerprint, before.recent + 1, before.baseline + 1)
            in Taken(SortByRecent(Spikes(rows, Run(scans).rate, now, asked, t)), limit)
  {
    EveryCountMoves(rows, scans, retained, now, asked, t);
    MovedStaysListed(rows, i, Latest(scans), Run(Earlier(scans)).rate, Run(scans).rate, now, asked, t, limit);
  }

  lemma EveryCountMoves(
    rows: seq<EnvelopeRow>, scans: seq<Scan>, retained: real, now: real, asked: seq<Asked>, t: Thresholds)
    requires |asked| == |rows| && ScannedInWindow(scans, now, t)
    requires forall j :: 0 <= j < |rows| ==>
               Retained(scans, rows[j].fingerprint, retained) && ReadInTime(asked[j], now, retained, t)
    ensures OneEnvelopeMoves(rows, Latest(scans), Run(Earlier(scans)).rate, Run(scans).rate, now, asked, t)
  {
    forall j | 0 <= j < |rows|
      ensures CountsMove(Run(Earlier(scans)).rate, Run(scans).rate, rows[j].fingerprint,
                         StepOf(Latest(scans), rows[j].fingerprint), now, asked[j], t)
    {
      ScanMovesCounts(scans, rows[j].fingerprint, retained, now, asked[j], t);
    }
  }
}
