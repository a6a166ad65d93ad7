/**
 * The request rate limiter: a sliding window per key in process memory, and a
 * fixed window per key shared through Redis that falls back to it on any failure.
 */
module RateLimiter {
  import opened Wrappers
  import opened Counting

  datatype Decision = Decision(allowed: bool, retryAfterSeconds: Option<int>)

  const ADMITTED := Decision(true, None)

  function Denied(retryAfterSeconds: int): Decision {
    Decision(false, Some(retryAfterSeconds))
  }

  function Ceil(x: real): int {
    -((-x).Floor)
  }

  // ----- The sliding window -----

  /** The stamps left once the expired ones are popped from the head. */
  function Live(bucket: seq<real>, cutoff: real): seq<real> {
    if bucket != [] && bucket[0] <= cutoff then Live(bucket[1..], cutoff) else bucket
  }

  datatype Checked = Checked(bucket: seq<real>, decision: Decision)

  function CheckBucket(bucket: seq<real>, limit: int, window: int, now: real): Checked {
    var live := Live(bucket, now - window as real);
    if limit <= 0 then Checked(bucket, Denied(window))
    else if |live| >= limit then
      var retry := Ceil(window as real - (now - live[0]));
      Checked(live, Denied(if retry < 1 then 1 else retry))
    else Checked(live + [now], ADMITTED)
  }

  function UsedAfter(bucket: seq<real>, cutoff: real): nat {
    Count(bucket, (stamp: real) => stamp > cutoff)
  }

  function RemainingIn(bucket: seq<real>, limit: int, window: int, now: real): int {
    var left := limit - UsedAfter(bucket, now - window as real);
    if left < 0 then 0 else left
  }

  function BucketOf(records: map<string, seq<real>>, key: string): seq<real> {
    if key in records then records[key] else []
  }

  class InMemoryRequestRateLimiter {
    var records: map<string, seq<real>>

    constructor ()
      ensures records == map[]
    {
      records := map[];
    }

    /** `now` is the monotonic clock, read before the lock; the lock is first come, first served. */
    method Check(key: string, limit: int, window: int, now: real) returns (decision: Decision)
      modifies this
      ensures var checked := CheckBucket(BucketOf(old(records), key), limit, window, now);
              && decision == checked.decision
              && records == if limit <= 0 then old(records) else old(records)[key := checked.bucket]
    {
      if limit <= 0 {
        return Denied(window);
      }
      var cutoff := now - window as real;
      var bucket := BucketOf(records, key);
      while bucket != [] && bucket[0] <= cutoff
        invariant Live(bucket, cutoff) == Live(BucketOf(old(records), key), cutoff)
        decreases |bucket|
      {
        bucket := bucket[1..];
      }
      if |bucket| >= limit {
        records := records[key := bucket];
        var retryAfter := Ceil(window as real - (now - bucket[0]));
        if retryAfter < 1 {
          retryAfter := 1;
        }
        return Denied(retryAfter);
      }
      records := records[key := bucket + [now]];
      return ADMITTED;
    }

    method Remaining(key: string, limit: int, window: int, now: real) returns (remaining: int)
      ensures remaining == RemainingIn(BucketOf(records, key), limit, window, now)
    {
      var cutoff := now - window as real;
      var bucket := BucketOf(records, key);
      var used := 0;
      for i := 0 to |bucket|
        invariant used == UsedAfter(bucket[..i], cutoff)
      {
        assert bucket[..i + 1] == bucket[..i] + [bucket[i]];
        CountAppend(bucket[..i], bucket[i], (stamp: real) => stamp > cutoff);
        if bucket[i] > cutoff {
          used := used + 1;
        }
      }
      assert bucket[..|bucket|] == bucket;
      remaining := if limit - used < 0 then 0 else limit - used;
    }
  }

  // ----- One check -----

  predicate Sorted(times: seq<real>) {
    forall i, j :: 0 <= i <= j < |times| ==> times[i] <= times[j]
  }

  /** Popping drops a prefix: everything dropped has expired, nothing kept has. */
  lemma {:induction false} LiveSplits(bucket: seq<real>, cutoff: real) returns (k: nat)
    requires Sorted(bucket)
    ensures k <= |bucket| && Live(bucket, cutoff) == bucket[k..]
    ensures forall i :: 0 <= i < k ==> bucket[i] <= cutoff
    ensures forall i :: k <= i < |bucket| ==> bucket[i] > cutoff
  {
    if bucket != [] && bucket[0] <= cutoff {
      var j := LiveSplits(bucket[1..], cutoff);
      k := j + 1;
      assert forall i :: 1 <= i < |bucket| ==> bucket[i] == bucket[1..][i - 1];
    } else {
      k := 0;
    }
  }

  lemma LiveIsUsed(bucket: seq<real>, cutoff: real)
    requires Sorted(bucket)
    ensures |Live(bucket, cutoff)| == UsedAfter(bucket, cutoff)
  {
    var k := LiveSplits(bucket, cutoff);
    CountTail(bucket, k, (stamp: real) => stamp > cutoff);
  }

  /** `remaining` is positive exactly when a check at that instant admits, and admission spends one. */
  lemma RemainingPredictsCheck(bucket: seq<real>, limit: int, window: int, now: real)
    requires Sorted(bucket) && (forall i :: 0 <= i < |bucket| ==> bucket[i] <= now)
    ensures var checked := CheckBucket(bucket, limit, window, now);
            var before := RemainingIn(bucket, limit, window, now);
            var after := RemainingIn(checked.bucket, limit, window, now);
            && (before > 0 <==> checked.decision == ADMITTED)
            && (checked.decision == ADMITTED ==> after == before - if window > 0 then 1 else 0)
            && (checked.decision != ADMITTED ==> after == before == 0)
  {
    var cutoff := now - window as real;
    LiveIsUsed(bucket, cutoff);
    var k := LiveSplits(bucket, cutoff);
    var live := Live(bucket, cutoff);
    CountAll(live, (stamp: real) => stamp > cutoff);
    CountAppend(live, now, (stamp: real) => stamp > cutoff);
  }

  /** The least whole number of seconds, and at least one, that is no less than `left`. */
  predicate WaitsFor(wait: int, left: real) {
    wait >= 1 && wait as real >= left && (wait == 1 || (wait - 1) as real < left)
  }

  lemma RoundedUp(x: real)
    ensures x <= Ceil(x) as real < x + 1.0
  {
  }

  /**
   * The answer to one check. Without a positive limit every request is denied for a whole window; otherwise it is
   * admitted exactly when fewer stamps than the limit are younger than the window, and a denial waits, rounded up
   * to at least one second, for the oldest of them to reach the window's length.
   */
  lemma CheckAnswersExactly(bucket: seq<real>, limit: int, window: int, now: real)
    requires Sorted(bucket)
    ensures var checked := CheckBucket(bucket, limit, window, now);
            var (d, young) := (checked.decision, UsedAfter(bucket, now - window as real));
            if limit <= 0 then d == Decision(false, Some(window)) && checked.bucket == bucket
            else if young < limit then d == Decision(true, None)
            else
              && d.retryAfterSeconds.Some? && 0 < young <= |bucket| && !d.allowed
              && WaitsFor(d.retryAfterSeconds.value, bucket[|bucket| - young] + window as real - now)
  {
    LiveIsUsed(bucket, now - window as real);
    var k := LiveSplits(bucket, now - window as real);
    if 0 < limit <= UsedAfter(bucket, now - window as real) {
      RoundedUp(window as real - (now - bucket[k]));
    }
  }

  /** A request for the same key after `seconds` without other traffic is admitted. */
  predicate AdmittedAfter(bucket: seq<real>, limit: int, window: int, now: real, seconds: int) {
    CheckBucket(bucket, limit, window, now + seconds as real).decision == ADMITTED
  }

  /** `r` is the least positive whole number of seconds after which the request is admitted. */
  ghost predicate IsLeastWait(bucket: seq<real>, limit: int, window: int, now: real, r: int) {
    r >= 1 && forall seconds: int :: seconds >= 1 ==> (AdmittedAfter(bucket, limit, window, now, seconds) <==> seconds >= r)
  }

  /** The wait until the stamp expires whose expiry brings the bucket under the limit. */
  function WaitFor(stamp: real, window: int, now: real): int {
    Ceil(window as real - (now - stamp))
  }

  lemma LeastWaitIsForTheLimitingStamp(bucket: seq<real>, limit: int, window: int, now: real)
    requires Sorted(bucket) && limit > 0
    requires (forall i :: 0 <= i < |bucket| ==> bucket[i] > now - window as real) && |bucket| >= limit
    ensures IsLeastWait(bucket, limit, window, now, WaitFor(bucket[|bucket| - limit], window, now))
  {
    var stamp := bucket[|bucket| - limit];
    forall seconds: int | seconds >= 1
      ensures AdmittedAfter(bucket, limit, window, now, seconds) <==> seconds >= WaitFor(stamp, window, now)
    {
      var cutoff := now + seconds as real - window as real;
      var k := LiveSplits(bucket, cutoff);
      assert AdmittedAfter(bucket, limit, window, now, seconds) <==> |bucket| - k < limit;
      assert k > |bucket| - limit <==> stamp <= cutoff;
      assert stamp <= cutoff <==> window as real - (now - stamp) <= seconds as real;
    }
  }

  /** The stamp's age at `now` in whole seconds. */
  function WholeAge(stamp: real, now: real): int {
    (now - stamp).Floor
  }

  lemma WaitIsWindowLessAge(stamp: real, window: int, now: real)
    ensures WaitFor(stamp, window, now) == window - WholeAge(stamp, now)
  {
  }

  /**
   * A denial's `retry_after` is the least sufficient wait exactly when the oldest live stamp and the one
   * whose expiry makes room have the same age in whole seconds; they are one stamp when the bucket just
   * fills the limit.
   */
  lemma RetryAfterIsLeastExactly(bucket: seq<real>, limit: int, window: int, now: real)
    requires Sorted(bucket) && (forall i :: 0 <= i < |bucket| ==> bucket[i] <= now)
    requires limit > 0 && CheckBucket(bucket, limit, window, now).decision != ADMITTED
    ensures var checked := CheckBucket(bucket, limit, window, now);
            var live := checked.bucket;
            && |live| >= limit
            && (IsLeastWait(live, limit, window, now, checked.decision.retryAfterSeconds.value) <==>
                  WholeAge(live[0], now) == WholeAge(live[|live| - limit], now))
            && (|live| == limit ==>
                  IsLeastWait(live, limit, window, now, checked.decision.retryAfterSeconds.value))
  {
    var k := LiveSplits(bucket, now - window as real);
    var live := Live(bucket, now - window as real);
    LeastWaitIsForTheLimitingStamp(live, limit, window, now);
    WaitIsWindowLessAge(live[0], window, now);
    WaitIsWindowLessAge(live[|live| - limit], window, now);
    var least := WaitFor(live[|live| - limit], window, now);
    var r := WaitFor(live[0], window, now);
    assert r >= 1;
    if IsLeastWait(live, limit, window, now, r) {
      assert AdmittedAfter(live, limit, window, now, r) && AdmittedAfter(live, limit, window, now, least);
    }
  }

  // ----- Runs of one key whose limit and window may change -----

  datatype TimedCheck = TimedCheck(at: real, limit: int, window: int)

  function BucketAfter(checks: seq<TimedCheck>): seq<real> {
    if checks == [] then []
    else
      var c := checks[|checks| - 1];
      CheckBucket(BucketAfter(checks[..|checks| - 1]), c.limit, c.window, c.at).bucket
  }

  predicate ClockRuns(checks: seq<TimedCheck>) {
    forall i, j :: 0 <= i <= j < |checks| ==> checks[i].at <= checks[j].at
  }

  predicate LimitsUpTo(checks: seq<TimedCheck>, limit: int) {
    forall i :: 0 <= i < |checks| ==> checks[i].limit <= limit
  }

  /** A sorted bucket of past stamps, no larger than the limit. */
  predicate Bounded(bucket: seq<real>, limit: int, last: real) {
    && Sorted(bucket) && (forall i :: 0 <= i < |bucket| ==> bucket[i] <= last)
    && |bucket| <= if limit > 0 then limit else 0
  }

  lemma CheckKeepsBounded(bucket: seq<real>, limit: int, c: TimedCheck, last: real)
    requires Bounded(bucket, limit, last) && last <= c.at && c.limit <= limit
    ensures Bounded(CheckBucket(bucket, c.limit, c.window, c.at).bucket, limit, c.at)
  {
    var k := LiveSplits(bucket, c.at - c.window as real);
  }

  lemma {:induction false} BucketIsBounded(checks: seq<TimedCheck>, limit: int)
    requires ClockRuns(checks) && LimitsUpTo(checks, limit) && checks != []
    ensures Bounded(BucketAfter(checks), limit, checks[|checks| - 1].at)
    decreases |checks|
  {
    var init, c := checks[..|checks| - 1], checks[|checks| - 1];
    if init == [] {
      CheckKeepsBounded([], limit, c, c.at);
    } else {
      BucketIsBounded(init, limit);
      CheckKeepsBounded(BucketAfter(init), limit, c, init[|init| - 1].at);
    }
  }

  /** A bucket no larger than the limit denies only when it just fills it. */
  lemma BoundedDenial(bucket: seq<real>, c: TimedCheck, last: real)
    requires Bounded(bucket, c.limit, last) && last <= c.at && c.limit > 0
    ensures var checked := CheckBucket(bucket, c.limit, c.window, c.at);
            checked.decision != ADMITTED ==>
              IsLeastWait(checked.bucket, c.limit, c.window, c.at, checked.decision.retryAfterSeconds.value)
  {
    var k := LiveSplits(bucket, c.at - c.window as real);
    if CheckBucket(bucket, c.limit, c.window, c.at).decision != ADMITTED {
      RetryAfterIsLeastExactly(bucket, c.limit, c.window, c.at);
    }
  }

  /**
   * Over every run whose limits and windows may change: while no earlier check of the key used a larger
   * limit, every denial names the least sufficient wait.
   */
  lemma GrowingLimitsNameLeastWait(checks: seq<TimedCheck>, c: TimedCheck)
    requires ClockRuns(checks + [c]) && LimitsUpTo(checks, c.limit) && c.limit > 0
    ensures var checked := CheckBucket(BucketAfter(checks), c.limit, c.window, c.at);
            checked.decision != ADMITTED ==>
              IsLeastWait(checked.bucket, c.limit, c.window, c.at, checked.decision.retryAfterSeconds.value)
  {
    var all := checks + [c];
    assert forall i :: 0 <= i < |checks| ==> checks[i] == all[i];
    assert all[|checks|] == c;
    if checks == [] {
      BoundedDenial([], c, c.at);
    } else {
      BucketIsBounded(checks, c.limit);
      BoundedDenial(BucketAfter(checks), c, checks[|checks| - 1].at);
    }
  }

  /** The failing input: after two checks under limit 2, one under limit 1 names a wait that is too short. */
  lemma LoweredLimitUnderstatesWait()
    ensures var bucket := BucketAfter([TimedCheck(0.0, 2, 10), TimedCheck(9.0, 2, 10)]);
            var checked := CheckBucket(bucket, 1, 10, 9.5);
            && checked.decision == Denied(1)
            && !AdmittedAfter(checked.bucket, 1, 10, 9.5, 1)
  {
    var first, second := TimedCheck(0.0, 2, 10), TimedCheck(9.0, 2, 10);
    assert [first, second][..1] == [first] && [first][..0] == [];
    assert BucketAfter([first]) == [0.0];
    assert BucketAfter([first, second]) == [0.0, 9.0];
    assert Live([0.0, 9.0], 9.5 - 10.0) == [0.0, 9.0];
    assert [0.0, 9.0][1..] == [9.0];
    assert Live([0.0, 9.0], 10.5 - 10.0) == [9.0];
  }

  // ----- Runs of one key with a fixed limit and window -----

  datatype Window = Window(bucket: seq<real>, admitted: seq<real>)

  function AfterCheck(before: Window, limit: int, window: int, now: real): Window {
    var checked := CheckBucket(before.bucket, limit, window, now);
    Window(checked.bucket, before.admitted + if checked.decision == ADMITTED then [now] else [])
  }

  /** The bucket after checks at these times, and the times of those that were admitted. */
  function RunChecks(times: seq<real>, limit: int, window: int): Window {
    if times == [] then Window([], [])
    else AfterCheck(RunChecks(times[..|times| - 1], limit, window), limit, window, times[|times| - 1])
  }

  /** Admission `k + limit` comes a whole window after admission `k`. */
  predicate Spaced(admitted: seq<real>, limit: int, window: int) {
    limit > 0 ==> forall k :: 0 <= k && k + limit < |admitted| ==> admitted[k] + window as real <= admitted[k + limit]
  }

  /** The bucket is the admissions log without a prefix that expired by the last check. */
  predicate Remembers(w: Window, limit: int, window: int, last: real) {
    && Sorted(w.admitted) && Spaced(w.admitted, limit, window)
    && (forall i :: 0 <= i < |w.admitted| ==> w.admitted[i] <= last)
    && |w.bucket| <= |w.admitted| && w.bucket == w.admitted[|w.admitted| - |w.bucket|..]
    && (forall i :: 0 <= i < |w.admitted| - |w.bucket| ==> w.admitted[i] <= last - window as real)
    && (limit > 0 ==> |w.bucket| <= limit)
    && (limit <= 0 ==> w.admitted == [])
  }

  lemma SuffixSorted(w: Window)
    requires Sorted(w.admitted) && |w.bucket| <= |w.admitted| && w.bucket == w.admitted[|w.admitted| - |w.bucket|..]
    ensures Sorted(w.bucket) && forall i :: 0 <= i < |w.bucket| ==> w.bucket[i] == w.admitted[|w.admitted| - |w.bucket| + i]
  {
  }

  lemma SliceOfSlice(s: seq<real>, b: nat, k: nat)
    requires b + k <= |s|
    ensures s[b..][k..] == s[b + k..]
  {
  }

  lemma DropKeepsMemory(w: Window, limit: int, window: int, last: real, now: real)
    requires Remembers(w, limit, window, last) && last <= now
    ensures Remembers(Window(Live(w.bucket, now - window as real), w.admitted), limit, window, now)
  {
    SuffixSorted(w);
    var k := LiveSplits(w.bucket, now - window as real);
    SliceOfSlice(w.admitted, |w.admitted| - |w.bucket|, k);
    DroppedHaveExpired(w, limit, window, last, now, k);
  }

  lemma DroppedHaveExpired(w: Window, limit: int, window: int, last: real, now: real, k: nat)
    requires Remembers(w, limit, window, last) && last <= now && k <= |w.bucket|
    requires forall i :: 0 <= i < k ==> w.bucket[i] <= now - window as real
    ensures forall i :: 0 <= i < |w.admitted| - |w.bucket| + k ==> w.admitted[i] <= now - window as real
  {
    var base := |w.admitted| - |w.bucket|;
    forall i | 0 <= i < base + k ensures w.admitted[i] <= now - window as real {
      if i >= base {
        assert w.admitted[i] == w.bucket[i - base];
      }
    }
  }

  /** With fewer than `limit` live admissions, the one `limit` back expired a window ago. */
  lemma AppendSpaced(admitted: seq<real>, live: nat, limit: int, window: int, now: real)
    requires Spaced(admitted, limit, window) && live < limit && live <= |admitted|
    requires forall i :: 0 <= i < |admitted| - live ==> admitted[i] <= now - window as real
    ensures Spaced(admitted + [now], limit, window)
  {
    var log := admitted + [now];
    forall k | 0 <= k && k + limit < |log| ensures log[k] + window as real <= log[k + limit] {
      if k + limit == |admitted| {
        assert k < |admitted| - live && log[k] == admitted[k];
      } else {
        assert log[k] == admitted[k] && log[k + limit] == admitted[k + limit];
      }
    }
  }

  lemma AppendKeepsMemory(w: Window, limit: int, window: int, now: real)
    requires Remembers(w, limit, window, now) && |w.bucket| < limit
    ensures Remembers(Window(w.bucket + [now], w.admitted + [now]), limit, window, now)
  {
    var log := w.admitted + [now];
    assert w.bucket + [now] == log[|w.admitted| - |w.bucket|..];
    AppendSpaced(w.admitted, |w.bucket|, limit, window, now);
  }

  lemma CheckKeepsMemory(w: Window, limit: int, window: int, last: real, now: real)
    requires Remembers(w, limit, window, last) && last <= now
    ensures Remembers(AfterCheck(w, limit, window, now), limit, window, now)
  {
    DropKeepsMemory(w, limit, window, last, now);
    var live := Live(w.bucket, now - window as real);
    if limit > |live| {
      AppendKeepsMemory(Window(live, w.admitted), limit, window, now);
    }
    assert w.admitted + [] == w.admitted;
  }

  lemma {:induction false} RunRemembers(times: seq<real>, limit: int, window: int)
    requires Sorted(times) && times != []
    ensures Remembers(RunChecks(times, limit, window), limit, window, times[|times| - 1])
  {
    var init, now := times[..|times| - 1], times[|times| - 1];
    if init == [] {
      CheckKeepsMemory(Window([], []), limit, window, now, now);
    } else {
      RunRemembers(init, limit, window);
      CheckKeepsMemory(RunChecks(init, limit, window), limit, window, init[|init| - 1], now);
    }
  }

  predicate Within(t: real, from: real, upTo: real) {
    from <= t < upTo
  }

  predicate WithinLate(t: real, from: real, upTo: real) {
    from < t <= upTo
  }

  /** Spaced admissions never crowd an interval, closed at either end. */
  lemma {:induction false} SpacedIsSafe(admitted: seq<real>, limit: int, window: int, from: real)
    requires Sorted(admitted) && Spaced(admitted, limit, window) && limit > 0
    ensures Count(admitted, (t: real) => Within(t, from, from + window as real)) <= limit
    ensures Count(admitted, (t: real) => WithinLate(t, from, from + window as real)) <= limit
  {
    if admitted != [] {
      SpacedIsSafe(admitted[..|admitted| - 1], limit, window, from);
      CrowdIsRecent(admitted, limit, window, from, (t: real) => Within(t, from, from + window as real));
      CrowdIsRecent(admitted, limit, window, from, (t: real) => WithinLate(t, from, from + window as real));
    }
  }

  lemma TooFarApart(s: real, t: real, window: int, p: real -> bool)
    requires p(t) && s + window as real <= t
    requires forall a, b :: p(a) && p(b) ==> b < a + window as real
    ensures !p(s)
  {
  }

  /** When the last admission falls in the interval, only the last `limit` can. */
  lemma CrowdIsRecent(admitted: seq<real>, limit: int, window: int, from: real, p: real -> bool)
    requires Sorted(admitted) && Spaced(admitted, limit, window) && limit > 0 && admitted != []
    requires forall s, t :: p(s) && p(t) ==> t < s + window as real
    requires forall s, t, u :: p(s) && p(u) && s <= t <= u ==> p(t)
    ensures p(admitted[|admitted| - 1]) ==> Count(admitted, p) <= limit
  {
    var n := |admitted|;
    if p(admitted[n - 1]) && n > limit {
      var early, late := admitted[..n - limit], admitted[n - limit..];
      assert admitted == early + late;
      CountConcat(early, late, p);
      assert admitted[n - 1 - limit] + window as real <= admitted[n - 1];
      forall i | 0 <= i < |early| ensures !p(early[i]) {
        assert early[i] == admitted[i] <= admitted[n - 1 - limit];
        TooFarApart(early[i], admitted[n - 1], window, p);
      }
      CountNone(early, p);
      CountAtMostLength(late, p);
    } else {
      CountAtMostLength(admitted, p);
    }
  }

  /** Over every run, no half-open interval of window length holds more admissions than the limit. */
  lemma SlidingWindowIsSafe(times: seq<real>, limit: int, window: int, from: real)
    requires Sorted(times)
    ensures var admitted := RunChecks(times, limit, window).admitted;
            && Count(admitted, (t: real) => Within(t, from, from + window as real)) <= (if limit > 0 then limit else 0)
            && Count(admitted, (t: real) => WithinLate(t, from, from + window as real)) <= (if limit > 0 then limit else 0)
  {
    var admitted := RunChecks(times, limit, window).admitted;
    if times != [] {
      RunRemembers(times, limit, window);
      if limit > 0 {
        SpacedIsSafe(admitted, limit, window, from);
      }
    }
  }

  /** Once the expired stamps are dropped, the bucket counts the trailing window. */
  lemma TrailingCount(w: Window, limit: int, window: int, now: real)
    requires Remembers(w, limit, window, now)
    requires forall i :: 0 <= i < |w.bucket| ==> w.bucket[i] > now - window as real
    ensures Count(w.admitted, (t: real) => WithinLate(t, now - window as real, now)) == |w.bucket|
  {
    var dropped := |w.admitted| - |w.bucket|;
    var p := (t: real) => WithinLate(t, now - window as real, now);
    assert w.admitted == w.admitted[..dropped] + w.bucket;
    forall i | 0 <= i < |w.bucket| ensures p(w.bucket[i]) {
      assert w.bucket[i] == w.admitted[dropped + i];
    }
    CountConcat(w.admitted[..dropped], w.bucket, p);
    CountNone(w.admitted[..dropped], p);
    CountAll(w.bucket, p);
  }

  /** What a remembered bucket looks like to the next check. */
  lemma RememberedBucket(w: Window, limit: int, window: int, last: real, now: real)
    requires Remembers(w, limit, window, last) && last <= now
    ensures Sorted(w.bucket) && forall i :: 0 <= i < |w.bucket| ==> w.bucket[i] <= now
    ensures var live := Live(w.bucket, now - window as real);
            && (limit > 0 ==> |live| <= limit)
            && |live| == Count(w.admitted, (t: real) => WithinLate(t, now - window as real, now))
  {
    DropKeepsMemory(w, limit, window, last, now);
    SuffixSorted(w);
    var k := LiveSplits(w.bucket, now - window as real);
    TrailingCount(Window(Live(w.bucket, now - window as real), w.admitted), limit, window, now);
  }

  lemma RememberedDenial(w: Window, limit: int, window: int, last: real, now: real)
    requires Remembers(w, limit, window, last) && last <= now && limit > 0
    ensures var checked := CheckBucket(w.bucket, limit, window, now);
            && (checked.decision != ADMITTED <==>
                  Count(w.admitted, (t: real) => WithinLate(t, now - window as real, now)) == limit)
            && (checked.decision != ADMITTED ==>
                  IsLeastWait(checked.bucket, limit, window, now, checked.decision.retryAfterSeconds.value))
  {
    RememberedBucket(w, limit, window, last, now);
    if CheckBucket(w.bucket, limit, window, now).decision != ADMITTED {
      RetryAfterIsLeastExactly(w.bucket, limit, window, now);
    }
  }

  /**
   * After every run, the next request is denied exactly when `limit` admissions already lie in its
   * trailing window, and the wait a denial names is the least whole number of seconds that suffices.
   */
  lemma DeniedExactlyWhenFull(times: seq<real>, limit: int, window: int, now: real)
    requires Sorted(times + [now]) && limit > 0
    ensures var before := RunChecks(times, limit, window);
            var checked := CheckBucket(before.bucket, limit, window, now);
            && (checked.decision != ADMITTED <==>
                  Count(before.admitted, (t: real) => WithinLate(t, now - window as real, now)) == limit)
            && (checked.decision != ADMITTED ==>
                  IsLeastWait(checked.bucket, limit, window, now, checked.decision.retryAfterSeconds.value))
  {
    var before := RunChecks(times, limit, window);
    if times == [] {
      RememberedDenial(before, limit, window, now, now);
    } else {
      assert forall i :: 0 <= i < |times| ==> times[i] == (times + [now])[i];
      assert (times + [now])[|times|] == now;
      RunRemembers(times, limit, window);
      RememberedDenial(before, limit, window, times[|times| - 1], now);
    }
  }
}
