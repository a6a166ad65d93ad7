/**
 * The shared limiter: one Redis counter per key and clock window, with the in-memory
 * limiter behind it whenever Redis is absent or fails, at whatever point of the call.
 */
module SharedRateLimiter {
  import opened Wrappers
  import opened Counting
  import opened RateLimiter

  // ----- Redis, as a table of counters that may expire -----

  datatype Counter = Counter(count: int, expiresAt: Option<real>)

  type Counters = map<(string, int), Counter>

  predicate Holds(counters: Counters, k: (string, int), at: real) {
    k in counters && (counters[k].expiresAt.Some? ==> at < counters[k].expiresAt.value)
  }

  /** INCR: a missing or expired counter starts over, without an expiry. */
  function Incr(counters: Counters, k: (string, int), at: real): Counters {
    counters[k := if Holds(counters, k, at) then counters[k].(count := counters[k].count + 1) else Counter(1, None)]
  }

  function Expire(counters: Counters, k: (string, int), at: real, seconds: int): Counters {
    if Holds(counters, k, at) then counters[k := counters[k].(expiresAt := Some(at + seconds as real))] else counters
  }

  /** Where a call to Redis fails; a command may have taken effect although its reply was lost. */
  datatype RedisFault = Healthy | NoClient | IncrFails(applied: bool) | ExpireFails(applied: bool) | TtlFails

  // ----- One check -----

  /** `int(t)` of a wall-clock reading: truncation toward zero. */
  function Seconds(t: real): int {
    if t >= 0.0 then t.Floor else -((-t).Floor)
  }

  /** Python's `//`. */
  function FloorDiv(n: int, d: int): int
    requires d != 0
  {
    if d > 0 then n / d else (-n) / (-d)
  }

  function WindowKey(key: string, window: int, at: real): (string, int)
    requires window != 0
  {
    (key, FloorDiv(Seconds(at), window))
  }

  /** `ttl` is what the server would answer. */
  datatype Request = Request(
    key: string, limit: int, window: int, at: real, ours: bool, fault: RedisFault, ttl: int)

  /** The counters afterwards, and the decision unless the attempt raised. */
  datatype Attempt = Attempt(counters: Counters, decision: Option<Decision>)

  function CheckRedis(counters: Counters, r: Request): Attempt {
    if r.limit <= 0 then Attempt(counters, Some(Denied(r.window)))
    else if r.window == 0 || r.fault == IncrFails(false) then Attempt(counters, None)
    else
      var k := WindowKey(r.key, r.window, r.at);
      var counted := Incr(counters, k, r.at);
      var count := counted[k].count;
      var expiring := if count == 1 && r.fault != ExpireFails(false) then Expire(counted, k, r.at, r.window + 1) else counted;
      if r.fault == IncrFails(true) then Attempt(counted, None)
      else if count == 1 && r.fault.ExpireFails? then Attempt(expiring, None)
      else if count <= r.limit then Attempt(expiring, Some(ADMITTED))
      else if r.fault == TtlFails then Attempt(expiring, None)
      else Attempt(expiring, Some(Denied(if r.ttl > 0 then r.ttl else r.window)))
  }

  /** The in-memory records after the fallback has judged a request. */
  function Fallback(records: map<string, seq<real>>, r: Request): map<string, seq<real>> {
    if r.limit <= 0 then records
    else records[r.key := CheckBucket(BucketOf(records, r.key), r.limit, r.window, r.at).bucket]
  }

  function FallbackDecision(records: map<string, seq<real>>, r: Request): Decision {
    CheckBucket(BucketOf(records, r.key), r.limit, r.window, r.at).decision
  }

  class RedisServer {
    var counters: Counters

    constructor ()
      ensures counters == map[]
    {
      counters := map[];
    }

    method Increment(k: (string, int), at: real) returns (count: int)
      modifies this
      ensures counters == Incr(old(counters), k, at) && count == counters[k].count
    {
      counters := Incr(counters, k, at);
      count := counters[k].count;
    }

    method ExpireIn(k: (string, int), at: real, seconds: int)
      modifies this
      ensures counters == Expire(old(counters), k, at, seconds)
    {
      counters := Expire(counters, k, at, seconds);
    }
  }

  class RequestRateLimiter {
    const fallback: InMemoryRequestRateLimiter

    constructor ()
      ensures fresh(fallback) && fallback.records == map[]
    {
      fallback := new InMemoryRequestRateLimiter();
    }

    /** The attempt on Redis, statement by statement; no decision stands for a raised exception. */
    method TryRedis(redis: RedisServer, r: Request) returns (decision: Option<Decision>)
      modifies redis
      ensures Attempt(redis.counters, decision) == CheckRedis(old(redis.counters), r)
    {
      if r.limit <= 0 {
        return Some(Denied(r.window));
      }
      if r.window == 0 || r.fault == IncrFails(false) {
        return None;
      }
      var windowKey := WindowKey(r.key, r.window, r.at);
      var count := redis.Increment(windowKey, r.at);
      if r.fault == IncrFails(true) {
        return None;
      }
      if count == 1 {
        if r.fault != ExpireFails(false) {
          redis.ExpireIn(windowKey, r.at, r.window + 1);
        }
        if r.fault.ExpireFails? {
          return None;
        }
      }
      if count <= r.limit {
        return Some(ADMITTED);
      }
      if r.fault == TtlFails {
        return None;
      }
      return Some(Denied(if r.ttl > 0 then r.ttl else r.window));
    }

    /** The limiter's own request: Redis when it answers, the process-local window otherwise. */
    method Check(redis: RedisServer, r: Request) returns (decision: Decision)
      modifies redis, fallback
      ensures var attempt := if r.fault.NoClient? then Attempt(old(redis.counters), None)
                             else CheckRedis(old(redis.counters), r);
              && redis.counters == attempt.counters
              && fallback.records ==
                 (if attempt.decision.Some? then old(fallback.records) else Fallback(old(fallback.records), r))
              && decision ==
                 (if attempt.decision.Some? then attempt.decision.value else FallbackDecision(old(fallback.records), r))
    {
      if r.fault.NoClient? {
        decision := fallback.Check(r.key, r.limit, r.window, r.at);
        return;
      }
      var attempt := TryRedis(redis, r);
      if attempt.Some? {
        return attempt.value;
      }
      decision := fallback.Check(r.key, r.limit, r.window, r.at);
    }
  }

  /** `remaining` from the shared counter; a zero window raises before anything is read. */
  function RemainingShared(counters: Counters, key: string, limit: int, window: int, at: real): int
    requires window != 0
  {
    var k := WindowKey(key, window, at);
    var left := limit - if Holds(counters, k, at) then counters[k].count else 0;
    if left < 0 then 0 else left
  }

  /** With a healthy Redis, `remaining` is positive exactly when a check admits, and admission spends one. */
  lemma SharedRemainingPredictsCheck(counters: Counters, r: Request)
    requires r.fault == Healthy && r.window > 0
    ensures var before := RemainingShared(counters, r.key, r.limit, r.window, r.at);
            var attempt := CheckRedis(counters, r);
            && (before > 0 && r.limit > 0 <==> attempt.decision == Some(ADMITTED))
            && (attempt.decision == Some(ADMITTED) ==>
                  RemainingShared(attempt.counters, r.key, r.limit, r.window, r.at) == before - 1)
  {
  }

  /** What the request's counter stands at when it arrives. */
  function CountedBefore(counters: Counters, r: Request): int
    requires r.window != 0
  {
    var k := WindowKey(r.key, r.window, r.at);
    if k in counters && (counters[k].expiresAt.None? || r.at < counters[k].expiresAt.value) then counters[k].count else 0
  }

  /**
   * What Redis answers: nothing on a window of zero or a fault under a command that is reached, a denial for a
   * limit that is not positive, and otherwise admission exactly up to the limit, with the counter's time to live
   * as the wait, or the window where that is not positive.
   */
  lemma RedisAnswersExactly(counters: Counters, r: Request)
    ensures var d := CheckRedis(counters, r).decision;
            if r.limit <= 0 then d == Some(Decision(false, Some(r.window)))
            else if r.window == 0 || r.fault.IncrFails? then d == None
            else
              var before := CountedBefore(counters, r);
              if before == 0 && r.fault.ExpireFails? then d == None
              else if before < r.limit then d == Some(Decision(true, None))
              else if r.fault == TtlFails then d == None
              else d == Some(Decision(false, Some(if r.ttl > 0 then r.ttl else r.window)))
  {
  }

  // ----- Runs: this process, its Redis, and the other processes that share it -----

  datatype Served = Served(request: Request, viaRedis: bool, allowed: bool)

  /** Another process that falls back judges from memory this model does not hold. */
  datatype Fleet = Fleet(counters: Counters, records: map<string, seq<real>>, log: seq<Served>)

  function Serve(f: Fleet, r: Request): Fleet {
    var attempt := if r.fault.NoClient? then Attempt(f.counters, None) else CheckRedis(f.counters, r);
    if attempt.decision.Some? then
      Fleet(attempt.counters, f.records, f.log + [Served(r, true, attempt.decision.value.allowed)])
    else if r.ours then
      Fleet(attempt.counters, Fallback(f.records, r), f.log + [Served(r, false, FallbackDecision(f.records, r).allowed)])
    else Fleet(attempt.counters, f.records, f.log)
  }

  function Run(requests: seq<Request>): Fleet {
    if requests == [] then Fleet(map[], map[], [])
    else Serve(Run(requests[..|requests| - 1]), requests[|requests| - 1])
  }

  /** A wall clock that starts after 1970 and never runs back, and one limit and window for the key. */
  predicate Regular(requests: seq<Request>, key: string, limit: int, window: int) {
    && (forall i :: 0 <= i < |requests| ==> requests[i].at >= 0.0)
    && (forall i, j :: 0 <= i <= j < |requests| ==> requests[i].at <= requests[j].at)
    && (forall i :: 0 <= i < |requests| && requests[i].key == key ==>
          requests[i].limit == limit && requests[i].window == window)
  }

  lemma RegularPrefix(requests: seq<Request>, key: string, limit: int, window: int)
    requires Regular(requests, key, limit, window) && requests != []
    ensures Regular(requests[..|requests| - 1], key, limit, window)
  {
  }

  // ----- The shared counter -----

  predicate RedisAdmission(s: Served, key: string) {
    s.viaRedis && s.allowed && s.request.key == key
  }

  predicate InWindow(s: Served, key: string, window: int, w: int)
    requires window > 0
  {
    RedisAdmission(s, key) && WindowKey(key, window, s.request.at) == (key, w)
  }

  function AdmittedInWindow(log: seq<Served>, key: string, window: int, w: int): nat
    requires window > 0
  {
    Count(log, (s: Served) => InWindow(s, key, window, w))
  }

  function WindowEnd(window: int, w: int): real {
    (w * window + window) as real
  }

  /** A clock reading lies in its own window, and a counter started there outlives the window. */
  lemma WindowContains(window: int, at: real)
    requires window > 0 && at >= 0.0
    ensures var w := FloorDiv(Seconds(at), window);
            WindowEnd(window, w) - window as real <= at < WindowEnd(window, w) < at + window as real + 1.0
  {
    var n := at.Floor;
    assert n == (n / window) * window + n % window;
  }

  /** A counter that has counted something and outlives its window. */
  predicate Sound(counters: Counters, k: (string, int), window: int) {
    k in counters ==>
      && counters[k].count >= 1
      && (counters[k].expiresAt.Some? ==> counters[k].expiresAt.value > WindowEnd(window, k.1))
  }

  function CountOf(counters: Counters, k: (string, int)): int {
    if k in counters then counters[k].count else 0
  }

  /** One attempt keeps every counter sound, never counts down, and admits only what it counted within the limit. */
  lemma AttemptCounts(counters: Counters, r: Request, k: (string, int), window: int)
    requires window > 0 && r.at >= 0.0 && (r.key == k.0 ==> r.window == window)
    requires Sound(counters, k, window)
    ensures var attempt := CheckRedis(counters, r);
            && Sound(attempt.counters, k, window)
            && CountOf(counters, k) <= CountOf(attempt.counters, k)
            && (attempt.decision == Some(ADMITTED) && r.window != 0 && k == WindowKey(r.key, r.window, r.at) ==>
                  CountOf(counters, k) + 1 <= CountOf(attempt.counters, k) <= r.limit)
  {
    if r.key == k.0 {
      WindowContains(window, r.at);
    }
  }

  /** The counter of a window never expires inside it, and has counted every admission it gave. */
  predicate CounterKeepsUp(f: Fleet, key: string, limit: int, window: int, w: int)
    requires window > 0
  {
    var n := AdmittedInWindow(f.log, key, window, w);
    && Sound(f.counters, (key, w), window)
    && n <= CountOf(f.counters, (key, w))
    && n <= if limit > 0 then limit else 0
  }

  lemma ServeKeepsUp(f: Fleet, r: Request, key: string, limit: int, window: int, w: int)
    requires window > 0 && CounterKeepsUp(f, key, limit, window, w)
    requires r.at >= 0.0 && (r.key == key ==> r.limit == limit && r.window == window)
    ensures CounterKeepsUp(Serve(f, r), key, limit, window, w)
  {
    AttemptCounts(f.counters, r, (key, w), window);
    ServedCount(f, r, key, window, w);
  }

  lemma ServedCount(f: Fleet, r: Request, key: string, window: int, w: int)
    requires window > 0 && (r.key == key ==> r.window == window)
    ensures AdmittedInWindow(Serve(f, r).log, key, window, w) == AdmittedInWindow(f.log, key, window, w) +
            if !r.fault.NoClient? && CheckRedis(f.counters, r).decision == Some(ADMITTED)
               && r.key == key && WindowKey(key, window, r.at) == (key, w) then 1 else 0
  {
    var log := Serve(f, r).log;
    if log != f.log {
      CountAppend(f.log, log[|f.log|], (s: Served) => InWindow(s, key, window, w));
    }
  }

  /** No window of the shared counter admits more than the limit, over every process and every fault. */
  lemma {:induction false} WindowHoldsLimit(requests: seq<Request>, key: string, limit: int, window: int, w: int)
    requires window > 0 && Regular(requests, key, limit, window)
    ensures CounterKeepsUp(Run(requests), key, limit, window, w)
    decreases |requests|
  {
    if requests != [] {
      RegularPrefix(requests, key, limit, window);
      WindowHoldsLimit(requests[..|requests| - 1], key, limit, window, w);
      ServeKeepsUp(Run(requests[..|requests| - 1]), requests[|requests| - 1], key, limit, window, w);
    }
  }

  function RedisIn(log: seq<Served>, key: string, from: real, upTo: real): nat {
    Count(log, (s: Served) => RedisAdmission(s, key) && Within(s.request.at, from, upTo))
  }

  lemma CancelFactor(a: int, b: int, d: int)
    requires d > 0 && a * d < b * d
    ensures a < b
  {
  }

  /** An interval of window length meets at most two windows. */
  lemma TwoWindows(window: int, from: real, at: real)
    requires window > 0 && at >= 0.0 && Within(at, from, from + window as real)
    ensures var w := FloorDiv(Seconds(at), window); w == from.Floor / window || w == from.Floor / window + 1
  {
    WindowContains(window, at);
    var (w, v, n) := (FloorDiv(Seconds(at), window), from.Floor / window, from.Floor);
    assert n == v * window + n % window;
    assert (v + 2) * window == v * window + 2 * window && (w + 1) * window == w * window + window;
    CancelFactor(w, v + 2, window);
    CancelFactor(v, w + 1, window);
  }

  lemma {:induction false} LogIsTimely(requests: seq<Request>, key: string, limit: int, window: int)
    requires Regular(requests, key, limit, window)
    ensures forall i :: 0 <= i < |Run(requests).log| ==> Run(requests).log[i].request.at >= 0.0
    decreases |requests|
  {
    if requests != [] {
      RegularPrefix(requests, key, limit, window);
      LogIsTimely(requests[..|requests| - 1], key, limit, window);
    }
  }

  /** In any half-open interval of window length the shared counter admits at most twice the limit. */
  lemma RedisAdmitsAtMostTwiceTheLimit(requests: seq<Request>, key: string, limit: int, window: int, from: real)
    requires Regular(requests, key, limit, window)
    ensures RedisIn(Run(requests).log, key, from, from + window as real) <= 2 * if limit > 0 then limit else 0
  {
    var log := Run(requests).log;
    var here := (s: Served) => RedisAdmission(s, key) && Within(s.request.at, from, from + window as real);
    if window <= 0 {
      CountNone(log, here);
    } else {
      LogIsTimely(requests, key, limit, window);
      var v := from.Floor / window;
      WindowHoldsLimit(requests, key, limit, window, v);
      WindowHoldsLimit(requests, key, limit, window, v + 1);
      forall i | 0 <= i < |log| && here(log[i])
        ensures InWindow(log[i], key, window, v) || InWindow(log[i], key, window, v + 1)
      {
        TwoWindows(window, from, log[i].request.at);
      }
      CountCovered(log, here, (s: Served) => InWindow(s, key, window, v), (s: Served) => InWindow(s, key, window, v + 1));
    }
  }

  // ----- The fallback -----

  predicate FallbackCall(s: Served, key: string) {
    !s.viaRedis && s.request.ours && s.request.key == key
  }

  /** When the fallback was asked about the key. */
  function FallbackTimes(log: seq<Served>, key: string): seq<real> {
    if log == [] then []
    else
      var s := log[|log| - 1];
      FallbackTimes(log[..|log| - 1], key) + if FallbackCall(s, key) then [s.request.at] else []
  }

  function FallbackIn(log: seq<Served>, key: string, from: real, upTo: real): nat {
    Count(log, (s: Served) => FallbackCall(s, key) && s.allowed && Within(s.request.at, from, upTo))
  }

  predicate Timely(times: seq<real>, last: real) {
    Sorted(times) && forall i :: 0 <= i < |times| ==> times[i] <= last
  }

  function AdmittedBetween(times: seq<real>, limit: int, window: int, from: real, upTo: real): nat {
    Count(RunChecks(times, limit, window).admitted, (t: real) => Within(t, from, upTo))
  }

  /** The fallback is the sliding-window limiter run on the requests that reached it. */
  predicate FallbackSlides(f: Fleet, key: string, limit: int, window: int, from: real, last: real) {
    && Timely(FallbackTimes(f.log, key), last)
    && BucketOf(f.records, key) == RunChecks(FallbackTimes(f.log, key), limit, window).bucket
    && FallbackIn(f.log, key, from, from + window as real) ==
       AdmittedBetween(FallbackTimes(f.log, key), limit, window, from, from + window as real)
  }

  lemma LogAppends(log: seq<Served>, s: Served, key: string, from: real, upTo: real)
    ensures FallbackTimes(log + [s], key) == FallbackTimes(log, key) + if FallbackCall(s, key) then [s.request.at] else []
    ensures FallbackIn(log + [s], key, from, upTo) == FallbackIn(log, key, from, upTo) +
            if FallbackCall(s, key) && s.allowed && Within(s.request.at, from, upTo) then 1 else 0
  {
    assert (log + [s])[..|log|] == log;
  }

  /** One more check, seen through the counted interval. */
  lemma RunOneMore(times: seq<real>, now: real, limit: int, window: int, from: real, upTo: real)
    ensures var (before, after) := (RunChecks(times, limit, window), RunChecks(times + [now], limit, window));
            var checked := CheckBucket(before.bucket, limit, window, now);
            && after.bucket == checked.bucket
            && AdmittedBetween(times + [now], limit, window, from, upTo) ==
               AdmittedBetween(times, limit, window, from, upTo) +
               if checked.decision == ADMITTED && Within(now, from, upTo) then 1 else 0
  {
    assert (times + [now])[..|times|] == times;
    var admitted := RunChecks(times, limit, window).admitted;
    CountAppend(admitted, now, (t: real) => Within(t, from, upTo));
    assert admitted + [] == admitted;
  }

  /** A request the fallback did not see, or saw for another key. */
  lemma OtherRequestSlides(f: Fleet, f': Fleet, s: Served, key: string, limit: int, window: int, from: real, last: real)
    requires FallbackSlides(f, key, limit, window, from, last) && last <= s.request.at
    requires BucketOf(f'.records, key) == BucketOf(f.records, key)
    requires f'.log == f.log || (f'.log == f.log + [s] && !FallbackCall(s, key))
    ensures FallbackSlides(f', key, limit, window, from, s.request.at)
  {
    LogAppends(f.log, s, key, from, from + window as real);
    assert FallbackTimes(f.log, key) + [] == FallbackTimes(f.log, key);
  }

  lemma AppendSorted(times: seq<real>, last: real, now: real)
    requires Timely(times, last) && last <= now
    ensures Timely(times + [now], now)
  {
  }

  lemma FallbackBucket(records: map<string, seq<real>>, r: Request)
    ensures BucketOf(Fallback(records, r), r.key) == CheckBucket(BucketOf(records, r.key), r.limit, r.window, r.at).bucket
  {
  }

  lemma FallbackAdmits(records: map<string, seq<real>>, r: Request)
    ensures FallbackDecision(records, r).allowed <==>
            CheckBucket(BucketOf(records, r.key), r.limit, r.window, r.at).decision == ADMITTED
  {
  }

  /** What the log and the counted admissions gain from one call the fallback served. */
  lemma FallbackLogGrows(f: Fleet, r: Request, from: real, upTo: real)
    requires r.ours && BucketOf(f.records, r.key) == RunChecks(FallbackTimes(f.log, r.key), r.limit, r.window).bucket
    ensures var (log, times) := (f.log + [Served(r, false, FallbackDecision(f.records, r).allowed)], FallbackTimes(f.log, r.key));
            && FallbackTimes(log, r.key) == times + [r.at]
            && FallbackIn(log, r.key, from, upTo) - FallbackIn(f.log, r.key, from, upTo) ==
               AdmittedBetween(times + [r.at], r.limit, r.window, from, upTo)
               - AdmittedBetween(times, r.limit, r.window, from, upTo)
  {
    LogAppends(f.log, Served(r, false, FallbackDecision(f.records, r).allowed), r.key, from, upTo);
    RunOneMore(FallbackTimes(f.log, r.key), r.at, r.limit, r.window, from, upTo);
    FallbackAdmits(f.records, r);
  }

  lemma FallbackBucketGrows(f: Fleet, r: Request, from: real)
    requires BucketOf(f.records, r.key) == RunChecks(FallbackTimes(f.log, r.key), r.limit, r.window).bucket
    ensures BucketOf(Fallback(f.records, r), r.key) ==
            RunChecks(FallbackTimes(f.log, r.key) + [r.at], r.limit, r.window).bucket
  {
    FallbackBucket(f.records, r);
    RunOneMore(FallbackTimes(f.log, r.key), r.at, r.limit, r.window, from, from);
  }

  lemma FallbackRequestSlides(f: Fleet, f': Fleet, r: Request, key: string, from: real, last: real)
    requires FallbackSlides(f, key, r.limit, r.window, from, last) && last <= r.at && r.key == key && r.ours
    requires f'.records == Fallback(f.records, r)
    requires f'.log == f.log + [Served(r, false, FallbackDecision(f.records, r).allowed)]
    ensures FallbackSlides(f', key, r.limit, r.window, from, r.at)
  {
    FallbackLogGrows(f, r, from, from + r.window as real);
    FallbackBucketGrows(f, r, from);
    AppendSorted(FallbackTimes(f.log, key), last, r.at);
  }

  lemma ServeSlides(f: Fleet, r: Request, key: string, limit: int, window: int, from: real, last: real)
    requires FallbackSlides(f, key, limit, window, from, last)
    requires last <= r.at && (r.key == key ==> r.limit == limit && r.window == window)
    ensures FallbackSlides(Serve(f, r), key, limit, window, from, r.at)
  {
    var f' := Serve(f, r);
    var raised := r.fault.NoClient? || CheckRedis(f.counters, r).decision.None?;
    if r.key == key && r.ours && raised {
      FallbackRequestSlides(f, f', r, key, from, last);
    } else {
      var s := if f'.log == f.log then Served(r, true, false) else f'.log[|f.log|];
      OtherRequestSlides(f, f', s, key, limit, window, from, last);
    }
  }

  lemma {:induction false} RunSlides(requests: seq<Request>, key: string, limit: int, window: int, from: real)
    requires Regular(requests, key, limit, window)
    ensures FallbackSlides(Run(requests), key, limit, window, from,
                           if requests == [] then 0.0 else requests[|requests| - 1].at)
    decreases |requests|
  {
    if requests != [] {
      var init := requests[..|requests| - 1];
      RegularPrefix(requests, key, limit, window);
      RunSlides(init, key, limit, window, from);
      ServeSlides(Run(init), requests[|requests| - 1], key, limit, window, from,
                  if init == [] then 0.0 else init[|init| - 1].at);
    }
  }

  // ----- One process in all -----

  predicate OurAdmission(s: Served, key: string) {
    s.request.ours && s.allowed && s.request.key == key
  }

  /**
   * However Redis comes and goes, mid-call included, one process admits at most three times the limit
   * for a key in any half-open interval of window length.
   */
  lemma ProcessAdmitsAtMostThriceTheLimit(requests: seq<Request>, key: string, limit: int, window: int, from: real)
    requires Regular(requests, key, limit, window)
    ensures Count(Run(requests).log, (s: Served) => OurAdmission(s, key) && Within(s.request.at, from, from + window as real))
            <= 3 * if limit > 0 then limit else 0
  {
    var log := Run(requests).log;
    RedisAdmitsAtMostTwiceTheLimit(requests, key, limit, window, from);
    RunSlides(requests, key, limit, window, from);
    SlidingWindowIsSafe(FallbackTimes(log, key), limit, window, from);
    CountCovered(
      log,
      (s: Served) => OurAdmission(s, key) && Within(s.request.at, from, from + window as real),
      (s: Served) => RedisAdmission(s, key) && Within(s.request.at, from, from + window as real),
      (s: Served) => FallbackCall(s, key) && s.allowed && Within(s.request.at, from, from + window as real));
  }
}
