/**
 * While Redis answers, the shared limiter admits exactly the first requests of each fixed window.
 */
module SharedWindows {
  import opened Wrappers
  import opened Counting
  import opened RateLimiter
  import opened SharedRateLimiter

  /** A request of the key in window `w`: from `w` to `w + 1` windows after 1970. */
  predicate InWindowOf(r: Request, key: string, window: int, w: int) {
    r.key == key && (w * window) as real <= r.at < (w * window + window) as real
  }

  function Arrived(requests: seq<Request>, key: string, window: int, w: int): nat {
    Count(requests, (r: Request) => InWindowOf(r, key, window, w))
  }

  /** Every request of the key reaches a Redis that answers. */
  predicate Answered(requests: seq<Request>, key: string) {
    forall i :: 0 <= i < |requests| && requests[i].key == key ==> requests[i].fault == Healthy
  }

  lemma WindowIndex(window: int, at: real, w: int)
    requires window > 0 && at >= 0.0
    ensures FloorDiv(Seconds(at), window) == w <==> (w * window) as real <= at < (w * window + window) as real
  {
    var n := at.Floor;
    assert n as real <= at < n as real + 1.0;
    assert (w * window) as real <= at <==> w * window <= n;
    assert at < (w * window + window) as real <==> n < w * window + window;
    QuotientExactly(n, window, w);
  }

  lemma QuotientExactly(n: int, d: int, q: int)
    requires d > 0 && n >= 0
    ensures n / d == q <==> q * d <= n < q * d + d
  {
    var p := n / d;
    assert n == p * d + n % d;
    if q * d <= n < q * d + d {
      CancelFactor(q, p + 1, d);
      CancelFactor(p, q + 1, d);
    }
  }

  /** Request `i` is the first of the window. */
  predicate Opens(requests: seq<Request>, key: string, window: int, w: int, i: int) {
    && 0 <= i < |requests| && InWindowOf(requests[i], key, window, w)
    && forall j :: 0 <= j < i ==> !InWindowOf(requests[j], key, window, w)
  }

  /** The window's counter holds the requests that arrived, and outlives by the added second the one that opened it. */
  ghost predicate CountsArrivals(counters: Counters, requests: seq<Request>, key: string, window: int, w: int) {
    var (n, k) := (Arrived(requests, key, window, w), (key, w));
    && (n == 0 <==> k !in counters)
    && (n > 0 ==>
          && counters[k].count == n
          && exists i :: Opens(requests, key, window, w, i)
                         && counters[k].expiresAt == Some(requests[i].at + (window + 1) as real))
  }

  lemma NoneArrived(requests: seq<Request>, key: string, window: int, w: int)
    requires Arrived(requests, key, window, w) == 0
    ensures forall i :: 0 <= i < |requests| ==> !InWindowOf(requests[i], key, window, w)
    decreases |requests|
  {
    if requests != [] {
      NoneArrived(requests[..|requests| - 1], key, window, w);
    }
  }

  /** A request of another key or window leaves the counter alone. */
  lemma OtherRequest(counters: Counters, r: Request, key: string, window: int, w: int)
    requires window > 0 && r.at >= 0.0 && (r.key == key ==> r.window == window) && !InWindowOf(r, key, window, w)
    ensures var after := CheckRedis(counters, r).counters;
            ((key, w) in after <==> (key, w) in counters) && ((key, w) in after ==> after[(key, w)] == counters[(key, w)])
  {
    if r.key == key {
      WindowIndex(window, r.at, w);
    }
  }

  /** A request of the window is counted, and the first one sets the expiry. */
  lemma OwnRequest(counters: Counters, r: Request, key: string, window: int, w: int)
    requires window > 0 && r.at >= 0.0 && r.window == window && r.limit > 0 && r.fault == Healthy
    requires InWindowOf(r, key, window, w)
    requires (key, w) in counters ==> Holds(counters, (key, w), r.at) && counters[(key, w)].count >= 1
    ensures var (attempt, k) := (CheckRedis(counters, r), (key, w));
            var before := if k in counters then counters[k].count else 0;
            && k in attempt.counters && attempt.counters[k].count == before + 1
            && attempt.counters[k].expiresAt ==
               (if k in counters then counters[k].expiresAt else Some(r.at + (window + 1) as real))
            && attempt.decision.Some? && (attempt.decision.value.allowed <==> before < r.limit)
  {
    WindowIndex(window, r.at, w);
  }

  lemma Appended(requests: seq<Request>, r: Request, key: string, window: int, w: int)
    ensures Arrived(requests + [r], key, window, w) ==
            Arrived(requests, key, window, w) + if InWindowOf(r, key, window, w) then 1 else 0
  {
    CountAppend(requests, r, (q: Request) => InWindowOf(q, key, window, w));
  }

  lemma OpenedEarlier(requests: seq<Request>, r: Request, key: string, window: int, w: int, i: int)
    requires Opens(requests, key, window, w, i)
    ensures Opens(requests + [r], key, window, w, i) && (requests + [r])[i] == requests[i]
  {
  }

  /** An arrival finds its window's counter alive. */
  lemma StillHeld(counters: Counters, requests: seq<Request>, r: Request, key: string, window: int, w: int)
    requires CountsArrivals(counters, requests, key, window, w) && (key, w) in counters
    requires InWindowOf(r, key, window, w)
    ensures Holds(counters, (key, w), r.at) && counters[(key, w)].count >= 1
  {
    var i :| Opens(requests, key, window, w, i)
             && counters[(key, w)].expiresAt == Some(requests[i].at + (window + 1) as real);
    assert (window + 1) as real == window as real + 1.0;
    assert (w * window + window) as real == (w * window) as real + window as real;
  }

  lemma CountsOneMore(counters: Counters, requests: seq<Request>, r: Request, key: string, limit: int, window: int, w: int)
    requires window > 0 && limit > 0 && CountsArrivals(counters, requests, key, window, w)
    requires r.at >= 0.0 && (r.key == key ==> r.limit == limit && r.window == window && r.fault == Healthy)
    ensures CountsArrivals(CheckRedis(counters, r).counters, requests + [r], key, window, w)
  {
    var k := (key, w);
    Appended(requests, r, key, window, w);
    if InWindowOf(r, key, window, w) {
      if k in counters {
        StillHeld(counters, requests, r, key, window, w);
        OwnRequest(counters, r, key, window, w);
        var i :| Opens(requests, key, window, w, i)
                 && counters[k].expiresAt == Some(requests[i].at + (window + 1) as real);
        OpenedEarlier(requests, r, key, window, w, i);
      } else {
        OwnRequest(counters, r, key, window, w);
        NoneArrived(requests, key, window, w);
        assert Opens(requests + [r], key, window, w, |requests|);
      }
    } else {
      OtherRequest(counters, r, key, window, w);
      if k in counters {
        var i :| Opens(requests, key, window, w, i)
                 && counters[k].expiresAt == Some(requests[i].at + (window + 1) as real);
        OpenedEarlier(requests, r, key, window, w, i);
      }
    }
  }

  lemma ServedCounters(f: Fleet, r: Request)
    ensures Serve(f, r).counters == if r.fault.NoClient? then f.counters else CheckRedis(f.counters, r).counters
  {
  }

  lemma {:induction false} CountersCountArrivals(requests: seq<Request>, key: string, limit: int, window: int, w: int)
    requires window > 0 && limit > 0 && Regular(requests, key, limit, window) && Answered(requests, key)
    ensures CountsArrivals(Run(requests).counters, requests, key, window, w)
    decreases |requests|
  {
    if requests != [] {
      var (init, r) := (requests[..|requests| - 1], requests[|requests| - 1]);
      assert requests == init + [r];
      RegularPrefix(requests, key, limit, window);
      assert Answered(init, key);
      CountersCountArrivals(init, key, limit, window, w);
      ServedCounters(Run(init), r);
      if r.fault.NoClient? {
        Appended(init, r, key, window, w);
        if (key, w) in Run(init).counters {
          var i :| Opens(init, key, window, w, i)
                   && Run(init).counters[(key, w)].expiresAt == Some(init[i].at + (window + 1) as real);
          OpenedEarlier(init, r, key, window, w, i);
        }
      } else {
        CountsOneMore(Run(init).counters, init, r, key, limit, window, w);
      }
    }
  }

  /**
   * After every run whose requests of the key Redis answered, the next one is admitted exactly when fewer than
   * the limit have arrived in its window, admitted or not; other keys, faults under them, and expiry play no part.
   */
  lemma FirstRequestsAreAdmitted(requests: seq<Request>, r: Request, limit: int, window: int, w: int)
    requires window > 0 && limit > 0 && Regular(requests + [r], r.key, limit, window) && Answered(requests + [r], r.key)
    requires InWindowOf(r, r.key, window, w)
    ensures Run(requests + [r]).log ==
            Run(requests).log + [Served(r, true, Arrived(requests, r.key, window, w) < limit)]
  {
    var all := requests + [r];
    assert all[..|all| - 1] == requests && all[|requests|] == r;
    RegularPrefix(all, r.key, limit, window);
    assert Answered(requests, r.key) by {
      assert forall i :: 0 <= i < |requests| ==> all[i] == requests[i];
    }
    CountersCountArrivals(requests, r.key, limit, window, w);
    var counters := Run(requests).counters;
    if (r.key, w) in counters {
      StillHeld(counters, requests, r, r.key, window, w);
    }
    OwnRequest(counters, r, r.key, window, w);
  }
}
