/**
 A sliding-window rate limiter: for each key the times it accepted, the oldest dropped as they leave the
 window.
 */
module RateLimit {
  const WINDOW_SECONDS: real := 3600.0

  /** The times without those at the front that are before `earliest`. */
  function Recent(times: seq<real>, earliest: real): seq<real> {
    if times != [] && times[0] < earliest then Recent(times[1..], earliest) else times
  }

  /** What a key has waiting in the window that ends now. */
  function Waiting(requests: map<string, seq<real>>, key: string, now: real): seq<real> {
    Recent(if key in requests then requests[key] else [], now - WINDOW_SECONDS)
  }

  class SlidingWindowRateLimiter {
    const limit: int
    var requests: map<string, seq<real>>

    constructor (limit: int)
      ensures this.limit == limit && requests == map[]
    {
      this.limit := limit;
      requests := map[];
    }

    method Allow(key: string, now: real) returns (allowed: bool)
      modifies this
      ensures Log(requests, if allowed then [Request(key, now)] else [])
           == Serve(limit, Log(old(requests), []), Request(key, now))
    {
      var earliest := now - WINDOW_SECONDS;
      var times := if key in requests then requests[key] else [];
      while times != [] && times[0] < earliest
        invariant Recent(times, earliest) == Waiting(old(requests), key, now)
        invariant requests == old(requests)
        decreases |times|
      {
        times := times[1..];
      }
      allowed := |times| < limit;
      if allowed {
        times := times + [now];
      }
      requests := requests[key := times];
    }
  }

  // ---- runs ----

  datatype Request = Request(key: string, at: real)

  /** The limiter's table, and every request it has accepted, in order. */
  datatype Log = Log(requests: map<string, seq<real>>, accepted: seq<Request>)

  function Serve(limit: int, log: Log, request: Request): Log {
    var waiting := Waiting(log.requests, request.key, request.at);
    if |waiting| < limit then
      Log(log.requests[request.key := waiting + [request.at]], log.accepted + [request])
    else
      log.(requests := log.requests[request.key := waiting])
  }

  function Run(limit: int, run: seq<Request>): Log {
    if run == [] then Log(map[], []) else Serve(limit, Run(limit, run[..|run| - 1]), run[|run| - 1])
  }

  /** The clock is monotonic. */
  ghost predicate InOrder(run: seq<Request>) {
    forall i, j :: 0 <= i < j < |run| ==> run[i].at <= run[j].at
  }

  /** How many requests of a key fall in a closed window. */
  function InWindow(requests: seq<Request>, key: string, first: real, last: real): nat {
    if requests == [] then 0
    else
      var request := requests[|requests| - 1];
      InWindow(requests[..|requests| - 1], key, first, last)
      + (if request.key == key && first <= request.at <= last then 1 else 0)
  }

  function TimesOf(requests: seq<Request>, key: string): seq<real> {
    if requests == [] then []
    else
      var request := requests[|requests| - 1];
      TimesOf(requests[..|requests| - 1], key) + (if request.key == key then [request.at] else [])
  }

  ghost predicate NoneAfter(requests: seq<Request>, now: real) {
    forall i :: 0 <= i < |requests| ==> requests[i].at <= now
  }

  /** From now on, the table answers for a key as a record of everything accepted would. */
  ghost predicate ForgetsOnlyOld(log: Log, key: string, now: real) {
    forall t | t >= now ::
      Waiting(log.requests, key, t) == Recent(TimesOf(log.accepted, key), t - WINDOW_SECONDS)
  }

  ghost predicate Consistent(log: Log, now: real) {
    && InOrder(log.accepted) && NoneAfter(log.accepted, now)
    && forall key :: ForgetsOnlyOld(log, key, now)
  }

  lemma {:induction false} RecentOfRecent(times: seq<real>, first: real, more: seq<real>, second: real)
    requires first <= second
    ensures Recent(Recent(times, first) + more, second) == Recent(times + more, second)
    decreases |times|
  {
    if times != [] && times[0] < first {
      assert (times + more)[1..] == times[1..] + more;
      RecentOfRecent(times[1..], first, more, second);
    }
  }

  lemma {:induction false} RecentOneMore(times: seq<real>, last: real, earliest: real)
    requires forall i :: 0 <= i < |times| ==> times[i] <= last
    ensures Recent(times + [last], earliest) == Recent(times, earliest) + (if last < earliest then [] else [last])
    decreases |times|
  {
    if times == [] {
      assert [last][1..] == [] && [] + [last] == [last];
    } else if times[0] < earliest {
      assert (times + [last])[1..] == times[1..] + [last];
      RecentOneMore(times[1..], last, earliest);
    }
  }

  lemma {:induction false} TimesOfOneMore(requests: seq<Request>, request: Request, key: string)
    ensures TimesOf(requests + [request], key) == TimesOf(requests, key) + (if request.key == key then [request.at] else [])
  {
    assert (requests + [request])[..|requests|] == requests;
  }

  lemma {:induction false} TimesAreNoLater(requests: seq<Request>, key: string, now: real)
    requires NoneAfter(requests, now)
    ensures forall i :: 0 <= i < |TimesOf(requests, key)| ==> TimesOf(requests, key)[i] <= now
    decreases |requests|
  {
    if requests != [] {
      TimesAreNoLater(requests[..|requests| - 1], key, now);
    }
  }

  /** The table's count for a window that ends now is the number accepted in it. */
  lemma {:induction false} RecentCounts(requests: seq<Request>, key: string, earliest: real, now: real)
    requires InOrder(requests) && NoneAfter(requests, now)
    ensures |Recent(TimesOf(requests, key), earliest)| == InWindow(requests, key, earliest, now)
    decreases |requests|
  {
    if requests != [] {
      var front, last := requests[..|requests| - 1], requests[|requests| - 1];
      RecentCounts(front, key, earliest, now);
      TimesAreNoLater(front, key, last.at);
      RecentOneMore(TimesOf(front, key), last.at, earliest);
      assert last.key != key ==> TimesOf(requests, key) == TimesOf(front, key);
    }
  }

  /** Serving a request forgets only times before its window. */
  lemma {:induction false} ServeForgetsOnlyOld(limit: int, log: Log, request: Request, key: string, t: real)
    requires ForgetsOnlyOld(log, key, request.at) && request.at <= t
    ensures var after := Serve(limit, log, request);
            Waiting(after.requests, key, t) == Recent(TimesOf(after.accepted, key), t - WINDOW_SECONDS)
  {
    TimesOfOneMore(log.accepted, request, key);
    var times := TimesOf(log.accepted, key);
    if request.key == key {
      var waiting := Waiting(log.requests, key, request.at);
      var more := if |waiting| < limit then [request.at] else [];
      RecentOfRecent(times, request.at - WINDOW_SECONDS, more, t - WINDOW_SECONDS);
      assert times + [] == times && waiting + [] == waiting;
      assert Serve(limit, log, request).requests[key] == waiting + more;
    } else {
      assert times + [] == times;
      assert Waiting(Serve(limit, log, request).requests, key, t) == Waiting(log.requests, key, t);
    }
  }

  lemma {:induction false} RunIsConsistent(limit: int, run: seq<Request>, now: real)
    requires InOrder(run) && NoneAfter(run, now)
    ensures Consistent(Run(limit, run), now)
    decreases |run|
  {
    if run != [] {
      var front, request := run[..|run| - 1], run[|run| - 1];
      RunIsConsistent(limit, front, request.at);
      forall key, t | t >= now
        ensures Waiting(Run(limit, run).requests, key, t)
             == Recent(TimesOf(Run(limit, run).accepted, key), t - WINDOW_SECONDS)
      {
        ServeForgetsOnlyOld(limit, Run(limit, front), request, key, t);
      }
    }
  }

  /** A request is refused if and only if `limit` of its key were accepted in the window that ends with it. */
  lemma {:induction false} RefusedIffWindowIsFull(limit: int, run: seq<Request>, request: Request)
    requires InOrder(run + [request])
    ensures var before, after := Run(limit, run).accepted, Run(limit, run + [request]).accepted;
            after == if InWindow(before, request.key, request.at - WINDOW_SECONDS, request.at) >= limit
                     then before else before + [request]
  {
    OrderOfFront(run, request);
    RunIsConsistent(limit, run, request.at);
    ServedIffRoom(limit, Run(limit, run), request);
  }

  lemma {:induction false} OrderOfFront(run: seq<Request>, request: Request)
    requires InOrder(run + [request])
    ensures InOrder(run) && NoneAfter(run, request.at)
  {
    var all := run + [request];
    assert all[|run|] == request && forall i :: 0 <= i < |run| ==> run[i] == all[i];
  }

  lemma {:induction false} ServedIffRoom(limit: int, log: Log, request: Request)
    requires Consistent(log, request.at)
    ensures Serve(limit, log, request).accepted
         == if InWindow(log.accepted, request.key, request.at - WINDOW_SECONDS, request.at) >= limit
            then log.accepted else log.accepted + [request]
  {
    assert ForgetsOnlyOld(log, request.key, request.at);
    RecentCounts(log.accepted, request.key, request.at - WINDOW_SECONDS, request.at);
  }

  lemma {:induction false} LaterStartHoldsFewer(requests: seq<Request>, key: string, first: real, last: real,
                                                earlier: real, now: real)
    requires NoneAfter(requests, now) && earlier <= first
    ensures InWindow(requests, key, first, last) <= InWindow(requests, key, earlier, now)
    decreases |requests|
  {
    if requests != [] {
      LaterStartHoldsFewer(requests[..|requests| - 1], key, first, last, earlier, now);
    }
  }

  /** However the requests come, no closed window of an hour holds more than `limit` accepted of one key. */
  lemma {:induction false} WindowHoldsAtMostLimit(limit: int, run: seq<Request>, key: string, first: real)
    requires InOrder(run)
    ensures var accepted := Run(limit, run).accepted;
            InWindow(accepted, key, first, first + WINDOW_SECONDS) <= if limit < 0 then 0 else limit
    decreases |run|
  {
    if run != [] {
      var front, request := run[..|run| - 1], run[|run| - 1];
      WindowHoldsAtMostLimit(limit, front, key, first);
      assert front + [request] == run;
      RefusedIffWindowIsFull(limit, front, request);
      OrderOfFront(front, request);
      RunIsConsistent(limit, front, request.at);
      OneMoreInWindow(limit, Run(limit, front).accepted, Run(limit, run).accepted, request, key, first);
    }
  }

  lemma {:induction false} OneMoreInWindow(limit: int, before: seq<Request>, after: seq<Request>, request: Request,
                                           key: string, first: real)
    requires NoneAfter(before, request.at)
    requires InWindow(before, key, first, first + WINDOW_SECONDS) <= if limit < 0 then 0 else limit
    requires after == if InWindow(before, request.key, request.at - WINDOW_SECONDS, request.at) >= limit
                      then before else before + [request]
    ensures InWindow(after, key, first, first + WINDOW_SECONDS) <= if limit < 0 then 0 else limit
  {
    if after != before {
      if first <= request.at <= first + WINDOW_SECONDS {
        LaterStartHoldsFewer(before, key, first, first + WINDOW_SECONDS, request.at - WINDOW_SECONDS, request.at);
      }
    }
  }
}
