/** The sliding-window rate limiter: one log of admission times for each client address and endpoint,
  pruned on every request to the last sixty seconds. */
module RateLimiter {

  const WINDOW: real := 60.0
  const SENSITIVE_LIMIT := 10
  const SENSITIVE_ENDPOINTS := {"/api/v1/auth/login", "/api/v1/auth/register", "/api/v1/auth/refresh"}

  datatype Request = Request(ip: string, endpoint: string, now: real)

  type Logs = map<string, seq<real>>

  function Key(r: Request): string
  {
    r.ip + ":" + r.endpoint
  }

  function LimitOf(perMinute: int, endpoint: string): int
  {
    if endpoint in SENSITIVE_ENDPOINTS then SENSITIVE_LIMIT else perMinute
  }

  /** The times less than a window old. */
  function Prune(log: seq<real>, now: real): seq<real>
  {
    if log == [] then []
    else
      var init, last := log[..|log| - 1], log[|log| - 1];
      if now - last < WINDOW then Prune(init, now) + [last] else Prune(init, now)
  }

  function LogAt(logs: Logs, key: string): seq<real>
  {
    if key in logs then logs[key] else []
  }

  /** One request: prune the log of its key, check, record. */
  function Dispatched(perMinute: int, logs: Logs, r: Request): (Logs, bool)
  {
    var kept := Prune(LogAt(logs, Key(r)), r.now);
    if |kept| >= LimitOf(perMinute, r.endpoint) then (logs[Key(r) := kept], false)
    else (logs[Key(r) := kept + [r.now]], true)
  }

  class RateLimitMiddleware {
    const requestsPerMinute: int
    var requestTimes: Logs

    constructor (requestsPerMinute: int)
      ensures this.requestsPerMinute == requestsPerMinute && requestTimes == map[]
    {
      this.requestsPerMinute := requestsPerMinute;
      requestTimes := map[];
    }

    /** Answers whether the request is passed on. */
    method Dispatch(r: Request) returns (admitted: bool)
      modifies this
      ensures (requestTimes, admitted) == Dispatched(requestsPerMinute, old(requestTimes), r)
    {
      var rateLimit := if r.endpoint in SENSITIVE_ENDPOINTS then SENSITIVE_LIMIT else requestsPerMinute;
      var key := Key(r);
      if key !in requestTimes {
        requestTimes := requestTimes[key := []];
      }
      requestTimes := requestTimes[key := Prune(requestTimes[key], r.now)];
      assert requestTimes == old(requestTimes)[key := Prune(LogAt(old(requestTimes), key), r.now)];
      if |requestTimes[key]| >= rateLimit {
        return false;
      }
      requestTimes := requestTimes[key := requestTimes[key] + [r.now]];
      assert requestTimes == old(requestTimes)[key := Prune(LogAt(old(requestTimes), key), r.now) + [r.now]];
      return true;
    }
  }

  // ---------------------------------------------------------------------------------------------
  // Runs
  // ---------------------------------------------------------------------------------------------

  /** The logs after a run of requests on a new limiter. */
  function LogsAfter(perMinute: int, reqs: seq<Request>): Logs
  {
    if reqs == [] then map[]
    else Dispatched(perMinute, LogsAfter(perMinute, reqs[..|reqs| - 1]), reqs[|reqs| - 1]).0
  }

  /** The answer to a request after a run. */
  predicate Admits(perMinute: int, reqs: seq<Request>, r: Request)
  {
    Dispatched(perMinute, LogsAfter(perMinute, reqs), r).1
  }

  /** Times never go back. */
  ghost predicate Monotone(reqs: seq<Request>)
  {
    forall i, j :: 0 <= i < j < |reqs| ==> reqs[i].now <= reqs[j].now
  }

  // ---------------------------------------------------------------------------------------------
  // The plain limiter: it remembers every admitted request and counts the recent ones
  // ---------------------------------------------------------------------------------------------

  function CountRecent(history: seq<Request>, key: string, now: real): nat
  {
    if history == [] then 0
    else
      var last := history[|history| - 1];
      CountRecent(history[..|history| - 1], key, now) +
      if Key(last) == key && now - last.now < WINDOW then 1 else 0
  }

  predicate PlainAdmits(perMinute: int, history: seq<Request>, r: Request)
  {
    CountRecent(history, Key(r), r.now) < LimitOf(perMinute, r.endpoint)
  }

  /** Every request admitted in a run, by the plain limiter. */
  function PlainHistory(perMinute: int, reqs: seq<Request>): seq<Request>
  {
    if reqs == [] then []
    else
      var history, r := PlainHistory(perMinute, reqs[..|reqs| - 1]), reqs[|reqs| - 1];
      if PlainAdmits(perMinute, history, r) then history + [r] else history
  }

  function TimesOn(history: seq<Request>, key: string): seq<real>
  {
    if history == [] then []
    else
      var init, last := history[..|history| - 1], history[|history| - 1];
      if Key(last) == key then TimesOn(init, key) + [last.now] else TimesOn(init, key)
  }

  // ---------------------------------------------------------------------------------------------
  // Refinement
  // ---------------------------------------------------------------------------------------------

  lemma PruneAppend(log: seq<real>, t: real, now: real)
    ensures Prune(log + [t], now) == if now - t < WINDOW then Prune(log, now) + [t] else Prune(log, now)
  {
  }

  lemma {:induction false} CountIsPruned(history: seq<Request>, key: string, now: real)
    ensures CountRecent(history, key, now) == |Prune(TimesOn(history, key), now)|
  {
    if history == [] {
    } else {
      var init, last := history[..|history| - 1], history[|history| - 1];
      CountIsPruned(init, key, now);
      PruneAppend(TimesOn(init, key), last.now, now);
    }
  }

  lemma TimesAppend(history: seq<Request>, r: Request, key: string)
    ensures TimesOn(history + [r], key) ==
            if Key(r) == key then TimesOn(history, key) + [r.now] else TimesOn(history, key)
  {
  }

  /** The log after a decision, when `kept` was left of it. */
  function Extended(log: seq<real>, kept: nat, limit: int, now: real): seq<real>
  {
    if kept >= limit then log else log + [now]
  }

  lemma LastLog(perMinute: int, init: seq<Request>, r: Request, key: string)
    ensures var log := LogAt(LogsAfter(perMinute, init), key);
            LogAt(LogsAfter(perMinute, init + [r]), key) ==
            if Key(r) == key then
              var kept := Prune(log, r.now);
              Extended(kept, |kept|, LimitOf(perMinute, r.endpoint), r.now)
            else log
  {
  }

  lemma LastAdmission(perMinute: int, init: seq<Request>, r: Request, key: string)
    ensures var times := TimesOn(PlainHistory(perMinute, init), key);
            TimesOn(PlainHistory(perMinute, init + [r]), key) ==
            if Key(r) == key then
              Extended(times, |Prune(times, r.now)|, LimitOf(perMinute, r.endpoint), r.now)
            else times
  {
    assert (init + [r])[..|init|] == init;
    TimesAppend(PlainHistory(perMinute, init), r, key);
    CountIsPruned(PlainHistory(perMinute, init), key, r.now);
  }

  /** Every request the limiter admitted in a run. */
  function Admitted(perMinute: int, reqs: seq<Request>): seq<Request>
  {
    if reqs == [] then []
    else
      var init, r := reqs[..|reqs| - 1], reqs[|reqs| - 1];
      if Admits(perMinute, init, r) then Admitted(perMinute, init) + [r] else Admitted(perMinute, init)
  }

  /** No request of `after` on the key finds the time a window old. */
  predicate Unexpired(t: real, after: seq<Request>, key: string)
  {
    forall x | x in after && Key(x) == key :: x.now - t < WINDOW
  }

  /** The times admitted on a key in a run that no later request of the run, and none of `after`, finds
      a window old.  Times may go back and forth: a time that was once found old is gone for good. */
  function Surviving(perMinute: int, reqs: seq<Request>, after: seq<Request>, key: string): seq<real>
  {
    if reqs == [] then []
    else
      var init, r := reqs[..|reqs| - 1], reqs[|reqs| - 1];
      var earlier := Surviving(perMinute, init, [r] + after, key);
      if Key(r) == key && Admits(perMinute, init, r) && Unexpired(r.now, after, key) then earlier + [r.now]
      else earlier
  }

  function KeepUnexpired(log: seq<real>, after: seq<Request>, key: string): seq<real>
  {
    if log == [] then []
    else
      var init, last := log[..|log| - 1], log[|log| - 1];
      if Unexpired(last, after, key) then KeepUnexpired(init, after, key) + [last]
      else KeepUnexpired(init, after, key)
  }

  lemma KeepAppend(log: seq<real>, t: real, after: seq<Request>, key: string)
    ensures KeepUnexpired(log + [t], after, key) ==
            if Unexpired(t, after, key) then KeepUnexpired(log, after, key) + [t] else KeepUnexpired(log, after, key)
  {
    assert (log + [t])[..|log|] == log;
  }

  lemma {:induction false} KeepAll(log: seq<real>, key: string)
    ensures KeepUnexpired(log, [], key) == log
  {
    if log == [] {
    } else {
      KeepAll(log[..|log| - 1], key);
    }
  }

  lemma UnexpiredStep(t: real, r: Request, after: seq<Request>, key: string)
    ensures Unexpired(t, [r] + after, key) <==>
            Unexpired(t, after, key) && (Key(r) == key ==> r.now - t < WINDOW)
  {
    assert forall x :: x in [r] + after <==> x == r || x in after;
  }

  lemma {:induction false} KeepStep(log: seq<real>, r: Request, after: seq<Request>, key: string)
    ensures KeepUnexpired(log, [r] + after, key) ==
            KeepUnexpired(if Key(r) == key then Prune(log, r.now) else log, after, key)
  {
    if log == [] {
    } else {
      var init, last := log[..|log| - 1], log[|log| - 1];
      KeepStep(init, r, after, key);
      UnexpiredStep(last, r, after, key);
      KeepAppend(Prune(init, r.now), last, after, key);
    }
  }

  lemma {:induction false} SurvivingOfLog(perMinute: int, reqs: seq<Request>, after: seq<Request>, key: string)
    ensures Surviving(perMinute, reqs, after, key) ==
            KeepUnexpired(LogAt(LogsAfter(perMinute, reqs), key), after, key)
  {
    if reqs == [] {
    } else {
      var init, r := reqs[..|reqs| - 1], reqs[|reqs| - 1];
      var log := LogAt(LogsAfter(perMinute, init), key);
      assert reqs == init + [r];
      SurvivingOfLog(perMinute, init, [r] + after, key);
      KeepStep(log, r, after, key);
      LastLog(perMinute, init, r, key);
      KeepAppend(Prune(log, r.now), r.now, after, key);
    }
  }

  /** Whatever the clock does, the stored log holds exactly the admitted times that no later request on
      the key found a window old. */
  lemma LogIsSurviving(perMinute: int, reqs: seq<Request>, key: string)
    ensures LogAt(LogsAfter(perMinute, reqs), key) == Surviving(perMinute, reqs, [], key)
  {
    SurvivingOfLog(perMinute, reqs, [], key);
    KeepAll(LogAt(LogsAfter(perMinute, reqs), key), key);
  }

  /** Whatever the clock does, a request is admitted exactly when fewer than the limit of the admitted
      times on its key were found recent by every request since, itself included. */
  lemma DecisionExactly(perMinute: int, reqs: seq<Request>, r: Request)
    ensures Admits(perMinute, reqs, r) <==>
            |Surviving(perMinute, reqs, [r], Key(r))| < LimitOf(perMinute, r.endpoint)
  {
    var log := LogAt(LogsAfter(perMinute, reqs), Key(r));
    SurvivingOfLog(perMinute, reqs, [r], Key(r));
    assert [r] + [] == [r];
    KeepStep(log, r, [], Key(r));
    KeepAll(Prune(log, r.now), Key(r));
  }

  /** How many admissions on the key of `r` are recent for `r`, but were found old by a request after
      them, in the run or in `mid`. */
  function Forgotten(perMinute: int, reqs: seq<Request>, mid: seq<Request>, r: Request): nat
  {
    if reqs == [] then 0
    else
      var init, last := reqs[..|reqs| - 1], reqs[|reqs| - 1];
      Forgotten(perMinute, init, [last] + mid, r) +
      if Key(last) == Key(r) && Admits(perMinute, init, last)
         && r.now - last.now < WINDOW && !Unexpired(last.now, mid, Key(r)) then 1 else 0
  }

  /** The recent admissions are those that survive and those that are forgotten. */
  lemma {:induction false} RecentSplits(perMinute: int, reqs: seq<Request>, mid: seq<Request>, r: Request)
    ensures CountRecent(Admitted(perMinute, reqs), Key(r), r.now) ==
            |Surviving(perMinute, reqs, mid + [r], Key(r))| + Forgotten(perMinute, reqs, mid, r)
  {
    if reqs == [] {
    } else {
      var init, last := reqs[..|reqs| - 1], reqs[|reqs| - 1];
      RecentSplits(perMinute, init, [last] + mid, r);
      assert ([last] + mid) + [r] == [last] + (mid + [r]);
      assert Unexpired(last.now, mid + [r], Key(r)) <==>
             Unexpired(last.now, mid, Key(r)) && r.now - last.now < WINDOW by {
        assert forall x :: x in mid + [r] <==> x in mid || x == r;
      }
    }
  }

  /** A request that finds the limit reached, but only when forgotten admissions are counted too. */
  predicate Slips(perMinute: int, reqs: seq<Request>, r: Request)
  {
    var recent := CountRecent(Admitted(perMinute, reqs), Key(r), r.now);
    recent - Forgotten(perMinute, reqs, [], r) < LimitOf(perMinute, r.endpoint) <= recent
  }

  /** Whatever the clock does, the limiter decides a request as counting all its recent admissions
      would, exactly unless the request slips; and when they differ, it is the limiter that admits. */
  lemma AgreesExactly(perMinute: int, reqs: seq<Request>, r: Request)
    ensures (Admits(perMinute, reqs, r) <==> PlainAdmits(perMinute, Admitted(perMinute, reqs), r)) <==>
            !Slips(perMinute, reqs, r)
    ensures PlainAdmits(perMinute, Admitted(perMinute, reqs), r) ==> Admits(perMinute, reqs, r)
  {
    DecisionExactly(perMinute, reqs, r);
    RecentSplits(perMinute, reqs, [], r);
    assert [] + [r] == [r];
  }

  predicate NeverSlips(perMinute: int, reqs: seq<Request>)
  {
    reqs == [] ||
    (var init, r := reqs[..|reqs| - 1], reqs[|reqs| - 1];
     NeverSlips(perMinute, init) && !Slips(perMinute, init, r))
  }

  /** The limiter and the one that never forgets answer every request of a run alike, each by its own
      record. */
  predicate SameDecisions(perMinute: int, reqs: seq<Request>)
  {
    reqs == [] ||
    (var init, r := reqs[..|reqs| - 1], reqs[|reqs| - 1];
     && SameDecisions(perMinute, init)
     && (Admits(perMinute, init, r) <==> PlainAdmits(perMinute, PlainHistory(perMinute, init), r)))
  }

  /** Over any run, with any clock, the two limiters answer every request alike exactly when no request
      slips; they then admit the same requests. */
  lemma {:induction false} SameDecisionsExactly(perMinute: int, reqs: seq<Request>)
    ensures SameDecisions(perMinute, reqs) <==> NeverSlips(perMinute, reqs)
    ensures SameDecisions(perMinute, reqs) ==> Admitted(perMinute, reqs) == PlainHistory(perMinute, reqs)
  {
    if reqs == [] {
    } else {
      var init, r := reqs[..|reqs| - 1], reqs[|reqs| - 1];
      SameDecisionsExactly(perMinute, init);
      AgreesExactly(perMinute, init, r);
    }
  }

  /** A request that is not earlier than any other on its key finds nothing forgotten. */
  lemma {:induction false} NothingForgotten(perMinute: int, reqs: seq<Request>, mid: seq<Request>, r: Request)
    requires forall x :: x in reqs + mid && Key(x) == Key(r) ==> x.now <= r.now
    ensures Forgotten(perMinute, reqs, mid, r) == 0
  {
    if reqs == [] {
    } else {
      var init, last := reqs[..|reqs| - 1], reqs[|reqs| - 1];
      assert reqs + mid == init + ([last] + mid);
      NothingForgotten(perMinute, init, [last] + mid, r);
      assert forall x :: x in mid ==> x in reqs + mid;
    }
  }

  lemma {:induction false} MonotoneNeverSlips(perMinute: int, reqs: seq<Request>)
    requires Monotone(reqs)
    ensures NeverSlips(perMinute, reqs)
  {
    if reqs == [] {
    } else {
      var init, r := reqs[..|reqs| - 1], reqs[|reqs| - 1];
      MonotoneNeverSlips(perMinute, init);
      assert init + [] == init;
      NothingForgotten(perMinute, init, [], r);
    }
  }

  /** Over a run in which time does not go back the two limiters admit the same requests. */
  lemma SameAdmissions(perMinute: int, reqs: seq<Request>)
    requires Monotone(reqs)
    ensures SameDecisions(perMinute, reqs)
    ensures Admitted(perMinute, reqs) == PlainHistory(perMinute, reqs)
  {
    MonotoneNeverSlips(perMinute, reqs);
    SameDecisionsExactly(perMinute, reqs);
  }

  /** As long as time does not go back, the limiter decides every request as the one that never
      forgets: it admits exactly when fewer than the limit were admitted on the key in the last
      sixty seconds. */
  lemma RefinesPlainLimiter(perMinute: int, reqs: seq<Request>, r: Request)
    requires Monotone(reqs + [r])
    ensures Admits(perMinute, reqs, r) <==> PlainAdmits(perMinute, PlainHistory(perMinute, reqs), r)
  {
    var all := reqs + [r];
    assert all[..|reqs|] == reqs;
    SameAdmissions(perMinute, all);
  }

  /** When the clock steps back, forgetting shows: of requests at seconds 0, 30, 100 and then 40 with
      a limit of two, the limiter admits the last, the one that never forgets does not. */
  lemma SteppingBackAdmitsMore(ip: string)
    ensures var reqs := [Request(ip, "/", 0.0), Request(ip, "/", 30.0), Request(ip, "/", 100.0)];
            var r := Request(ip, "/", 40.0);
            Admits(2, reqs, r) && !PlainAdmits(2, PlainHistory(2, reqs), r)
  {
    var a, b, c := Request(ip, "/", 0.0), Request(ip, "/", 30.0), Request(ip, "/", 100.0);
    LogStepsBack(a, b, c, Key(a));
    HistoryStepsBack(a, b, c, Key(a));
    assert [] + [a] + [b] + [c] == [a, b, c];
  }

  lemma LogStepsBack(a: Request, b: Request, c: Request, key: string)
    requires a.now == 0.0 && b.now == 30.0 && c.now == 100.0
    requires Key(a) == Key(b) == Key(c) == key && a.endpoint == b.endpoint == c.endpoint == "/"
    ensures |Prune(LogAt(LogsAfter(2, [] + [a] + [b] + [c]), key), 40.0)| == 1
  {
    LastLog(2, [], a, key);
    LastLog(2, [] + [a], b, key);
    PruneAppend([], 0.0, 30.0);
    LastLog(2, [] + [a] + [b], c, key);
    PruneAppend([], 0.0, 100.0);
    PruneAppend([] + [0.0], 30.0, 100.0);
    PruneAppend([], 100.0, 40.0);
  }

  lemma HistoryStepsBack(a: Request, b: Request, c: Request, key: string)
    requires a.now == 0.0 && b.now == 30.0 && c.now == 100.0
    requires Key(a) == Key(b) == Key(c) == key && a.endpoint == b.endpoint == c.endpoint == "/"
    ensures CountRecent(PlainHistory(2, [] + [a] + [b] + [c]), key, 40.0) == 3
  {
    LastAdmission(2, [], a, key);
    LastAdmission(2, [] + [a], b, key);
    PruneAppend([], 0.0, 30.0);
    LastAdmission(2, [] + [a] + [b], c, key);
    PruneAppend([], 0.0, 100.0);
    PruneAppend([] + [0.0], 30.0, 100.0);
    PruneAppend([], 0.0, 40.0);
    PruneAppend([] + [0.0], 30.0, 40.0);
    PruneAppend([] + [0.0] + [30.0], 100.0, 40.0);
    CountIsPruned(PlainHistory(2, [] + [a] + [b] + [c]), key, 40.0);
  }

  // ---------------------------------------------------------------------------------------------
  // The bound
  // ---------------------------------------------------------------------------------------------

  /** All requests of a run on one key are held to at most `limit`. */
  ghost predicate HeldTo(perMinute: int, reqs: seq<Request>, key: string, limit: nat)
  {
    forall r :: r in reqs && Key(r) == key ==> LimitOf(perMinute, r.endpoint) <= limit
  }

  /** The times admitted on a key, in the order of admission. */
  function AdmissionTimes(perMinute: int, reqs: seq<Request>, key: string): seq<real>
  {
    TimesOn(Admitted(perMinute, reqs), key)
  }

  /** No request on the key slips. */
  predicate NeverSlipsOn(perMinute: int, reqs: seq<Request>, key: string)
  {
    reqs == [] ||
    (var init, r := reqs[..|reqs| - 1], reqs[|reqs| - 1];
     NeverSlipsOn(perMinute, init, key) && (Key(r) == key ==> !Slips(perMinute, init, r)))
  }

  lemma {:induction false} NeverSlipsOnAny(perMinute: int, reqs: seq<Request>, key: string)
    requires NeverSlips(perMinute, reqs)
    ensures NeverSlipsOn(perMinute, reqs, key)
  {
    if reqs == [] {
    } else {
      NeverSlipsOnAny(perMinute, reqs[..|reqs| - 1], key);
    }
  }

  /** Fewer than `limit` of the times before any time are recent for it. */
  ghost predicate Thin(times: seq<real>, limit: nat)
  {
    forall j: nat :: j < |times| ==> |Prune(times[..j], times[j])| < limit
  }

  lemma ThinAppend(times: seq<real>, now: real, limit: nat)
    ensures Thin(times + [now], limit) <==> Thin(times, limit) && |Prune(times, now)| < limit
  {
    var all := times + [now];
    assert all[..|times|] == times && all[|times|] == now;
    forall j: nat | j < |times| ensures all[..j] == times[..j] && all[j] == times[j] {}
    if Thin(all, limit) {
      forall j: nat | j < |times| ensures |Prune(times[..j], times[j])| < limit {
        assert |Prune(all[..j], all[j])| < limit;
      }
      assert |Prune(all[..|times|], all[|times|])| < limit;
    }
  }

  lemma AdmissionAppend(perMinute: int, init: seq<Request>, r: Request, key: string)
    ensures AdmissionTimes(perMinute, init + [r], key) ==
            if Key(r) == key && Admits(perMinute, init, r) then AdmissionTimes(perMinute, init, key) + [r.now]
            else AdmissionTimes(perMinute, init, key)
  {
    assert (init + [r])[..|init|] == init;
    TimesAppend(Admitted(perMinute, init), r, key);
  }

  /** An admission that does not slip finds fewer than its limit recent; one that slips does not. */
  lemma RecentWhenAdmitted(perMinute: int, init: seq<Request>, r: Request)
    requires Admits(perMinute, init, r)
    ensures |Prune(AdmissionTimes(perMinute, init, Key(r)), r.now)| < LimitOf(perMinute, r.endpoint) <==>
            !Slips(perMinute, init, r)
  {
    AgreesExactly(perMinute, init, r);
    CountIsPruned(Admitted(perMinute, init), Key(r), r.now);
  }

  lemma RefusedNeverSlips(perMinute: int, init: seq<Request>, r: Request)
    requires !Admits(perMinute, init, r)
    ensures !Slips(perMinute, init, r)
  {
    AgreesExactly(perMinute, init, r);
  }

  /** Whatever the clock does: if no request on the key slips, each admission finds fewer than the limit
      of those before it recent. */
  lemma {:induction false} AdmissionsAreThin(perMinute: int, reqs: seq<Request>, key: string, limit: nat)
    requires NeverSlipsOn(perMinute, reqs, key) && HeldTo(perMinute, reqs, key, limit)
    ensures Thin(AdmissionTimes(perMinute, reqs, key), limit)
  {
    if reqs == [] {
    } else {
      var init, r := reqs[..|reqs| - 1], reqs[|reqs| - 1];
      assert r in reqs && forall x :: x in init ==> x in reqs;
      assert reqs == init + [r];
      AdmissionsAreThin(perMinute, init, key, limit);
      AdmissionAppend(perMinute, init, r, key);
      if Key(r) == key && Admits(perMinute, init, r) {
        RecentWhenAdmitted(perMinute, init, r);
        ThinAppend(AdmissionTimes(perMinute, init, key), r.now, limit);
      }
    }
  }

  /** And only then, when every request on the key has that very limit. */
  lemma {:induction false} ThinExactly(perMinute: int, reqs: seq<Request>, key: string, limit: nat)
    requires forall r :: r in reqs && Key(r) == key ==> LimitOf(perMinute, r.endpoint) == limit
    ensures Thin(AdmissionTimes(perMinute, reqs, key), limit) <==> NeverSlipsOn(perMinute, reqs, key)
  {
    if reqs == [] {
    } else {
      var init, r := reqs[..|reqs| - 1], reqs[|reqs| - 1];
      assert r in reqs && forall x :: x in init ==> x in reqs;
      assert reqs == init + [r];
      ThinExactly(perMinute, init, key, limit);
      AdmissionAppend(perMinute, init, r, key);
      if Key(r) == key && Admits(perMinute, init, r) {
        RecentWhenAdmitted(perMinute, init, r);
        ThinAppend(AdmissionTimes(perMinute, init, key), r.now, limit);
      } else if Key(r) == key {
        RefusedNeverSlips(perMinute, init, r);
      }
    }
  }

  /** The admissions in the interval that excludes `lo` and includes `hi`, by position in the log. */
  function Within(times: seq<real>, lo: real, hi: real): set<nat>
  {
    set i: nat | i < |times| && lo < times[i] <= hi
  }

  /** The admissions in the interval that includes `lo` and excludes `hi`. */
  function WithinFrom(times: seq<real>, lo: real, hi: real): set<nat>
  {
    set i: nat | i < |times| && lo <= times[i] < hi
  }

  function Ceil(x: real): int
  {
    -((-x).Floor)
  }

  lemma {:induction false} Greatest(s: set<nat>, bound: nat) returns (j: nat)
    requires s != {} && forall k :: k in s ==> k < bound
    ensures j in s && forall k :: k in s ==> k <= j
  {
    if bound - 1 in s {
      j := bound - 1;
    } else {
      j := Greatest(s, bound - 1);
    }
  }

  /** Positions of recent times are no more than the recent times. */
  lemma {:induction false} RecentPositions(log: seq<real>, now: real, s: set<nat>)
    requires forall k :: k in s ==> k < |log| && now - log[k] < WINDOW
    ensures |s| <= |Prune(log, now)|
  {
    if log == [] {
      assert s == {};
    } else {
      var n := |log| - 1;
      var rest := s - {n};
      RecentPositions(log[..n], now, rest);
      if n in s { assert s == rest + {n}; } else { assert s == rest; }
    }
  }

  /** Admissions that all lie less than a window apart are at most `limit`. */
  lemma ShortBound(times: seq<real>, limit: nat, s: set<nat>)
    requires Thin(times, limit) && forall k :: k in s ==> k < |times|
    requires forall i, j :: i in s && j in s ==> times[j] - times[i] < WINDOW
    ensures |s| <= limit
  {
    if s != {} {
      var j := Greatest(s, |times|);
      RecentPositions(times[..j], times[j], s - {j});
      assert |Prune(times[..j], times[j])| < limit;
    }
  }

  lemma UnionBound(a: set<nat>, b: set<nat>)
    ensures |a + b| <= |a| + |b|
  {
    assert a + b == a + (b - a);
    assert b == (b - a) + (b * a);
  }

  lemma {:induction false} Subset(a: set<nat>, b: set<nat>)
    requires a <= b
    ensures |a| <= |b|
    decreases a
  {
    if a == {} {
    } else {
      var x :| x in a;
      Subset(a - {x}, b - {x});
    }
  }

  lemma CoverStep(times: seq<real>, lo: real, mid: real, hi: real)
    ensures |Within(times, lo, hi)| <= |Within(times, lo, mid)| + |Within(times, mid, hi)|
    ensures |WithinFrom(times, lo, hi)| <= |WithinFrom(times, lo, mid)| + |WithinFrom(times, mid, hi)|
  {
    Subset(Within(times, lo, hi), Within(times, lo, mid) + Within(times, mid, hi));
    UnionBound(Within(times, lo, mid), Within(times, mid, hi));
    Subset(WithinFrom(times, lo, hi), WithinFrom(times, lo, mid) + WithinFrom(times, mid, hi));
    UnionBound(WithinFrom(times, lo, mid), WithinFrom(times, mid, hi));
  }

  lemma ShortInterval(times: seq<real>, limit: nat, lo: real)
    requires Thin(times, limit)
    ensures |Within(times, lo, lo + WINDOW)| <= limit && |WithinFrom(times, lo, lo + WINDOW)| <= limit
  {
    ShortBound(times, limit, Within(times, lo, lo + WINDOW));
    ShortBound(times, limit, WithinFrom(times, lo, lo + WINDOW));
  }

  lemma OneWindowLess(lo: real, hi: real, limit: nat, m: nat)
    requires m > 0 && hi - lo <= WINDOW * (m as real)
    ensures hi - (lo + WINDOW) <= WINDOW * ((m - 1) as real)
    ensures limit * m == limit + limit * (m - 1)
  {
    assert (m as real) == ((m - 1) as real) + 1.0;
  }

  /** An interval covered by `m` windows holds at most `m` times the limit. */
  lemma {:induction false} CoverBound(times: seq<real>, limit: nat, lo: real, hi: real, m: nat)
    requires Thin(times, limit) && hi - lo <= WINDOW * (m as real)
    ensures |Within(times, lo, hi)| <= limit * m && |WithinFrom(times, lo, hi)| <= limit * m
    decreases m
  {
    if m == 0 {
      assert Within(times, lo, hi) == {} && WithinFrom(times, lo, hi) == {};
    } else {
      OneWindowLess(lo, hi, limit, m);
      CoverBound(times, limit, lo + WINDOW, hi, m - 1);
      ShortInterval(times, limit, lo);
      CoverStep(times, lo, lo + WINDOW, hi);
    }
  }

  /** In every run, whatever the clock does, the requests admitted on a key on which none slips number in
      any half-open interval, open on either side, at most the limit for each window it takes to cover
      the interval. */
  lemma WindowBound(perMinute: int, reqs: seq<Request>, key: string, limit: nat, lo: real, hi: real)
    requires NeverSlipsOn(perMinute, reqs, key) && HeldTo(perMinute, reqs, key, limit) && lo <= hi
    ensures |Within(AdmissionTimes(perMinute, reqs, key), lo, hi)| <= limit * Ceil((hi - lo) / WINDOW)
    ensures |WithinFrom(AdmissionTimes(perMinute, reqs, key), lo, hi)| <= limit * Ceil((hi - lo) / WINDOW)
  {
    AdmissionsAreThin(perMinute, reqs, key, limit);
    CoverBound(AdmissionTimes(perMinute, reqs, key), limit, lo, hi, Ceil((hi - lo) / WINDOW));
  }

  /** In particular at most the limit in any sixty seconds. */
  lemma MinuteBound(perMinute: int, reqs: seq<Request>, key: string, limit: nat, t: real)
    requires NeverSlipsOn(perMinute, reqs, key) && HeldTo(perMinute, reqs, key, limit)
    ensures |Within(AdmissionTimes(perMinute, reqs, key), t - WINDOW, t)| <= limit
    ensures |WithinFrom(AdmissionTimes(perMinute, reqs, key), t - WINDOW, t)| <= limit
  {
    var times := AdmissionTimes(perMinute, reqs, key);
    AdmissionsAreThin(perMinute, reqs, key, limit);
    ShortInterval(times, limit, t - WINDOW);
    assert t - WINDOW + WINDOW == t;
  }

  /** No request slips, and so the bounds hold, in every run in which time does not go back. */
  lemma MonotoneWindowBound(perMinute: int, reqs: seq<Request>, key: string, limit: nat, lo: real, hi: real)
    requires Monotone(reqs) && HeldTo(perMinute, reqs, key, limit) && lo <= hi
    ensures NeverSlipsOn(perMinute, reqs, key)
    ensures |Within(AdmissionTimes(perMinute, reqs, key), lo, hi)| <= limit * Ceil((hi - lo) / WINDOW)
    ensures |WithinFrom(AdmissionTimes(perMinute, reqs, key), lo, hi)| <= limit * Ceil((hi - lo) / WINDOW)
  {
    MonotoneNeverSlips(perMinute, reqs);
    NeverSlipsOnAny(perMinute, reqs, key);
    WindowBound(perMinute, reqs, key, limit, lo, hi);
  }

  ghost predicate Sorted(times: seq<real>)
  {
    forall i, j :: 0 <= i < j < |times| ==> times[i] <= times[j]
  }

  /** Any time and the one `limit` places further on are at least a window apart. */
  ghost predicate Spaced(times: seq<real>, limit: nat)
  {
    forall i, j :: 0 <= i && j == i + limit < |times| ==> times[j] - times[i] >= WINDOW
  }

  lemma {:induction false} AdmissionsNotAfter(perMinute: int, reqs: seq<Request>, key: string, now: real)
    requires forall r :: r in reqs ==> r.now <= now
    ensures var times := AdmissionTimes(perMinute, reqs, key);
            forall i :: 0 <= i < |times| ==> times[i] <= now
  {
    if reqs == [] {
    } else {
      var init, r := reqs[..|reqs| - 1], reqs[|reqs| - 1];
      assert r in reqs && forall x :: x in init ==> x in reqs;
      assert reqs == init + [r];
      AdmissionsNotAfter(perMinute, init, key, now);
      AdmissionAppend(perMinute, init, r, key);
    }
  }

  lemma {:induction false} AdmissionsAreSorted(perMinute: int, reqs: seq<Request>, key: string)
    requires Monotone(reqs)
    ensures Sorted(AdmissionTimes(perMinute, reqs, key))
  {
    if reqs == [] {
    } else {
      var init, r := reqs[..|reqs| - 1], reqs[|reqs| - 1];
      assert reqs == init + [r];
      AdmissionsAreSorted(perMinute, init, key);
      AdmissionsNotAfter(perMinute, init, key, r.now);
      AdmissionAppend(perMinute, init, r, key);
    }
  }

  /** Of a sorted log, the recent times are the last ones. */
  lemma {:induction false} FewRecent(times: seq<real>, now: real, i: nat)
    requires Sorted(times) && i < |times| && now - times[i] < WINDOW
    ensures |Prune(times, now)| >= |times| - i
  {
    var init, last := times[..|times| - 1], times[|times| - 1];
    if i == |init| {
    } else {
      FewRecent(init, now, i);
    }
  }

  /** When time does not go back, admissions that lie `limit` apart in order are a window apart in time. */
  lemma AdmissionsAreSpaced(perMinute: int, reqs: seq<Request>, key: string, limit: nat)
    requires Monotone(reqs) && HeldTo(perMinute, reqs, key, limit)
    ensures Sorted(AdmissionTimes(perMinute, reqs, key)) && Spaced(AdmissionTimes(perMinute, reqs, key), limit)
  {
    MonotoneNeverSlips(perMinute, reqs);
    NeverSlipsOnAny(perMinute, reqs, key);
    AdmissionsAreThin(perMinute, reqs, key, limit);
    AdmissionsAreSorted(perMinute, reqs, key);
    ThinIsSpaced(AdmissionTimes(perMinute, reqs, key), limit);
  }

  lemma ThinIsSpaced(times: seq<real>, limit: nat)
    requires Sorted(times) && Thin(times, limit)
    ensures Spaced(times, limit)
  {
    forall i, j | 0 <= i && j == i + limit < |times| ensures times[j] - times[i] >= WINDOW {
      assert |Prune(times[..j], times[j])| < limit;
      if limit > 0 && times[j] - times[i] < WINDOW {
        FewRecent(times[..j], times[j], i);
      }
    }
  }

  // ---------------------------------------------------------------------------------------------
  // Stored logs and keys
  // ---------------------------------------------------------------------------------------------

  lemma {:induction false} PruneShrinks(log: seq<real>, now: real)
    ensures |Prune(log, now)| <= |log|
  {
    if log == [] {
    } else {
      PruneShrinks(log[..|log| - 1], now);
    }
  }

  /** No stored log grows beyond its limit, whatever the clock does. */
  lemma {:induction false} LogsStayWithinLimit(perMinute: int, reqs: seq<Request>, key: string, limit: nat)
    requires HeldTo(perMinute, reqs, key, limit)
    ensures |LogAt(LogsAfter(perMinute, reqs), key)| <= limit
  {
    if reqs == [] {
    } else {
      var init, r := reqs[..|reqs| - 1], reqs[|reqs| - 1];
      assert r in reqs && forall x :: x in init ==> x in reqs;
      LogsStayWithinLimit(perMinute, init, key, limit);
      PruneShrinks(LogAt(LogsAfter(perMinute, init), key), r.now);
    }
  }

  function OnKey(reqs: seq<Request>, key: string): seq<Request>
  {
    if reqs == [] then []
    else
      var init, last := reqs[..|reqs| - 1], reqs[|reqs| - 1];
      if Key(last) == key then OnKey(init, key) + [last] else OnKey(init, key)
  }

  lemma {:induction false} OtherKeysLeaveLog(perMinute: int, reqs: seq<Request>, key: string)
    ensures LogAt(LogsAfter(perMinute, reqs), key) == LogAt(LogsAfter(perMinute, OnKey(reqs, key)), key)
  {
    if reqs == [] {
    } else {
      var init, r := reqs[..|reqs| - 1], reqs[|reqs| - 1];
      OtherKeysLeaveLog(perMinute, init, key);
      if Key(r) == key {
        var mine := OnKey(init, key);
        assert (mine + [r])[..|mine|] == mine;
      }
    }
  }

  /** Requests on other keys never change a decision. */
  lemma KeysAreIndependent(perMinute: int, reqs: seq<Request>, r: Request)
    ensures Admits(perMinute, reqs, r) <==> Admits(perMinute, OnKey(reqs, Key(r)), r)
  {
    OtherKeysLeaveLog(perMinute, reqs, Key(r));
  }

  /** An address has no slash in it, and an endpoint begins with one. */
  predicate WellFormed(r: Request)
  {
    '/' !in r.ip && r.endpoint != [] && r.endpoint[0] == '/'
  }

  lemma ShorterAddress(a: Request, b: Request)
    requires '/' !in b.ip && a.endpoint != [] && a.endpoint[0] == '/' && |a.ip| < |b.ip|
    ensures Key(a) != Key(b)
  {
    var n := |a.ip| + 1;
    assert Key(a)[n] == '/';
    assert Key(b)[n] == (b.ip + ":")[n] != '/';
  }

  /** Requests share a key only when they share address and endpoint, given that addresses contain no
      slash and endpoints begin with one; so each key has one limit. */
  lemma KeysDoNotCollide(a: Request, b: Request)
    requires WellFormed(a) && WellFormed(b)
    ensures Key(a) == Key(b) <==> a.ip == b.ip && a.endpoint == b.endpoint
  {
    if |a.ip| < |b.ip| {
      ShorterAddress(a, b);
    } else if |b.ip| < |a.ip| {
      ShorterAddress(b, a);
    } else {
      var n := |a.ip|;
      assert a.ip == Key(a)[..n] && b.ip == Key(b)[..n];
      assert a.endpoint == Key(a)[n + 1..] && b.endpoint == Key(b)[n + 1..];
    }
  }

  /** So the bound holds for one address and one endpoint, with the limit of that endpoint: ten a minute
      for the sensitive ones and the configured number for the others. */
  lemma EndpointBound(perMinute: nat, reqs: seq<Request>, r: Request, lo: real, hi: real)
    requires NeverSlipsOn(perMinute, reqs, Key(r)) && lo <= hi
    requires WellFormed(r) && forall x :: x in reqs ==> WellFormed(x)
    ensures |Within(AdmissionTimes(perMinute, reqs, Key(r)), lo, hi)| <=
            LimitOf(perMinute, r.endpoint) * Ceil((hi - lo) / WINDOW)
    ensures |WithinFrom(AdmissionTimes(perMinute, reqs, Key(r)), lo, hi)| <=
            LimitOf(perMinute, r.endpoint) * Ceil((hi - lo) / WINDOW)
  {
    forall x | x in reqs && Key(x) == Key(r) ensures x.endpoint == r.endpoint { KeysDoNotCollide(x, r); }
    WindowBound(perMinute, reqs, Key(r), LimitOf(perMinute, r.endpoint), lo, hi);
  }

  // ---------------------------------------------------------------------------------------------
  // In numbers
  // ---------------------------------------------------------------------------------------------

  /** The three endpoints of authentication. */
  predicate Authenticates(endpoint: string)
  {
    endpoint == "/api/v1/auth/login" || endpoint == "/api/v1/auth/register" || endpoint == "/api/v1/auth/refresh"
  }

  /** Ten requests a minute on those, whatever is configured, and the configured number elsewhere. */
  lemma LimitInNumbers(perMinute: int, endpoint: string)
    ensures LimitOf(perMinute, endpoint) == if Authenticates(endpoint) then 10 else perMinute
  {
  }

  /** The admitted requests of a run on a key that every later request on it, in the run or in `after`,
      found less than sixty seconds old, by position. */
  ghost function RecentAdmissions(perMinute: int, reqs: seq<Request>, after: seq<Request>, key: string): set<nat>
  {
    set i: nat | i < |reqs| && Key(reqs[i]) == key && Admits(perMinute, reqs[..i], reqs[i])
                 && (forall j :: i < j < |reqs| && Key(reqs[j]) == key ==> reqs[j].now - reqs[i].now < 60.0)
                 && (forall x :: x in after && Key(x) == key ==> x.now - reqs[i].now < 60.0)
  }

  lemma RecentAdmissionsAppend(perMinute: int, init: seq<Request>, r: Request, after: seq<Request>, key: string)
    ensures RecentAdmissions(perMinute, init + [r], after, key) ==
            RecentAdmissions(perMinute, init, [r] + after, key) +
            if Key(r) == key && Admits(perMinute, init, r) && Unexpired(r.now, after, key) then {|init|} else {}
  {
    var reqs := init + [r];
    var before := RecentAdmissions(perMinute, init, [r] + after, key);
    assert forall x :: x in [r] + after <==> x == r || x in after;
    forall i: nat | i < |init|
      ensures i in RecentAdmissions(perMinute, reqs, after, key) <==> i in before
    {
      assert reqs[..i] == init[..i] && reqs[i] == init[i] && reqs[|init|] == r;
      if i in before {
        assert r in [r] + after;
        forall j | i < j < |reqs| && Key(reqs[j]) == key ensures reqs[j].now - reqs[i].now < 60.0 {
          assert j < |init| ==> reqs[j] == init[j];
        }
      }
      if i in RecentAdmissions(perMinute, reqs, after, key) {
        forall j | i < j < |init| && Key(init[j]) == key ensures init[j].now - init[i].now < 60.0 {
          assert reqs[j] == init[j];
        }
      }
    }
    assert reqs[..|init|] == init;
  }

  lemma {:induction false} CountSurviving(perMinute: int, reqs: seq<Request>, after: seq<Request>, key: string)
    ensures |Surviving(perMinute, reqs, after, key)| == |RecentAdmissions(perMinute, reqs, after, key)|
  {
    if reqs == [] {
    } else {
      var init, r := reqs[..|reqs| - 1], reqs[|reqs| - 1];
      assert reqs == init + [r];
      CountSurviving(perMinute, init, [r] + after, key);
      RecentAdmissionsAppend(perMinute, init, r, after, key);
      assert |init| !in RecentAdmissions(perMinute, init, [r] + after, key);
    }
  }

  /** Whatever the clock does, a request is admitted exactly when fewer than ten, or the configured number,
      of the admitted ones on its key are less than sixty seconds old and were found so ever since. */
  lemma DecisionInNumbers(perMinute: int, reqs: seq<Request>, r: Request)
    ensures Admits(perMinute, reqs, r) <==>
            |RecentAdmissions(perMinute, reqs, [r], Key(r))| < if Authenticates(r.endpoint) then 10 else perMinute
  {
    DecisionExactly(perMinute, reqs, r);
    CountSurviving(perMinute, reqs, [r], Key(r));
    LimitInNumbers(perMinute, r.endpoint);
  }

  /** One address reaches an endpoint of authentication at most ten times in any sixty seconds, and any
      other at most as often as configured. */
  lemma MinuteInNumbers(perMinute: int, reqs: seq<Request>, r: Request, t: real)
    requires NeverSlipsOn(perMinute, reqs, Key(r)) && WellFormed(r) && forall x :: x in reqs ==> WellFormed(x)
    ensures var times := AdmissionTimes(perMinute, reqs, Key(r));
            var most := if Authenticates(r.endpoint) then 10 else if perMinute < 0 then 0 else perMinute;
            |Within(times, t - 60.0, t)| <= most && |WithinFrom(times, t - 60.0, t)| <= most
  {
    var most := if Authenticates(r.endpoint) then 10 else if perMinute < 0 then 0 else perMinute;
    forall x | x in reqs && Key(x) == Key(r) ensures LimitOf(perMinute, x.endpoint) <= most {
      KeysDoNotCollide(x, r);
      LimitInNumbers(perMinute, x.endpoint);
    }
    MinuteBound(perMinute, reqs, Key(r), most, t);
  }

  /** The same in plain terms for a clock that does not go back. */
  lemma MonotoneMinuteInNumbers(perMinute: int, reqs: seq<Request>, r: Request, t: real)
    requires Monotone(reqs) && WellFormed(r) && forall x :: x in reqs ==> WellFormed(x)
    ensures var times := AdmissionTimes(perMinute, reqs, Key(r));
            var most := if Authenticates(r.endpoint) then 10 else if perMinute < 0 then 0 else perMinute;
            |Within(times, t - 60.0, t)| <= most && |WithinFrom(times, t - 60.0, t)| <= most
  {
    MonotoneNeverSlips(perMinute, reqs);
    NeverSlipsOnAny(perMinute, reqs, Key(r));
    MinuteInNumbers(perMinute, reqs, r, t);
  }
}
