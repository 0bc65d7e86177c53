/**
 The sliding-window send limit as a pure specification: one user's attempt log, one
 attempt against it, and what whole runs of attempts guarantee. The window is a
 parameter, because the in-memory limiter counts nanoseconds and the Redis one
 milliseconds.
 */
module SlidingWindow {

  /** MessageRateLimitCount. */
  const LIMIT: nat := 10

  datatype Outcome = Outcome(admitted: bool, log: seq<int>)

  /** The entries of `log` strictly later than `cutoff`, in order. */
  function Recent(log: seq<int>, cutoff: int): (r: seq<int>)
    ensures |r| <= |log|
  {
    if log == [] then []
    else
      var rest := Recent(log[..|log| - 1], cutoff);
      if log[|log| - 1] > cutoff then rest + [log[|log| - 1]] else rest
  }

  /** One attempt: drop what has left the window, then admit if fewer than LIMIT remain. */
  function Attempt(log: seq<int>, now: int, window: int): Outcome {
    var recent := Recent(log, now - window);
    if |recent| >= LIMIT then Outcome(false, recent) else Outcome(true, recent + [now])
  }

  /** The log that attempt number `n` of a run finds. */
  function LogBefore(ts: seq<int>, n: nat, window: int): seq<int>
    requires n <= |ts|
  {
    if n == 0 then [] else Attempt(LogBefore(ts, n - 1, window), ts[n - 1], window).log
  }

  predicate Admitted(ts: seq<int>, n: nat, window: int)
    requires n < |ts|
  {
    Attempt(LogBefore(ts, n, window), ts[n], window).admitted
  }

  /** The decisions of a whole run, one per attempt. */
  function Decisions(ts: seq<int>, window: int): (d: seq<bool>)
    ensures |d| == |ts|
  {
    seq(|ts|, i requires 0 <= i < |ts| => Admitted(ts, i, window))
  }

  /** The times picked among the first `n` requests, in order. */
  function Chosen(picks: seq<bool>, ts: seq<int>, n: nat): seq<int>
    requires n <= |picks| == |ts|
  {
    if n == 0 then []
    else if picks[n - 1] then Chosen(picks, ts, n - 1) + [ts[n - 1]]
    else Chosen(picks, ts, n - 1)
  }

  /** One user's admission history. */
  function History(ts: seq<int>, n: nat, window: int): seq<int>
    requires n <= |ts|
  {
    Chosen(Decisions(ts, window), ts, n)
  }

  ghost predicate Nondecreasing(ts: seq<int>) {
    forall i, j | 0 <= i <= j < |ts| :: ts[i] <= ts[j]
  }

  // ---- The stored log is the history restricted to the window ----

  lemma {:induction false} RecentAppend(log: seq<int>, t: int, cutoff: int)
    ensures Recent(log + [t], cutoff) == if t > cutoff then Recent(log, cutoff) + [t] else Recent(log, cutoff)
  {
    assert (log + [t])[..|log|] == log;
  }

  lemma {:induction false} RecentTwice(log: seq<int>, c: int, d: int)
    requires c <= d
    ensures Recent(Recent(log, c), d) == Recent(log, d)
  {
    if log == [] {
    } else {
      var init, last := log[..|log| - 1], log[|log| - 1];
      RecentTwice(init, c, d);
      RecentAppend(Recent(init, c), last, d);
    }
  }

  function Grown(history: seq<int>, admitted: bool, t: int): seq<int> {
    history + if admitted then [t] else []
  }

  lemma ChosenStep(ts: seq<int>, n: nat, window: int)
    requires 0 < n <= |ts|
    ensures History(ts, n, window) == Grown(History(ts, n - 1, window), Admitted(ts, n - 1, window), ts[n - 1])
  {
  }

  /** An attempt against a log that agrees with the history from its cutoff on. */
  lemma AttemptFromHistory(log: seq<int>, history: seq<int>, now: int, window: int)
    requires Recent(log, now - window) == Recent(history, now - window) && window > 0
    ensures Attempt(log, now, window).log
         == Recent(Grown(history, Attempt(log, now, window).admitted, now), now - window)
  {
    if |Recent(log, now - window)| >= LIMIT {
      assert Grown(history, false, now) == history;
    } else {
      RecentAppend(history, now, now - window);
    }
  }

  lemma StoreStep(ts: seq<int>, n: nat, window: int, log: seq<int>, history: seq<int>)
    requires 0 < n <= |ts| && window > 0
    requires log == LogBefore(ts, n - 1, window) && history == History(ts, n - 1, window)
    requires Recent(log, ts[n - 1] - window) == Recent(history, ts[n - 1] - window)
    ensures LogBefore(ts, n, window) == Recent(History(ts, n, window), ts[n - 1] - window)
  {
    AttemptFromHistory(log, history, ts[n - 1], window);
    ChosenStep(ts, n, window);
  }

  lemma RecentOfRecent(log: seq<int>, history: seq<int>, c: int, d: int)
    requires log == Recent(history, c) && c <= d
    ensures Recent(log, d) == Recent(history, d)
  {
    RecentTwice(history, c, d);
  }

  /** After any run, the log holds exactly the admissions after the last cutoff, in order. */
  lemma {:induction false} StoreIsRecentHistory(ts: seq<int>, n: nat, window: int)
    requires Nondecreasing(ts) && 0 < n <= |ts| && window > 0
    ensures LogBefore(ts, n, window) == Recent(History(ts, n, window), ts[n - 1] - window)
    decreases n, 1
  {
    var now := ts[n - 1];
    assert n > 1 ==> ts[n - 2] <= now;
    LaterCutoff(ts, n - 1, now - window, window);
    StoreStep(ts, n, window, LogBefore(ts, n - 1, window), History(ts, n - 1, window));
  }

  /** From the last cutoff on, the log and the history cannot be told apart. */
  lemma {:induction false} LaterCutoff(ts: seq<int>, n: nat, cutoff: int, window: int)
    requires Nondecreasing(ts) && n <= |ts| && window > 0
    requires n > 0 ==> ts[n - 1] - window <= cutoff
    ensures Recent(LogBefore(ts, n, window), cutoff) == Recent(History(ts, n, window), cutoff)
    decreases n, 2
  {
    if n > 0 {
      StoreIsRecentHistory(ts, n, window);
      RecentOfRecent(LogBefore(ts, n, window), History(ts, n, window), ts[n - 1] - window, cutoff);
    }
  }

  // ---- Counting picks ----

  /** How many of the first `n` requests are picked. */
  function Total(picks: seq<bool>, n: nat): nat
    requires n <= |picks|
  {
    if n == 0 then 0 else Total(picks, n - 1) + if picks[n - 1] then 1 else 0
  }

  /** How many of the first `n` requests are picked with a time in the half-open interval [lo, hi). */
  function PickedIn(picks: seq<bool>, ts: seq<int>, lo: int, hi: int, n: nat): nat
    requires n <= |picks| == |ts|
  {
    if n == 0 then 0
    else PickedIn(picks, ts, lo, hi, n - 1) + if picks[n - 1] && lo <= ts[n - 1] < hi then 1 else 0
  }

  /** How many of the first `n` requests are picked with a time strictly after `cutoff`. */
  function PickedAfter(picks: seq<bool>, ts: seq<int>, cutoff: int, n: nat): nat
    requires n <= |picks| == |ts|
  {
    if n == 0 then 0
    else PickedAfter(picks, ts, cutoff, n - 1) + if picks[n - 1] && ts[n - 1] > cutoff then 1 else 0
  }

  /** Fewer than LIMIT earlier picks lie in the window that ends at request `n`. */
  predicate Room(picks: seq<bool>, ts: seq<int>, n: nat, window: int)
    requires n < |picks| == |ts|
  {
    PickedAfter(picks, ts, ts[n] - window, n) < LIMIT
  }

  /** A selection obeys the limit if there is room for each of its picks. */
  ghost predicate ObeysLimit(picks: seq<bool>, ts: seq<int>, window: int)
    requires |picks| == |ts|
  {
    forall n {:trigger Room(picks, ts, n, window)} | 0 <= n < |ts| :: picks[n] ==> Room(picks, ts, n, window)
  }

  lemma {:induction false} ChosenCount(picks: seq<bool>, ts: seq<int>, n: nat, cutoff: int)
    requires n <= |picks| == |ts|
    ensures |Recent(Chosen(picks, ts, n), cutoff)| == PickedAfter(picks, ts, cutoff, n)
  {
    if n > 0 {
      ChosenCount(picks, ts, n - 1, cutoff);
      RecentAppend(Chosen(picks, ts, n - 1), ts[n - 1], cutoff);
    }
  }

  lemma AdmittedByCount(ts: seq<int>, n: nat, window: int, recent: nat)
    requires n < |ts| && recent == |Recent(LogBefore(ts, n, window), ts[n] - window)|
    ensures Decisions(ts, window)[n] <==> recent < LIMIT
  {
  }

  /** The decision rule in terms of the decisions alone: admit exactly when the window has room. */
  lemma {:induction false} AdmittedIffRoom(ts: seq<int>, n: nat, window: int)
    requires Nondecreasing(ts) && n < |ts| && window > 0
    ensures Decisions(ts, window)[n] <==> PickedAfter(Decisions(ts, window), ts, ts[n] - window, n) < LIMIT
  {
    var d, cutoff := Decisions(ts, window), ts[n] - window;
    assert n > 0 ==> ts[n - 1] <= ts[n];
    LaterCutoff(ts, n, cutoff, window);
    ChosenCount(d, ts, n, cutoff);
    AdmittedByCount(ts, n, window, PickedAfter(d, ts, cutoff, n));
  }

  /** A run of decisions that admits exactly when the window has room. */
  ghost predicate Greedy(d: seq<bool>, ts: seq<int>, window: int) {
    && |d| == |ts|
    && forall n {:trigger Room(d, ts, n, window)} | 0 <= n < |ts| :: d[n] <==> Room(d, ts, n, window)
  }

  lemma DecisionsAreGreedy(ts: seq<int>, window: int)
    requires Nondecreasing(ts) && window > 0
    ensures Greedy(Decisions(ts, window), ts, window)
  {
    forall n | 0 <= n < |ts|
      ensures Decisions(ts, window)[n] <==> Room(Decisions(ts, window), ts, n, window)
    {
      AdmittedIffRoom(ts, n, window);
    }
  }

  /** With ordered times, the picks after a cutoff are those from some position on. */
  lemma {:induction false} PickedAfterIsSuffix(picks: seq<bool>, ts: seq<int>, cutoff: int, m: nat, n: nat)
    requires m <= n <= |picks| == |ts|
    requires forall j | 0 <= j < m :: ts[j] <= cutoff
    requires forall j | m <= j < n :: ts[j] > cutoff
    ensures PickedAfter(picks, ts, cutoff, n) == Total(picks, n) - Total(picks, m)
  {
    if n == 0 {
    } else if n == m {
      PickedAfterIsSuffix(picks, ts, cutoff, m - 1, m - 1);
    } else {
      PickedAfterIsSuffix(picks, ts, cutoff, m, n - 1);
    }
  }

  lemma {:induction false} FirstAfter(ts: seq<int>, cutoff: int, n: nat) returns (m: nat)
    requires Nondecreasing(ts) && n <= |ts|
    ensures m <= n
    ensures forall j | 0 <= j < m :: ts[j] <= cutoff
    ensures forall j | m <= j < n :: ts[j] > cutoff
  {
    if n == 0 || ts[n - 1] <= cutoff {
      m := n;
    } else {
      m := FirstAfter(ts, cutoff, n - 1);
    }
  }

  // ---- Whole-run guarantees ----

  /**
   No selection obeying the limit is ever ahead of greedy decisions. If one were, take the
   first request picked but not admitted while the totals are level: its window holds LIMIT
   admissions but fewer picks, so the selection was already ahead where that window opens.
   */
  lemma {:induction false} GreedyIsAhead(ts: seq<int>, picks: seq<bool>, d: seq<bool>, n: nat, window: int)
    requires Nondecreasing(ts) && n <= |ts| == |picks|
    requires ObeysLimit(picks, ts, window) && Greedy(d, ts, window) && window > 0
    ensures Total(picks, n) <= Total(d, n)
    decreases n
  {
    if n == 0 {
    } else {
      GreedyIsAhead(ts, picks, d, n - 1, window);
      if picks[n - 1] && !d[n - 1] {
        assert Room(picks, ts, n - 1, window) && !Room(d, ts, n - 1, window);
        var cutoff := ts[n - 1] - window;
        var m := FirstAfter(ts, cutoff, n - 1);
        GreedyIsAhead(ts, picks, d, m, window);
        PickedAfterIsSuffix(picks, ts, cutoff, m, n - 1);
        PickedAfterIsSuffix(d, ts, cutoff, m, n - 1);
      }
    }
  }

  /**
   The limiter is optimal: its own admissions obey the limit, and no other selection that
   does has more picks on any prefix of the run.
   */
  lemma LimiterIsOptimal(ts: seq<int>, window: int)
    requires Nondecreasing(ts) && window > 0
    ensures ObeysLimit(Decisions(ts, window), ts, window)
    ensures forall picks: seq<bool>, n: nat | |picks| == |ts| && n <= |ts| && ObeysLimit(picks, ts, window) ::
              Total(picks, n) <= Total(Decisions(ts, window), n)
  {
    DecisionsAreGreedy(ts, window);
    forall picks: seq<bool>, n: nat | |picks| == |ts| && n <= |ts| && ObeysLimit(picks, ts, window)
      ensures Total(picks, n) <= Total(Decisions(ts, window), n)
    {
      GreedyIsAhead(ts, picks, Decisions(ts, window), n, window);
    }
  }

  lemma {:induction false} IntervalWithinWindow(picks: seq<bool>, ts: seq<int>, lo: int, hi: int, cutoff: int, n: nat)
    requires n <= |picks| == |ts| && cutoff < lo
    ensures PickedIn(picks, ts, lo, hi, n) <= PickedAfter(picks, ts, cutoff, n)
  {
    if n == 0 {
    } else {
      IntervalWithinWindow(picks, ts, lo, hi, cutoff, n - 1);
    }
  }

  lemma {:induction false} OneWindowBound(d: seq<bool>, ts: seq<int>, lo: int, n: nat, window: int)
    requires Greedy(d, ts, window) && n <= |ts|
    ensures PickedIn(d, ts, lo, lo + window, n) <= LIMIT
  {
    if n == 0 {
    } else {
      OneWindowBound(d, ts, lo, n - 1, window);
      if d[n - 1] && lo <= ts[n - 1] < lo + window {
        assert Room(d, ts, n - 1, window);
        IntervalWithinWindow(d, ts, lo, lo + window, ts[n - 1] - window, n - 1);
      }
    }
  }

  lemma {:induction false} SplitInterval(picks: seq<bool>, ts: seq<int>, lo: int, mid: int, hi: int, n: nat)
    requires n <= |picks| == |ts| && lo <= mid <= hi
    ensures PickedIn(picks, ts, lo, hi, n) == PickedIn(picks, ts, lo, mid, n) + PickedIn(picks, ts, mid, hi, n)
  {
    if n == 0 {
    } else {
      SplitInterval(picks, ts, lo, mid, hi, n - 1);
    }
  }

  lemma {:induction false} EmptyInterval(picks: seq<bool>, ts: seq<int>, lo: int, n: nat)
    requires n <= |picks| == |ts|
    ensures PickedIn(picks, ts, lo, lo, n) == 0
  {
    if n > 0 {
      EmptyInterval(picks, ts, lo, n - 1);
    }
  }

  lemma {:induction false} GreedyBurst(d: seq<bool>, ts: seq<int>, lo: int, k: nat, hi: int, window: int)
    requires Greedy(d, ts, window) && window > 0 && hi == lo + k * window
    ensures PickedIn(d, ts, lo, hi, |ts|) <= k * LIMIT
  {
    if k == 0 {
      EmptyInterval(d, ts, lo, |ts|);
    } else {
      var mid := hi - window;
      assert mid == lo + (k - 1) * window && lo <= mid;
      GreedyBurst(d, ts, lo, k - 1, mid, window);
      OneWindowBound(d, ts, mid, |ts|, window);
      SplitInterval(d, ts, lo, mid, hi, |ts|);
    }
  }

  /** Any half-open interval of k windows holds at most k * LIMIT admissions. */
  lemma BurstBound(ts: seq<int>, lo: int, k: nat, window: int)
    requires Nondecreasing(ts) && window > 0
    ensures PickedIn(Decisions(ts, window), ts, lo, lo + k * window, |ts|) <= k * LIMIT
  {
    DecisionsAreGreedy(ts, window);
    GreedyBurst(Decisions(ts, window), ts, lo, k, lo + k * window, window);
  }

  lemma {:induction false} SuffixIsLater(picks: seq<bool>, ts: seq<int>, cutoff: int, i: nat, n: nat)
    requires i <= n <= |picks| == |ts|
    requires forall j | i <= j < n :: ts[j] > cutoff
    ensures Total(picks, n) - Total(picks, i) <= PickedAfter(picks, ts, cutoff, n)
  {
    if n > i {
      SuffixIsLater(picks, ts, cutoff, i, n - 1);
    }
  }

  lemma GreedySpacing(d: seq<bool>, ts: seq<int>, i: nat, j: nat, window: int)
    requires Nondecreasing(ts) && Greedy(d, ts, window) && i < j < |ts|
    requires d[i] && d[j] && Total(d, j) - Total(d, i) == LIMIT
    ensures ts[j] - ts[i] >= window
  {
    assert Room(d, ts, j, window);
    if ts[j] - ts[i] < window {
      SuffixIsLater(d, ts, ts[j] - window, i, j);
    }
  }

  /** An admission and the LIMIT-th admission after it are at least one window apart. */
  lemma TenthLaterIsOneWindowAway(ts: seq<int>, i: nat, j: nat, window: int)
    requires Nondecreasing(ts) && window > 0 && i < j < |ts|
    requires Decisions(ts, window)[i] && Decisions(ts, window)[j]
    requires Total(Decisions(ts, window), j) - Total(Decisions(ts, window), i) == LIMIT
    ensures ts[j] - ts[i] >= window
  {
    DecisionsAreGreedy(ts, window);
    GreedySpacing(Decisions(ts, window), ts, i, j, window);
  }

  // ---- Units of time ----

  /** The same times in a unit `unit` times as fine. */
  function Finer(ts: seq<int>, unit: int): seq<int> {
    seq(|ts|, i requires 0 <= i < |ts| => ts[i] * unit)
  }

  lemma {:induction false} RecentFiner(log: seq<int>, cutoff: int, unit: int)
    requires unit > 0
    ensures Recent(Finer(log, unit), cutoff * unit) == Finer(Recent(log, cutoff), unit)
  {
    if log != [] {
      var init, last := log[..|log| - 1], log[|log| - 1];
      RecentFiner(init, cutoff, unit);
      assert Finer(log, unit)[..|log| - 1] == Finer(init, unit);
      LaterFiner(last, cutoff, unit);
      assert Finer(Recent(init, cutoff) + [last], unit) == Finer(Recent(init, cutoff), unit) + [last * unit];
    }
  }

  lemma LaterFiner(t: int, cutoff: int, unit: int)
    requires unit > 0
    ensures t * unit > cutoff * unit <==> t > cutoff
  {
    assert t * unit - cutoff * unit == (t - cutoff) * unit;
    if t > cutoff {
      assert (t - cutoff) * unit > 0;
    } else {
      assert (cutoff - t) * unit >= 0;
    }
  }

  lemma AttemptFiner(log: seq<int>, now: int, window: int, unit: int)
    requires unit > 0
    ensures var a, b := Attempt(log, now, window), Attempt(Finer(log, unit), now * unit, window * unit);
            b.admitted == a.admitted && b.log == Finer(a.log, unit)
  {
    assert now * unit - window * unit == (now - window) * unit;
    RecentFiner(log, now - window, unit);
    var recent := Recent(log, now - window);
    assert Finer(recent + [now], unit) == Finer(recent, unit) + [now * unit];
  }

  lemma {:induction false} LogFiner(ts: seq<int>, n: nat, window: int, unit: int, fine: int)
    requires n <= |ts| && unit > 0 && fine == window * unit
    ensures LogBefore(Finer(ts, unit), n, fine) == Finer(LogBefore(ts, n, window), unit)
  {
    if n > 0 {
      LogFiner(ts, n - 1, window, unit, fine);
      AttemptFiner(LogBefore(ts, n - 1, window), ts[n - 1], window, unit);
    }
  }

  lemma AdmittedFiner(ts: seq<int>, n: nat, window: int, unit: int)
    requires n < |ts| && unit > 0
    ensures Admitted(Finer(ts, unit), n, window * unit) == Admitted(ts, n, window)
  {
    LogFiner(ts, n, window, unit, window * unit);
    AttemptFiner(LogBefore(ts, n, window), ts[n], window, unit);
  }

  /** The unit of time makes no difference to the decisions. */
  lemma DecisionsFiner(ts: seq<int>, window: int, unit: int)
    requires unit > 0
    ensures Decisions(Finer(ts, unit), window * unit) == Decisions(ts, window)
  {
    forall n | 0 <= n < |ts|
      ensures Admitted(Finer(ts, unit), n, window * unit) == Admitted(ts, n, window)
    {
      AdmittedFiner(ts, n, window, unit);
    }
  }

  // ---- Many users ----

  /** How many of these times are strictly later than `cutoff`. */
  function LaterThan(ts: seq<int>, cutoff: int): nat {
    if ts == [] then 0 else LaterThan(ts[..|ts| - 1], cutoff) + if ts[|ts| - 1] > cutoff then 1 else 0
  }

  lemma {:induction false} RecentCounts(ts: seq<int>, cutoff: int)
    ensures |Recent(ts, cutoff)| == LaterThan(ts, cutoff)
  {
    if ts != [] {
      RecentCounts(ts[..|ts| - 1], cutoff);
    }
  }

  lemma AdmittedPrefix(ts: seq<int>, us: seq<int>, n: nat, window: int)
    requires n < |ts| <= |us| && us[..|ts|] == ts
    ensures us[n] == ts[n] && Admitted(ts, n, window) == Admitted(us, n, window)
  {
    LogBeforePrefix(ts, us, n, window);
    assert us[..|ts|][n] == ts[n];
  }

  lemma {:induction false} ChosenPrefix(d: seq<bool>, e: seq<bool>, ts: seq<int>, us: seq<int>, n: nat)
    requires n <= |d| == |ts| && n <= |e| == |us|
    requires forall i | 0 <= i < n :: d[i] == e[i] && ts[i] == us[i]
    ensures Chosen(d, ts, n) == Chosen(e, us, n)
  {
    if n > 0 {
      ChosenPrefix(d, e, ts, us, n - 1);
    }
  }

  lemma HistoryPrefix(ts: seq<int>, us: seq<int>, n: nat, window: int)
    requires n <= |ts| <= |us| && us[..|ts|] == ts
    ensures History(ts, n, window) == History(us, n, window)
  {
    var d, e := Decisions(ts, window), Decisions(us, window);
    forall i | 0 <= i < n
      ensures d[i] == e[i] && ts[i] == us[i]
    {
      AdmittedPrefix(ts, us, i, window);
    }
    ChosenPrefix(d, e, ts, us, n);
  }

  lemma HistoryStep(ts: seq<int>, t: int, window: int, admitted: bool)
    requires admitted == Admitted(ts + [t], |ts|, window)
    ensures History(ts + [t], |ts| + 1, window) == History(ts, |ts|, window) + if admitted then [t] else []
  {
    HistoryPrefix(ts, ts + [t], |ts|, window);
    ChosenStep(ts + [t], |ts| + 1, window);
  }

  /** A decision, told from the admission history alone. */
  lemma DecisionFromHistory(ts: seq<int>, n: nat, window: int, history: seq<int>)
    requires Nondecreasing(ts) && n < |ts| && window > 0 && history == History(ts, n, window)
    ensures Admitted(ts, n, window) <==> LaterThan(history, ts[n] - window) < LIMIT
  {
    var d, cutoff := Decisions(ts, window), ts[n] - window;
    AdmittedIffRoom(ts, n, window);
    ChosenCount(d, ts, n, cutoff);
    assert history == Chosen(d, ts, n);
    RecentCounts(history, cutoff);
  }

  lemma NextDecision(ts: seq<int>, t: int, window: int, log: seq<int>, history: seq<int>)
    requires Nondecreasing(ts + [t]) && window > 0
    requires log == LogBefore(ts, |ts|, window) && history == History(ts, |ts|, window)
    ensures Attempt(log, t, window).admitted <==> LaterThan(history, t - window) < LIMIT
  {
    LogBeforeStep(ts, t, window);
    HistoryPrefix(ts, ts + [t], |ts|, window);
    DecisionFromHistory(ts + [t], |ts|, window, history);
  }

  datatype Request = Request(user: string, at: int)

  function LogOf(logs: map<string, seq<int>>, user: string): seq<int> {
    if user in logs then logs[user] else []
  }

  /** All users' logs after a run. */
  function LogsAfter(reqs: seq<Request>, window: int): map<string, seq<int>> {
    if reqs == [] then map[]
    else
      var r, logs := reqs[|reqs| - 1], LogsAfter(reqs[..|reqs| - 1], window);
      logs[r.user := Attempt(LogOf(logs, r.user), r.at, window).log]
  }

  /** The times of one user's own requests. */
  function TimesOf(reqs: seq<Request>, user: string): seq<int> {
    if reqs == [] then []
    else
      var r, rest := reqs[|reqs| - 1], TimesOf(reqs[..|reqs| - 1], user);
      if r.user == user then rest + [r.at] else rest
  }

  lemma {:induction false} LogBeforePrefix(ts: seq<int>, us: seq<int>, n: nat, window: int)
    requires n <= |ts| <= |us| && us[..|ts|] == ts
    ensures LogBefore(ts, n, window) == LogBefore(us, n, window)
  {
    if n > 0 {
      LogBeforePrefix(ts, us, n - 1, window);
      assert us[..|ts|][n - 1] == ts[n - 1];
      var log := LogBefore(ts, n - 1, window);
      assert LogBefore(ts, n, window) == Attempt(log, ts[n - 1], window).log;
      assert LogBefore(us, n, window) == Attempt(log, us[n - 1], window).log;
    }
  }

  lemma LogBeforeStep(ts: seq<int>, t: int, window: int)
    ensures LogBefore(ts + [t], |ts| + 1, window) == Attempt(LogBefore(ts, |ts|, window), t, window).log
    ensures Admitted(ts + [t], |ts|, window) == Attempt(LogBefore(ts, |ts|, window), t, window).admitted
  {
    LogBeforePrefix(ts, ts + [t], |ts|, window);
  }

  /** Users do not disturb each other: a log depends only on that user's own requests. */
  lemma {:induction false} UsersAreIndependent(reqs: seq<Request>, user: string, window: int)
    ensures LogOf(LogsAfter(reqs, window), user) == LogBefore(TimesOf(reqs, user), |TimesOf(reqs, user)|, window)
  {
    if reqs == [] {
    } else {
      var init, r := reqs[..|reqs| - 1], reqs[|reqs| - 1];
      UsersAreIndependent(init, user, window);
      if r.user == user {
        LogBeforeStep(TimesOf(init, user), r.at, window);
      }
    }
  }

  /** Whatever the other users do, a user's log is that user's admissions after the last cutoff. */
  lemma StoredIsOwnHistory(reqs: seq<Request>, user: string, window: int)
    requires window > 0 && TimesOf(reqs, user) != [] && Nondecreasing(TimesOf(reqs, user))
    ensures var ts := TimesOf(reqs, user);
            LogOf(LogsAfter(reqs, window), user) == Recent(History(ts, |ts|, window), ts[|ts| - 1] - window)
  {
    var ts := TimesOf(reqs, user);
    UsersAreIndependent(reqs, user, window);
    StoreIsRecentHistory(ts, |ts|, window);
  }
}
