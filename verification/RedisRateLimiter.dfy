/**
 The Redis limiter: a script over one sorted set per user, on Redis time cut down to
 milliseconds, with a key lifetime. Every replica runs the same script against the same
 server, so the merged calls of all replicas are one run.
 */
module RedisRateLimiting {
  import opened SlidingWindow
  import MessageRateLimiting

  /** MessageRateLimitWindow, in milliseconds. */
  const WINDOW: int := 5000

  /** A sorted set: scores by member, and the time at which its key expires. */
  datatype SortedSet = SortedSet(scores: map<string, int>, deadline: int)

  const ABSENT := SortedSet(map[], 0)

  /** The script's clock: microseconds floored to milliseconds. */
  function Millis(micros: nat): int {
    micros / 1000
  }

  /** Drop what is scored at or before the cutoff. */
  function Trim(scores: map<string, int>, cutoff: int): map<string, int> {
    map m | m in scores && scores[m] > cutoff :: scores[m]
  }

  datatype Reply = Reply(admitted: bool, after: SortedSet)

  /** The whole script on one key: trim, count, add, renew the lifetime. */
  function Script(z: SortedSet, now: int, member: string): Reply {
    var live := Trim(z.scores, now - WINDOW);
    if |live| >= LIMIT then Reply(false, SortedSet(live, z.deadline))
    else Reply(true, SortedSet(live[member := now], now + WINDOW))
  }

  function SetOf(keys: map<string, SortedSet>, user: string): SortedSet {
    if user in keys then keys[user] else ABSENT
  }

  class RedisServer {
    /** One sorted set per key; a key that does not exist has no entry. */
    var keys: map<string, SortedSet>

    constructor ()
      ensures keys == map[]
    {
      keys := map[];
    }

    /** One atomic run of the script for `user`, at Redis time `micros`. */
    method Check(user: string, micros: nat, member: string) returns (allowed: bool)
      modifies this
      ensures allowed == Script(SetOf(old(keys), user), Millis(micros), member).admitted
      ensures SetOf(keys, user) == Script(SetOf(old(keys), user), Millis(micros), member).after
      ensures keys.Keys == old(keys).Keys + {user}
      ensures forall u | u in old(keys) && u != user :: keys[u] == old(keys)[u]
      ensures var z, z', now := SetOf(old(keys), user), keys[user], micros / 1000;
              && (allowed <==> |set m | m in z.scores && z.scores[m] > now - 5000| < 10)
              && (forall m :: m in z'.scores <==> (allowed && m == member) || (m in z.scores && z.scores[m] > now - 5000))
              && (forall m | m in z'.scores :: z'.scores[m] == if allowed && m == member then now else z.scores[m])
              && z'.deadline == if allowed then now + 5000 else z.deadline
    {
      var now := micros / 1000;
      var z := if user in keys then keys[user] else ABSENT;
      z := z.(scores := map m | m in z.scores && !(z.scores[m] <= now - WINDOW) :: z.scores[m]);
      assert z.scores == Trim(SetOf(keys, user).scores, now - WINDOW);
      assert z.scores.Keys == set m | m in SetOf(keys, user).scores && SetOf(keys, user).scores[m] > now - 5000;
      if |z.scores| >= LIMIT {
        keys := keys[user := z];
        return false;
      }
      z := z.(scores := z.scores[member := now]);
      z := z.(deadline := now + WINDOW);
      keys := keys[user := z];
      return true;
    }
  }

  // ---- Runs of one key ----

  /** What happens to a key: a call of some replica, or Redis looking whether it has expired. */
  datatype Event = Call(micros: nat, member: string) | Expiry(micros: nat)

  function Handle(z: SortedSet, e: Event): SortedSet {
    match e
    case Call(micros, member) => Script(z, Millis(micros), member).after
    case Expiry(micros) => if Millis(micros) >= z.deadline then ABSENT else z
  }

  function SetAfter(es: seq<Event>): SortedSet {
    if es == [] then ABSENT else Handle(SetAfter(es[..|es| - 1]), es[|es| - 1])
  }

  /** The truncated times of the calls alone: what an in-memory limiter would be asked. */
  function CallTimes(es: seq<Event>): seq<int> {
    if es == [] then []
    else
      var e, rest := es[|es| - 1], CallTimes(es[..|es| - 1]);
      if e.Call? then rest + [Millis(e.micros)] else rest
  }

  /** Redis time never goes back, and each call brings a member not used before. */
  ghost predicate WellTimed(es: seq<Event>) {
    && (forall i, j | 0 <= i < j < |es| :: es[i].micros <= es[j].micros)
    && (forall i, j | 0 <= i < j < |es| :: es[i].Call? && es[j].Call? ==> es[i].member != es[j].member)
  }

  /** The set and a log hold equally many entries after any cutoff from `from` on. */
  ghost predicate SameCounts(scores: map<string, int>, log: seq<int>, from: int) {
    forall c | c >= from :: |Trim(scores, c)| == |Recent(log, c)|
  }

  lemma TrimTwice(scores: map<string, int>, c: int, d: int)
    requires c <= d
    ensures Trim(Trim(scores, c), d) == Trim(scores, d)
  {
  }

  lemma TrimAdd(scores: map<string, int>, member: string, score: int, cutoff: int)
    requires member !in scores
    ensures |Trim(scores[member := score], cutoff)| == |Trim(scores, cutoff)| + if score > cutoff then 1 else 0
  {
    if score > cutoff {
      assert Trim(scores[member := score], cutoff) == Trim(scores, cutoff)[member := score];
    } else {
      assert Trim(scores[member := score], cutoff) == Trim(scores, cutoff);
    }
  }

  /** One call keeps the correspondence and decides as the log does. */
  lemma CallSimulates(z: SortedSet, log: seq<int>, from: int, now: int, member: string)
    requires SameCounts(z.scores, log, from) && from <= now - WINDOW
    requires member !in z.scores
    ensures Script(z, now, member).admitted == Attempt(log, now, WINDOW).admitted
    ensures SameCounts(Script(z, now, member).after.scores, Attempt(log, now, WINDOW).log, now - WINDOW)
  {
    var cutoff := now - WINDOW;
    var live, recent := Trim(z.scores, cutoff), Recent(log, cutoff);
    assert |live| == |recent|;
    forall c | c >= cutoff
      ensures |Trim(Script(z, now, member).after.scores, c)| == |Recent(Attempt(log, now, WINDOW).log, c)|
    {
      TrimTwice(z.scores, cutoff, c);
      RecentTwice(log, cutoff, c);
      TrimAdd(live, member, now, c);
      RecentAppend(recent, now, c);
    }
  }

  /** No entry outlives the key: each is dead once the deadline is reached. */
  ghost predicate DeadByDeadline(z: SortedSet) {
    forall m | m in z.scores :: z.scores[m] <= z.deadline - WINDOW
  }

  lemma ExpirySimulates(z: SortedSet, log: seq<int>, from: int, now: int)
    requires SameCounts(z.scores, log, from) && from <= now - WINDOW
    requires DeadByDeadline(z) && now >= z.deadline
    ensures SameCounts(map[], log, now - WINDOW)
  {
    forall c | c >= now - WINDOW
      ensures |Trim(map[], c)| == |Recent(log, c)|
    {
      assert Trim(z.scores, c) == map[];
      assert |Trim(z.scores, c)| == |Recent(log, c)|;
    }
  }

  /** Where the clock stood at the end of a run, as a cutoff. */
  function LastCutoff(es: seq<Event>): int {
    if es == [] then -WINDOW else Millis(es[|es| - 1].micros) - WINDOW
  }

  /** What the set holds: members of earlier calls, scored no later than the clock, dead by the deadline. */
  lemma {:induction false} SetIsBounded(es: seq<Event>)
    requires WellTimed(es)
    ensures DeadByDeadline(SetAfter(es))
    ensures forall m | m in SetAfter(es).scores :: exists i | 0 <= i < |es| :: es[i].Call? && es[i].member == m
    ensures forall m | m in SetAfter(es).scores :: SetAfter(es).scores[m] <= LastCutoff(es) + WINDOW
  {
    if es == [] {
    } else {
      var init, e := es[..|es| - 1], es[|es| - 1];
      SetIsBounded(init);
      CutoffAdvances(es);
      assert forall i | 0 <= i < |init| :: es[i] == init[i];
      assert e.Call? ==> es[|es| - 1].member == e.member;
    }
  }

  lemma CutoffAdvances(es: seq<Event>)
    requires WellTimed(es) && es != []
    ensures WellTimed(es[..|es| - 1]) && LastCutoff(es[..|es| - 1]) <= LastCutoff(es)
  {
    if |es| > 1 {
      assert es[|es| - 2].micros <= es[|es| - 1].micros;
    }
  }

  /** A member not used before is not in the set. */
  lemma NewMember(es: seq<Event>)
    requires WellTimed(es) && es != [] && es[|es| - 1].Call?
    ensures es[|es| - 1].member !in SetAfter(es[..|es| - 1]).scores
  {
    CutoffAdvances(es);
    SetIsBounded(es[..|es| - 1]);
  }

  lemma {:induction false} RunSimulates(es: seq<Event>)
    requires WellTimed(es)
    ensures SameCounts(SetAfter(es).scores, LogBefore(CallTimes(es), |CallTimes(es)|, WINDOW), LastCutoff(es))
  {
    if es == [] {
    } else {
      var init, e := es[..|es| - 1], es[|es| - 1];
      CutoffAdvances(es);
      RunSimulates(init);
      var z, ts := SetAfter(init), CallTimes(init);
      var log := LogBefore(ts, |ts|, WINDOW);
      match e
      case Call(micros, member) =>
        NewMember(es);
        CallSimulates(z, log, LastCutoff(init), Millis(micros), member);
        LogBeforeStep(ts, Millis(micros), WINDOW);
      case Expiry(micros) =>
        SetIsBounded(init);
        if Millis(micros) >= z.deadline {
          ExpirySimulates(z, log, LastCutoff(init), Millis(micros));
        }
    }
  }

  /**
   Every call is decided exactly as one in-memory limiter, fed the calls of all replicas
   on the truncated clock, would decide it; key expiry never matters.
   */
  lemma DecidesAsInMemory(es: seq<Event>, micros: nat, member: string)
    requires WellTimed(es + [Call(micros, member)])
    ensures CallTimes(es + [Call(micros, member)]) == CallTimes(es) + [Millis(micros)]
    ensures Script(SetAfter(es), Millis(micros), member).admitted
         == Admitted(CallTimes(es) + [Millis(micros)], |CallTimes(es)|, WINDOW)
  {
    var all, ts := es + [Call(micros, member)], CallTimes(es);
    assert all[..|es|] == es;
    CutoffAdvances(all);
    RunSimulates(es);
    NewMember(all);
    CallSimulates(SetAfter(es), LogBefore(ts, |ts|, WINDOW), LastCutoff(es), Millis(micros), member);
    LogBeforeStep(ts, Millis(micros), WINDOW);
  }

  // ---- Whole runs of the script ----

  /** What the script answered to the calls of a run. */
  function Replies(es: seq<Event>): seq<bool> {
    if es == [] then []
    else
      var e, init := es[|es| - 1], es[..|es| - 1];
      if e.Call? then Replies(init) + [Script(SetAfter(init), Millis(e.micros), e.member).admitted] else Replies(init)
  }

  /** When the calls of a run were made. */
  function Micros(es: seq<Event>): seq<nat> {
    if es == [] then []
    else
      var e, rest := es[|es| - 1], Micros(es[..|es| - 1]);
      if e.Call? then rest + [e.micros] else rest
  }

  function AllMillis(us: seq<nat>): (ts: seq<int>)
    ensures |ts| == |us| && forall i | 0 <= i < |us| :: ts[i] == Millis(us[i])
  {
    seq(|us|, i requires 0 <= i < |us| => Millis(us[i]))
  }

  ghost predicate Ordered(us: seq<nat>) {
    forall a, b | 0 <= a <= b < |us| :: us[a] <= us[b]
  }

  lemma DecisionsAppend(ts: seq<int>, t: int)
    ensures Decisions(ts + [t], WINDOW) == Decisions(ts, WINDOW) + [Admitted(ts + [t], |ts|, WINDOW)]
  {
    forall n | 0 <= n < |ts|
      ensures Admitted(ts + [t], n, WINDOW) == Admitted(ts, n, WINDOW)
    {
      LogBeforePrefix(ts, ts + [t], n, WINDOW);
    }
  }

  lemma {:induction false} CallsAreOrdered(es: seq<Event>)
    requires WellTimed(es)
    ensures AllMillis(Micros(es)) == CallTimes(es) && Ordered(Micros(es))
    ensures forall i | 0 <= i < |Micros(es)| :: es != [] && Micros(es)[i] <= es[|es| - 1].micros
  {
    if es != [] {
      CutoffAdvances(es);
      CallsAreOrdered(es[..|es| - 1]);
    }
  }

  /**
   On every run of calls by all replicas, with the key expiring whenever Redis gets to it,
   the script answers exactly what one in-memory limiter on the truncated clock decides.
   */
  lemma {:induction false} RunRefines(es: seq<Event>)
    requires WellTimed(es)
    ensures Replies(es) == Decisions(CallTimes(es), WINDOW)
    ensures AllMillis(Micros(es)) == CallTimes(es) && Ordered(Micros(es)) && Nondecreasing(CallTimes(es))
  {
    CallsAreOrdered(es);
    if es != [] {
      var init, e := es[..|es| - 1], es[|es| - 1];
      CutoffAdvances(es);
      RunRefines(init);
      if e.Call? {
        assert init + [Call(e.micros, e.member)] == es;
        DecidesAsInMemory(init, e.micros, e.member);
        DecisionsAppend(CallTimes(init), Millis(e.micros));
      }
    }
  }

  /** The times, in milliseconds, of the calls that were admitted. */
  function Admissions(es: seq<Event>): seq<int> {
    if es == [] then []
    else
      var e, init := es[|es| - 1], es[..|es| - 1];
      if e.Call? && Script(SetAfter(init), Millis(e.micros), e.member).admitted then Admissions(init) + [Millis(e.micros)]
      else Admissions(init)
  }

  lemma {:induction false} AdmissionsAreHistory(es: seq<Event>)
    requires WellTimed(es)
    ensures Admissions(es) == History(CallTimes(es), |CallTimes(es)|, WINDOW)
  {
    if es != [] {
      var init, e := es[..|es| - 1], es[|es| - 1];
      CutoffAdvances(es);
      AdmissionsAreHistory(init);
      if e.Call? {
        assert init + [Call(e.micros, e.member)] == es;
        DecidesAsInMemory(init, e.micros, e.member);
        HistoryStep(CallTimes(init), Millis(e.micros), WINDOW, Script(SetAfter(init), Millis(e.micros), e.member).admitted);
      }
    }
  }

  /** A key that is there lives to 5000 milliseconds after its last admission. */
  lemma {:induction false} LivesFromLastAdmission(es: seq<Event>)
    ensures SetAfter(es) == ABSENT
         || (Admissions(es) != [] && SetAfter(es).deadline == Admissions(es)[|Admissions(es)| - 1] + 5000)
  {
    if es != [] {
      LivesFromLastAdmission(es[..|es| - 1]);
      if SetAfter(es[..|es| - 1]) == ABSENT && es[|es| - 1].Call? {
        assert Trim(map[], Millis(es[|es| - 1].micros) - WINDOW) == map[];
      }
    }
  }

  /** When Redis looks at it, the key goes if 5000 milliseconds have passed since the last admission, and stays otherwise. */
  lemma {:induction false} ExpiryReclaims(es: seq<Event>, micros: nat)
    ensures var admitted := Admissions(es);
            var over := admitted == [] || Millis(micros) >= admitted[|admitted| - 1] + 5000;
            SetAfter(es + [Expiry(micros)]) == if over then ABSENT else SetAfter(es)
  {
    assert (es + [Expiry(micros)])[..|es|] == es;
    LivesFromLastAdmission(es);
  }

  /** A call is admitted exactly if fewer than ten earlier admissions lie strictly within the last 5000 milliseconds. */
  lemma ScriptAdmitsExactly(es: seq<Event>, micros: nat, member: string)
    requires WellTimed(es + [Call(micros, member)])
    ensures Script(SetAfter(es), Millis(micros), member).admitted <==> LaterThan(Admissions(es), Millis(micros) - 5000) < 10
  {
    var ts, now := CallTimes(es), Millis(micros);
    assert (es + [Call(micros, member)])[..|es|] == es;
    CutoffAdvances(es + [Call(micros, member)]);
    DecidesAsInMemory(es, micros, member);
    AdmissionsAreHistory(es);
    RunRefines(es + [Call(micros, member)]);
    LogBeforeStep(ts, now, WINDOW);
    NextDecision(ts, now, WINDOW, LogBefore(ts, |ts|, WINDOW), Admissions(es));
  }

  /** All replicas together: no half-open interval of k windows of Redis time has more than 10k admissions. */
  lemma {:induction false} ScriptBurstBound(es: seq<Event>, lo: int, k: nat)
    requires WellTimed(es)
    ensures |Replies(es)| == |CallTimes(es)|
    ensures PickedIn(Replies(es), CallTimes(es), lo, lo + k * 5000, |CallTimes(es)|) <= k * 10
  {
    RunRefines(es);
    var ts, replies, hi := CallTimes(es), Replies(es), lo + k * 5000;
    BurstUpTo(ts, replies, lo, k, hi);
  }

  lemma BurstUpTo(ts: seq<int>, replies: seq<bool>, lo: int, k: nat, hi: int)
    requires Nondecreasing(ts) && replies == Decisions(ts, WINDOW) && hi == lo + k * WINDOW
    ensures PickedIn(replies, ts, lo, hi, |ts|) <= k * 10
  {
    BurstBound(ts, lo, k, WINDOW);
  }

  /** The script's answers obey the limit, and no other answers that do admit more on any prefix. */
  lemma ScriptIsOptimal(es: seq<Event>)
    requires WellTimed(es)
    ensures |Replies(es)| == |CallTimes(es)| && ObeysLimit(Replies(es), CallTimes(es), WINDOW)
    ensures forall picks: seq<bool>, n: nat |
              |picks| == |CallTimes(es)| && n <= |picks| && ObeysLimit(picks, CallTimes(es), WINDOW) ::
              Total(picks, n) <= Total(Replies(es), n)
  {
    RunRefines(es);
    LimiterIsOptimal(CallTimes(es), WINDOW);
  }

  /** The two limiters agree: the script's answers are those of the in-memory limiter, 1,000,000 ns to a millisecond. */
  lemma LimitersAgree(es: seq<Event>)
    requires WellTimed(es)
    ensures Replies(es) == Decisions(Finer(CallTimes(es), 1_000_000), MessageRateLimiting.WINDOW)
  {
    RunRefines(es);
    DecisionsFiner(CallTimes(es), WINDOW, 1_000_000);
  }

  // ---- Real time ----

  /** Calls number `i` and `j` of the run are an admission and the tenth after it. */
  ghost predicate TenApart(es: seq<Event>, i: nat, j: nat) {
    && i < j < |Replies(es)| && Replies(es)[i] && Replies(es)[j]
    && Total(Replies(es), j) - Total(Replies(es), i) == LIMIT
  }

  /** In microseconds an admission and the tenth after it are at least 4,999,001 apart, however late the key expires. */
  lemma SpacingInMicros(es: seq<Event>, i: nat, j: nat)
    requires WellTimed(es) && TenApart(es, i, j)
    ensures j < |Micros(es)| && Micros(es)[i] + 4_999_001 <= Micros(es)[j]
  {
    RunRefines(es);
    TenthLaterIsOneWindowAway(CallTimes(es), i, j, WINDOW);
  }

  /** Ten calls in the last microsecond of one millisecond, and one at the next admissible. */
  const TIGHT: seq<nat> := [999, 999, 999, 999, 999, 999, 999, 999, 999, 999, 5_000_000]

  /** Calls at these times, with members of different lengths. */
  function Calls(us: seq<nat>): (es: seq<Event>)
    ensures |es| == |us| && forall i | 0 <= i < |us| :: es[i] == Call(us[i], seq(i, _ => 'x'))
  {
    seq(|us|, i requires 0 <= i < |us| => Call(us[i], seq(i, _ => 'x')))
  }

  /** Redis drops the expired key just before the last of these calls. */
  const TIGHT_RUN: seq<Event> := Calls(TIGHT)[..10] + [Expiry(5_000_000)] + Calls(TIGHT)[10..]

  lemma {:induction false} MicrosOfCalls(us: seq<nat>)
    ensures Micros(Calls(us)) == us
  {
    if us != [] {
      MicrosOfCalls(us[..|us| - 1]);
      assert Calls(us)[..|us| - 1] == Calls(us[..|us| - 1]);
    }
  }

  lemma TimedAppend(es: seq<Event>, e: Event)
    requires WellTimed(es) && forall i | 0 <= i < |es| :: es[i].micros <= e.micros
    requires e.Call? ==> forall i | 0 <= i < |es| :: es[i].Call? ==> es[i].member != e.member
    ensures WellTimed(es + [e])
  {
  }

  lemma MicrosAppend(es: seq<Event>, e: Event)
    ensures Micros(es + [e]) == if e.Call? then Micros(es) + [e.micros] else Micros(es)
  {
    assert (es + [e])[..|es|] == es;
  }

  /** Such calls, an expiry check, and one more call. */
  lemma RunWithExpiry(us: seq<nat>, e: Event, last: Event)
    requires e.Expiry? && last.Call? && |last.member| == |us|
    requires Ordered(us) && (forall i | 0 <= i < |us| :: us[i] <= e.micros) && e.micros <= last.micros
    ensures WellTimed(Calls(us) + [e] + [last])
    ensures Micros(Calls(us) + [e] + [last]) == us + [last.micros]
  {
    var calls := Calls(us);
    assert forall i | 0 <= i < |us| :: |calls[i].member| == i && calls[i].micros == us[i];
    TimedAppend(calls, e);
    TimedAppend(calls + [e], last);
    MicrosOfCalls(us);
    MicrosAppend(calls, e);
    MicrosAppend(calls + [e], last);
  }

  lemma TightRun()
    ensures WellTimed(TIGHT_RUN) && Micros(TIGHT_RUN) == TIGHT
  {
    var us, last := TIGHT[..10], Calls(TIGHT)[10];
    assert Calls(TIGHT)[..10] == Calls(us) && Calls(TIGHT)[10..] == [last];
    RunWithExpiry(us, Expiry(5_000_000), last);
    assert us + [TIGHT[10]] == TIGHT;
  }

  lemma {:induction false} AtMostAll(picks: seq<bool>, ts: seq<int>, cutoff: int, n: nat)
    requires n <= |picks| == |ts|
    ensures PickedAfter(picks, ts, cutoff, n) <= n
    ensures (forall i | 0 <= i < n :: ts[i] <= cutoff) ==> PickedAfter(picks, ts, cutoff, n) == 0
  {
    if n > 0 {
      AtMostAll(picks, ts, cutoff, n - 1);
    }
  }

  lemma {:induction false} TotalOfAll(d: seq<bool>, n: nat)
    requires n <= |d| && forall i | 0 <= i < n :: d[i]
    ensures Total(d, n) == n
  {
    if n > 0 {
      TotalOfAll(d, n - 1);
    }
  }

  lemma TightDecisions()
    ensures var d := Decisions(AllMillis(TIGHT), WINDOW);
            d[0] && d[10] && Total(d, 0) == 0 && Total(d, 10) == LIMIT
  {
    var ts := AllMillis(TIGHT);
    var d := Decisions(ts, WINDOW);
    assert ts[10] == 5000 && forall i | 0 <= i < 10 :: ts[i] == 0;
    forall n: nat | n <= 10
      ensures d[n]
    {
      AdmittedIffRoom(ts, n, WINDOW);
      AtMostAll(d, ts, ts[n] - WINDOW, n);
    }
    TotalOfAll(d, 10);
  }

  /** The microsecond bound is attained, by a run of the script in which the key expires. */
  lemma SpacingIsTight()
    ensures WellTimed(TIGHT_RUN) && TenApart(TIGHT_RUN, 0, 10) && |Micros(TIGHT_RUN)| == 11
    ensures Micros(TIGHT_RUN)[10] == Micros(TIGHT_RUN)[0] + 4_999_001
  {
    TightRun();
    RunRefines(TIGHT_RUN);
    TightDecisions();
  }
}
