/**
 The in-memory limiter. Each user's attempts are a Go slice, compacted in place by
 writing the kept attempts over the front of the very array that is being read.
 */
module MessageRateLimiting {
  import opened SlidingWindow

  /** MessageRateLimitWindow, in nanoseconds. */
  const WINDOW: int := 5_000_000_000

  /** A Go slice: nil, or the first `len` cells of a backing array whose length is the capacity. */
  datatype Slice = Nil | Slice(backing: array<int>, len: nat) {
    ghost function Cells(): set<array<int>> {
      if Nil? then {} else {backing}
    }

    ghost predicate Valid() {
      Nil? || len <= backing.Length
    }

    ghost function Contents(): seq<int>
      requires Valid()
      reads Cells()
    {
      if Nil? then [] else backing[..len]
    }
  }

  /** One user: the log kept, and, told apart from it, the times of all calls and of the admitted ones. */
  datatype User = User(log: seq<int>, calls: seq<int>, granted: seq<int>)
  {
    ghost predicate Ok() {
      log == LogBefore(calls, |calls|, WINDOW) && granted == History(calls, |calls|, WINDOW)
    }

    function After(now: int, admitted: bool, log: seq<int>): User {
      User(log, calls + [now], if admitted then granted + [now] else granted)
    }
  }

  const NOBODY := User([], [], [])

  function Find(users: map<string, User>, u: string): User {
    if u in users then users[u] else NOBODY
  }

  lemma NextCall(user: User, now: int)
    requires user.Ok()
    ensures var o := Attempt(user.log, now, WINDOW); user.After(now, o.admitted, o.log).Ok()
    ensures Nondecreasing(user.calls + [now]) ==>
              (Attempt(user.log, now, WINDOW).admitted <==> LaterThan(user.granted, now - 5_000_000_000) < 10)
  {
    var o := Attempt(user.log, now, WINDOW);
    LogBeforeStep(user.calls, now, WINDOW);
    HistoryStep(user.calls, now, WINDOW, o.admitted);
    assert user.After(now, o.admitted, o.log).Ok();
    if Nondecreasing(user.calls + [now]) {
      NextDecision(user.calls, now, WINDOW, user.log, user.granted);
    }
  }

  class MessageRateLimiter {
    var attempts: map<string, Slice>
    /** What the slices hold, and what has happened. */
    ghost var Users: map<string, User>
    /** The backing arrays. */
    ghost var Repr: set<array<int>>

    /** Lengths fit their capacity and no two users share a backing array, `but` one user aside. */
    ghost predicate Consistent(but: set<string>)
      reads this, Repr
    {
      && attempts.Keys == Users.Keys
      && (forall u {:trigger attempts[u]} | u in attempts && u !in but ::
            && attempts[u].Slice? && attempts[u].backing in Repr
            && attempts[u].Valid()
            && attempts[u].Contents() == Users[u].log)
      && (forall u, v {:trigger attempts[u], attempts[v]} |
            u in attempts && v in attempts && u != v && u !in but && v !in but ::
            attempts[u].Slice? && attempts[v].Slice? && attempts[u].backing != attempts[v].backing)
    }

    ghost predicate Valid()
      reads this, Repr
    {
      Consistent({}) && forall u {:trigger Users[u]} | u in Users :: Users[u].Ok()
    }

    constructor ()
      ensures Valid() && Users == map[]
    {
      attempts, Users, Repr := map[], map[], {};
    }

    /**
     One call at clock reading `now`; the mutex makes the whole body one step. While a user's
     clock readings do not go back, the call is admitted exactly if fewer than ten earlier
     admissions lie strictly within the last five seconds.
     */
    method Allow(userID: string, now: int) returns (allowed: bool)
      requires Valid()
      modifies this, Repr
      ensures Valid() && fresh(Repr - old(Repr))
      ensures var before, after := Find(old(Users), userID), Find(Users, userID);
              && Users == old(Users)[userID := after]
              && Outcome(allowed, after.log) == Attempt(before.log, now, WINDOW)
              && after.calls == before.calls + [now]
              && after.granted == (if allowed then before.granted + [now] else before.granted)
              && (Nondecreasing(after.calls) ==> (allowed <==> LaterThan(before.granted, now - 5_000_000_000) < 10))
    {
      ghost var before := Find(Users, userID);
      NextCall(before, now);
      ghost var log;
      allowed, log := Update(userID, now, before);
    }

    /** The body of the call, on the slices; `before` is what is known of the user. */
    method Update(userID: string, now: int, ghost before: User) returns (allowed: bool, ghost log: seq<int>)
      requires Consistent({}) && before == Find(Users, userID)
      modifies this, Repr
      ensures Consistent({}) && fresh(Repr - old(Repr))
      ensures Outcome(allowed, log) == Attempt(before.log, now, WINDOW)
      ensures Users == old(Users)[userID := before.After(now, allowed, log)]
    {
      var recent;
      allowed, recent := AttemptOn(if userID in attempts then attempts[userID] else Nil, now);
      assert forall u | u in attempts && u != userID ::
          attempts[u].backing != recent.backing && attempts[u].Contents() == old(attempts[u].Contents());
      log := recent.Contents();
      Store(userID, recent, before.After(now, allowed, log));
    }

    /** The slice becomes the user's; it is no other user's. */
    method Store(userID: string, recent: Slice, ghost user: User)
      requires Consistent({userID}) && recent.Slice? && recent.Valid()
      requires forall u | u in attempts && u != userID :: attempts[u].backing != recent.backing
      requires user.log == recent.Contents()
      modifies this
      ensures Consistent({}) && Repr == old(Repr) + {recent.backing}
      ensures Users == old(Users)[userID := user]
    {
      attempts, Users, Repr := attempts[userID := recent], Users[userID := user], Repr + {recent.backing};
      assert recent.Contents() == user.log;
      forall u | u in attempts && u != userID
        ensures attempts[u].Slice? && attempts[u].Valid() && attempts[u].Contents() == Users[u].log
      {
        assert attempts[u] == old(attempts[u]) && Users[u] == old(Users[u]);
      }
    }
  }

  /** Filter the slice in place and append `now` to it when there is room. */
  method AttemptOn(s: Slice, now: int) returns (allowed: bool, recent: Slice)
    requires s.Valid()
    modifies s.Cells()
    ensures recent.Slice? && recent.len <= recent.backing.Length
    ensures (s.Slice? && recent.backing == s.backing) || fresh(recent.backing)
    ensures Outcome(allowed, recent.Contents()) == Attempt(old(s.Contents()), now, WINDOW)
  {
    ghost var kept := Recent(s.Contents(), now - WINDOW);
    recent := KeepRecent(s, now - WINDOW);
    assert recent.Contents() == kept;
    if recent.Slice? && recent.len >= LIMIT {
      allowed := false;
    } else {
      allowed := true;
      recent := Append(recent, now);
      assert recent.Contents() == kept + [now];
    }
  }

  /**
   The filtering loop: `recent` starts as the empty slice of the same backing array and
   each kept attempt is appended over cells the loop has already read.
   */
  method KeepRecent(s: Slice, cutoff: int) returns (recent: Slice)
    requires s.Valid()
    modifies s.Cells()
    ensures recent.Valid() && recent.Cells() == s.Cells()
    ensures recent.Contents() == Recent(old(s.Contents()), cutoff)
  {
    if s.Nil? {
      return Nil;
    }
    var a, kept := s.backing, 0;
    ghost var log := a[..s.len];
    for i := 0 to s.len
      invariant kept <= i
      invariant a[..kept] == Recent(log[..i], cutoff)
      invariant a[i..s.len] == log[i..]
    {
      ghost var rest := a[i..s.len];
      assert log[..i + 1][..i] == log[..i];
      assert a[i] == rest[0] == log[i];
      if a[i] > cutoff {
        a[kept] := a[i];
        kept := kept + 1;
      }
      assert a[i + 1..s.len] == rest[1..] == log[i + 1..];
    }
    assert log[..s.len] == log;
    recent := Slice(a, kept);
  }

  /** Go's append: in place while there is capacity, otherwise into a larger array. */
  method Append(s: Slice, t: int) returns (r: Slice)
    requires s.Valid()
    modifies s.Cells()
    ensures r.Valid() && r.Contents() == old(s.Contents()) + [t]
    ensures r.Cells() == s.Cells() || fresh(r.Cells())
  {
    if s.Nil? {
      var one := new int[1];
      one[0] := t;
      r := Slice(one, 1);
    } else if s.len < s.backing.Length {
      s.backing[s.len] := t;
      r := Slice(s.backing, s.len + 1);
    } else {
      var bigger := new int[2 * s.len + 1];
      forall i | 0 <= i < s.len {
        bigger[i] := s.backing[i];
      }
      bigger[s.len] := t;
      assert bigger[..s.len] == s.backing[..s.len];
      r := Slice(bigger, s.len + 1);
    }
  }
}
