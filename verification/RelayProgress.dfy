/**
 Sends and relays are never stuck: as long as one is not through, some step of its own can be
 taken; a fan-out's own steps use it up.
 */
module RelayProgress {
  import opened Distinct
  import FanOut
  import opened Relaying
  import opened RelayOrder

  /** The steps of fan-out `i`: one more attempt, or the eviction it has decided on. */
  predicate OfFan(step: Step, i: nat) {
    step.Local? && ((step.step.Attempt? && step.step.i == i) || (step.step.Evict? && step.step.i == i))
  }

  /** What is left of a fan-out: two steps for each client, one for an eviction. */
  function FanLeft(s: State, i: nat): nat
    requires i < |s.core.fans|
  {
    2 * |s.core.fans[i].todo| + if s.core.fans[i].evicting.Some? then 1 else 0
  }

  lemma FanCanMove(s: State, i: nat)
    requires Relaying.Inv(s) && i < |s.core.fans| && !s.core.fans[i].Over()
    ensures exists step :: Enabled(s, step) && OfFan(step, i)
  {
    var f := s.core.fans[i];
    assert FanOut.FanOk(s.core, i);
    if f.evicting.Some? {
      assert Enabled(s, Local(FanOut.Evict(i))) && OfFan(Local(FanOut.Evict(i)), i);
    } else {
      var c :| c in f.todo;
      assert c in f.snapshot;
      assert Enabled(s, Local(FanOut.Attempt(i, c))) && OfFan(Local(FanOut.Attempt(i, c)), i);
    }
  }

  lemma FanMoves(s: State, step: Step, i: nat)
    requires Enabled(s, step) && i < |s.core.fans|
    ensures i < |Next(s, step).core.fans|
    ensures if OfFan(step, i) then FanLeft(Next(s, step), i) < FanLeft(s, i) else FanLeft(Next(s, step), i) == FanLeft(s, i)
  {
    if OfFan(step, i) && step.step.Attempt? {
      FanOut.AttemptDecides(s.core, i, step.step.c);
      assert |s.core.fans[i].todo - {step.step.c}| == |s.core.fans[i].todo| - 1;
    }
  }

  predicate OfSend(s: State, step: Step, k: nat) {
    || step == NextUser(k) || step == Publish(k, true) || step == ReturnUnpublished(k)
    || (k < |s.sends| && s.sends[k].fans != [] && OfFan(step, s.sends[k].fans[|s.sends[k].fans| - 1]))
  }

  /** A call of SendToUsers can always go on: with its last fan-out, its next user, its publication, or its return. */
  lemma SendCanMove(ss: seq<State>, steps: seq<Step>, n: nat, k: nat)
    requires IsExecution(ss, steps) && n <= |steps| && k < |ss[n].sends| && !ss[n].sends[k].returned
    ensures exists step :: Enabled(ss[n], step) && OfSend(ss[n], step, k)
    ensures LoopDone(ss[n], k) && ss[n].sends[k].users != [] ==> Enabled(ss[n], Publish(k, true))
  {
    ExecutionKeepsInv(ss, steps, n);
    var s, d := ss[n], ss[n].sends[k];
    assert SendOk(s, k);
    if d.next == |d.users| {
      assert d.users[..d.next] == d.users;
      if d.users != [] {
        assert d.users[0] in d.unique;
      }
    }
    if !LastOver(s.core, d.fans) {
      assert FanOfSend(s, k, |d.fans| - 1);
      FanCanMove(s, d.fans[|d.fans| - 1]);
      var step :| Enabled(s, step) && OfFan(step, d.fans[|d.fans| - 1]);
      assert OfSend(s, step, k);
    } else if d.next < |d.users| {
      assert Enabled(s, NextUser(k)) && OfSend(s, NextUser(k), k);
    } else {
      assert Enabled(s, ReturnUnpublished(k)) && OfSend(s, ReturnUnpublished(k), k);
    }
  }

  predicate OfRelay(s: State, step: Step, h: nat) {
    || step == RelayUser(h) || step == RelayDone(h)
    || (RelayOf(s, h).Busy? && RelayOf(s, h).fans != [] && OfFan(step, RelayOf(s, h).fans[|RelayOf(s, h).fans| - 1]))
  }

  /** So can a relay, and an idle one takes the first packet that waits. */
  lemma RelayCanMove(ss: seq<State>, steps: seq<Step>, n: nat, h: nat)
    requires IsExecution(ss, steps) && n <= |steps|
    ensures RelayOf(ss[n], h).Busy? ==> exists step :: Enabled(ss[n], step) && OfRelay(ss[n], step, h)
    ensures RelayOf(ss[n], h).Idle? && Inbox(ss[n], h) != [] ==> Enabled(ss[n], Receive(h))
    ensures ss[n].channel != [] ==> forall reached :: Enabled(ss[n], HandOff(reached))
  {
    ExecutionKeepsOrder(ss, steps, n);
    ExecutionKeepsInv(ss, steps, n);
    var s, r := ss[n], RelayOf(ss[n], h);
    if r.Busy? {
      assert HubOrder(s, h);
      if !LastOver(s.core, r.fans) {
        FanCanMove(s, r.fans[|r.fans| - 1]);
        var step :| Enabled(s, step) && OfFan(step, r.fans[|r.fans| - 1]);
        assert OfRelay(s, step, h);
      } else if |r.fans| < |r.packet.users| {
        assert Enabled(s, RelayUser(h)) && OfRelay(s, RelayUser(h), h);
      } else {
        assert Enabled(s, RelayDone(h)) && OfRelay(s, RelayDone(h), h);
      }
    }
  }
}
