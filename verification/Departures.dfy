/**
 Who leaves a hub, and why: a client is evicted only when a fan-out found its queue full.
 */
module Departures {
  import opened Options
  import FanOut
  import opened Relaying
  import opened RelayOrder

  /** In step `a` fan-out `i` tried client `c` and found 20 unwritten items. */
  ghost predicate FoundFull(ss: seq<State>, steps: seq<Step>, a: nat, i: nat, c: FanOut.Client)
    requires |ss| == |steps| + 1 && a < |steps|
  {
    && steps[a] == Local(FanOut.Attempt(i, c)) && c in ss[a].core.clients
    && FanOut.Unwritten(ss[a].core.clients[c]) == 20
  }

  /** A fan-out that means to evict a client has found it full. */
  lemma {:induction false} EvictingMeansFull(ss: seq<State>, steps: seq<Step>, n: nat, i: nat, c: FanOut.Client) returns (a: nat)
    requires IsExecution(ss, steps) && n <= |steps|
    requires i < |ss[n].core.fans| && ss[n].core.fans[i].evicting == Some(c)
    ensures a < n && FoundFull(ss, steps, a, i, c)
  {
    a := n - 1;
    var s, step := ss[n - 1], steps[n - 1];
    assert TakesStep(ss, steps, n - 1);
    if i < |s.core.fans| && s.core.fans[i].evicting == Some(c) {
      a := EvictingMeansFull(ss, steps, n - 1, i, c);
    } else {
      ExecutionKeepsInv(ss, steps, n - 1);
      NewlyEvicting(s, step, i, c);
    }
  }

  lemma NewlyEvicting(s: State, step: Step, i: nat, c: FanOut.Client)
    requires Relaying.Inv(s) && Enabled(s, step) && i < |Next(s, step).core.fans|
    requires Next(s, step).core.fans[i].evicting == Some(c)
    requires !(i < |s.core.fans| && s.core.fans[i].evicting == Some(c))
    ensures step == Local(FanOut.Attempt(i, c)) && c in s.core.clients && FanOut.Unwritten(s.core.clients[c]) == 20
  {
    if step.Local? && step.step.Attempt? {
      FanOut.AttemptDecides(s.core, step.step.i, step.step.c);
      assert FanOut.ConnOk(s.core, step.step.c);
    }
  }

  /**
   Through all replicas' sends, relays and losses a registered client leaves only when its
   connection ends, when its hub shuts down, or when a fan-out to it that found 20 unwritten
   items in its queue evicts it.
   */
  lemma LeavesOnlyFor(ss: seq<State>, steps: seq<Step>, n: nat, c: FanOut.Client)
    requires IsExecution(ss, steps) && n < |steps|
    requires c in ss[n].core.registered && c !in ss[n + 1].core.registered
    ensures steps[n] == Local(FanOut.Unregister(c)) || steps[n] == Local(FanOut.Shutdown(c.hub))
         || (steps[n].Local? && steps[n].step.Evict?
             && exists a :: 0 <= a < n && FoundFull(ss, steps, a, steps[n].step.i, c))
  {
    assert TakesStep(ss, steps, n);
    var s, step := ss[n], steps[n];
    if step.Local? {
      FanOut.Registration(s.core, step.step, c);
      if step.step.Evict? {
        var a := EvictingMeansFull(ss, steps, n, step.step.i, c);
      }
    }
  }
}
