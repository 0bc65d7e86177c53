/**
 Sends that follow one another, and where their order can be lost: the hub at which the later
 one begins queues it without waiting for what the relay has yet to bring.
 */
module Overtaking {
  import Options
  import FanOut
  import opened Relaying
  import opened RelayOrder

  /** Send `k` of hub `a` returned before send `l` of hub `b` began, and a client of hub `h` has the copy of `l` first. */
  ghost predicate Overtaken(
    ss: seq<State>, steps: seq<Step>, m: nat, n: nat, c: FanOut.Client, k: nat, l: nat, p: nat, q: nat,
    a: nat, b: nat, h: nat)
  {
    && IsExecution(ss, steps) && m <= n <= |steps|
    && k < |ss[m].sends| <= l < |ss[n].sends| && ss[m].sends[k].returned
    && IsCopyOf(ss[n], c, p, k) && IsCopyOf(ss[n], c, q, l) && q <= p
    && ss[m].sends[k].hub == a && ss[n].sends[l].hub == b && c.hub == h
  }

  /** An execution in which the relay of `a`'s send reaches hub `b` after `b`'s own later send. */
  function Steps(a: nat, b: nat): seq<Step> {
    var c := FanOut.Client(b, 0, 0);
    [Local(FanOut.Register(c)), Begin(a, [0]), NextUser(0), Publish(0, true),
     Begin(b, [0]), NextUser(1), Local(FanOut.Attempt(1, c)),
     HandOff({b}), Receive(b), RelayUser(b), Local(FanOut.Attempt(2, c))]
  }

  function States(a: nat, b: nat): seq<State> {
    var c := FanOut.Client(b, 0, 0);
    var f0 := FanOut.Fan(FanOut.Tag(0, a, 0), {}, {}, Options.None, {});
    var f1 := FanOut.Fan(FanOut.Tag(1, b, 0), {c}, {c}, Options.None, {0});
    var f2 := FanOut.Fan(FanOut.Tag(0, b, 0), {c}, {c}, Options.None, {0, 1});
    var empty, first, both := FanOut.Conn([], 0, 0), FanOut.Conn([FanOut.Copy(1)], 0, 0),
                              FanOut.Conn([FanOut.Copy(1), FanOut.Copy(2)], 0, 0);
    var d0, d1 := Send(a, [0], 1, [0], [0], 0, true), Send(b, [0], 1, [0], [1], 1, false);
    var packet := Packet(0, a, [0]);
    var s1 := INITIAL.(core := FanOut.Core(map[c := empty], {c}, []));
    var s2 := s1.(sends := [Send(a, [0], 0, [], [], 0, false)]);
    var s3 := s1.(core := FanOut.Core(map[c := empty], {c}, [f0]), sends := [d0.(returned := false)]);
    var s4 := s3.(sends := [d0], channel := [packet], published := [0]);
    var s5 := s4.(sends := [d0, Send(b, [0], 0, [], [], 1, false)]);
    var s6 := s4.(core := FanOut.Core(map[c := empty], {c}, [f0, f1]), sends := [d0, d1]);
    var s7 := s6.(core := FanOut.Core(map[c := first], {c}, [f0, f1.(todo := {})]));
    var s8 := s7.(channel := [], inbox := map[b := [packet]]);
    var s9 := s8.(inbox := map[b := []], relay := map[b := Busy(packet, [])]);
    var s10 := s9.(core := FanOut.Core(map[c := first], {c}, [f0, f1.(todo := {}), f2]), relay := map[b := Busy(packet, [2])]);
    var s11 := s10.(core := FanOut.Core(map[c := both], {c}, [f0, f1.(todo := {}), f2.(todo := {})]));
    [INITIAL, s1, s2, s3, s4, s5, s6, s7, s8, s9, s10, s11]
  }

  lemma FansStarted(s: FanOut.Core, tag: FanOut.Tag, snapshot: set<FanOut.Client>, over: set<nat>)
    requires snapshot == FanOut.ClientsOf(s, tag.hub, tag.user)
    requires forall i: nat :: i in over <==> i < |s.fans| && s.fans[i].Over()
    ensures FanOut.Next(s, FanOut.Start(tag))
         == s.(fans := s.fans + [FanOut.Fan(tag, snapshot, snapshot, Options.None, over)])
  {
    assert over == set i | 0 <= i < |s.fans| && s.fans[i].Over();
  }

  /** The first fan-out of a send to one user. */
  lemma SendStarts(s: State, k: nat, h: nat, began: nat, snapshot: set<FanOut.Client>, over: set<nat>)
    requires k < |s.sends| && s.sends[k] == Send(h, [0], 0, [], [], began, false)
    requires snapshot == FanOut.ClientsOf(s.core, h, 0)
    requires forall i: nat :: i in over <==> i < |s.core.fans| && s.core.fans[i].Over()
    ensures Enabled(s, NextUser(k))
    ensures Next(s, NextUser(k))
         == s.(core := s.core.(fans := s.core.fans + [FanOut.Fan(FanOut.Tag(k, h, 0), snapshot, snapshot, Options.None, over)]),
               sends := s.sends[k := Send(h, [0], 1, [0], [|s.core.fans|], began, false)])
  {
    FansStarted(s.core, FanOut.Tag(k, h, 0), snapshot, over);
    assert [] + [0] == [0] && [] + [|s.core.fans|] == [|s.core.fans|];
  }

  lemma FirstSendStarts(a: nat, b: nat)
    requires a != b
    ensures TakesStep(States(a, b), Steps(a, b), 2)
  {
    var s, s' := States(a, b)[2], States(a, b)[3];
    SendStarts(s, 0, a, 0, {}, {});
    assert s.sends[0 := Send(a, [0], 1, [0], [0], 0, false)] == s'.sends;
  }

  lemma SecondSendStarts(a: nat, b: nat)
    requires a != b
    ensures TakesStep(States(a, b), Steps(a, b), 5)
  {
    var s, s' := States(a, b)[5], States(a, b)[6];
    SendStarts(s, 1, b, 1, {FanOut.Client(b, 0, 0)}, {0});
    assert s.sends[1 := Send(b, [0], 1, [0], [1], 1, false)] == s'.sends;
  }

  lemma RelayStarts(a: nat, b: nat)
    requires a != b
    ensures TakesStep(States(a, b), Steps(a, b), 9)
  {
    var ss, c := States(a, b), FanOut.Client(b, 0, 0);
    var s, s' := ss[9], ss[10];
    FansStarted(s.core, FanOut.Tag(0, b, 0), {c}, {0, 1});
    assert [] + [2] == [2];
    assert s'.relay == Next(s, RelayUser(b)).relay;
  }

  lemma Queues(a: nat, b: nat, n: nat)
    requires a != b && (n == 6 || n == 10)
    ensures TakesStep(States(a, b), Steps(a, b), n)
  {
    var ss, c := States(a, b), FanOut.Client(b, 0, 0);
    var s, s' := ss[n], ss[n + 1];
    assert {c} - {c} == {};
    assert s.core.clients[c].log + [FanOut.Copy(if n == 6 then 1 else 2)] == s'.core.clients[c].log;
    assert s'.core.fans == Next(s, Steps(a, b)[n]).core.fans;
    assert s'.core.clients == Next(s, Steps(a, b)[n]).core.clients;
  }

  lemma HandsOff(a: nat, b: nat)
    requires a != b
    ensures TakesStep(States(a, b), Steps(a, b), 7)
  {
    var s, s' := States(a, b)[7], States(a, b)[8];
    assert Inbox(s, b) + [s.channel[0]] == [s.channel[0]] && s.channel[1..] == [];
    assert s'.inbox == Next(s, HandOff({b})).inbox;
  }

  lemma Received(a: nat, b: nat)
    requires a != b
    ensures TakesStep(States(a, b), Steps(a, b), 8)
  {
    var s, s' := States(a, b)[8], States(a, b)[9];
    var p := Packet(0, a, [0]);
    assert Inbox(s, b) == [p] && [p][1..] == [] && RelayOf(s, b) == Idle;
    assert s.inbox[b := []] == s'.inbox && s.relay[b := Busy(p, [])] == s'.relay;
    assert Next(s, Receive(b)) == s.(inbox := s.inbox[b := []], relay := s.relay[b := Busy(p, [])]);
  }

  lemma OtherStep(a: nat, b: nat, n: nat)
    requires a != b && (n == 0 || n == 1 || n == 3 || n == 4)
    ensures TakesStep(States(a, b), Steps(a, b), n)
  {
    assert States(a, b)[n + 1].sends == Next(States(a, b)[n], Steps(a, b)[n]).sends;
  }

  lemma OvertakenAtOrigin(a: nat, b: nat)
    requires a != b
    ensures Overtaken(States(a, b), Steps(a, b), 4, 11, FanOut.Client(b, 0, 0), 0, 1, 1, 0, a, b, b)
  {
    var ss, steps := States(a, b), Steps(a, b);
    forall n | 0 <= n < |steps|
      ensures TakesStep(ss, steps, n)
    {
      if n == 2 {
        FirstSendStarts(a, b);
      } else if n == 5 {
        SecondSendStarts(a, b);
      } else if n == 6 || n == 10 {
        Queues(a, b, n);
      } else if n == 7 {
        HandsOff(a, b);
      } else if n == 8 {
        Received(a, b);
      } else if n == 9 {
        RelayStarts(a, b);
      } else {
        OtherStep(a, b, n);
      }
    }
  }

  /** Clients of hub `h` always get a send of hub `a` before any that begins at hub `b` after it has returned. */
  ghost predicate AlwaysInOrder(a: nat, b: nat, h: nat) {
    forall ss, steps, m, n, c, k, l, p, q :: !Overtaken(ss, steps, m, n, c, k, l, p, q, a, b, h)
  }

  /** Exactly when sends one after the other arrive in that order: everywhere but at the later one's own hub. */
  lemma InOrderExactlyWhen(a: nat, b: nat, h: nat)
    ensures AlwaysInOrder(a, b, h) <==> h == a || h != b
  {
    if h == a || h != b {
      forall ss, steps, m: nat, n: nat, c, k: nat, l: nat, p: nat, q: nat
        ensures !Overtaken(ss, steps, m, n, c, k, l, p, q, a, b, h)
      {
        if Overtaken(ss, steps, m, n, c, k, l, p, q, a, b, h) {
          SendsArriveInOrder(ss, steps, m, n, c, k, l, p, q);
        }
      }
    } else {
      OvertakenAtOrigin(a, b);
    }
  }
}
