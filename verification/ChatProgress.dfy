/**
 What becomes of the calls of ChatCalls: every get-or-create caller that is not aborted ends
 with the pair's chat, a membership call is refused only for want of the right, and the calls
 never wait for one another in a circle.
 */
module ChatProgress {
  import opened Options
  import opened Tables
  import opened ChatCalls

  // ---- Get or create ----

  /** How many statements a caller still has to go, at most. */
  function StatementsLeft(phase: DirectPhase): nat {
    match phase
    case Asked => 6
    case Missed => 5
    case Speculative(_) => 4
    case Holding(_, inserted) => if inserted < 2 then 3 - inserted else 1
    case Lost => 2
    case Found(_) => 1
    case _ => 0
  }

  /** The caller holds the pair's committed chat and is a member of it. */
  ghost predicate Served(t: Tables, call: Call) {
    && call.Direct? && call.phase.Returned? && IsDirectRow(t, call.phase.chat, call.Pair())
    && Key(call.phase.chat, call.me) in t.members
  }

  /** A statement of its own brings a caller on; nothing but an abort fails it, and nothing else touches it. */
  lemma StatementCounts(s: State, step: Step, i: nat)
    requires Inv(s) && Enabled(s, step) && i < |s.calls| && s.calls[i].Direct?
    ensures i < |Next(s, step).calls| && Next(s, step).calls[i].Direct?
    ensures Next(s, step).calls[i].me == s.calls[i].me && Next(s, step).calls[i].peer == s.calls[i].peer
    ensures var before, after := s.calls[i].phase, Next(s, step).calls[i].phase;
            && (after.Aborted? && !before.Aborted? <==> step == Abort(i) && !before.Aborted?)
            && (step.Advance? && step.i == i ==> StatementsLeft(after) < StatementsLeft(before))
            && (((step.Advance? || step.Abort?) && step.i == i) || after == before)
  {
    assert CallOk(s.tables, s.calls[i]);
  }

  lemma FirstLook(t: Tables, pair: Pair)
    ensures pair in t.directs.Values <==> exists chat :: IsDirectRow(t, chat, pair)
  {
    if pair in t.directs.Values {
      var chat :| chat in t.directs && t.directs[chat] == pair;
      assert IsDirectRow(t, chat, pair);
    }
  }

  /**
   The first look finds the chat exactly if the pair has one. From a lost race it is exactly two
   statements to the winner's chat, and one from having found it.
   */
  lemma RereadsWinner(s: State, step: Step, i: nat)
    requires Inv(s) && Enabled(s, step) && i < |s.calls| && s.calls[i].Direct? && step.Advance? && step.i == i
    ensures s.calls[i].phase.Asked? ==>
              if exists chat :: IsDirectRow(s.tables, chat, s.calls[i].Pair())
              then Next(s, step).calls[i].phase.Found? else Next(s, step).calls[i].phase.Missed?
    ensures s.calls[i].phase.Lost? ==> Next(s, step).calls[i].phase.Found?
    ensures s.calls[i].phase.Found? ==> Next(s, step).calls[i].phase == Returned(s.calls[i].phase.chat)
  {
    assert CallOk(s.tables, s.calls[i]);
    if s.calls[i].phase.Found? {
      assert DirectOk(s.tables, s.calls[i].phase.chat);
    } else if s.calls[i].phase.Asked? {
      FirstLook(s.tables, s.calls[i].Pair());
    }
  }

  function Statements(steps: seq<Step>, m: nat, n: nat, i: nat): nat
    requires m <= n <= |steps|
  {
    if m == n then 0
    else Statements(steps, m, n - 1, i) + if steps[n - 1].Advance? && steps[n - 1].i == i then 1 else 0
  }

  ghost predicate NotAborted(steps: seq<Step>, m: nat, n: nat, i: nat)
    requires m <= n <= |steps|
  {
    forall a | m <= a < n :: steps[a] != Abort(i)
  }

  /** A caller that has returned is served, whatever has happened since. */
  lemma ReturnedIsServed(ss: seq<State>, steps: seq<Step>, n: nat, i: nat)
    requires IsExecution(ss, steps) && n <= |steps| && i < |ss[n].calls|
    requires ss[n].calls[i].Direct? && ss[n].calls[i].phase.Returned?
    ensures Served(ss[n].tables, ss[n].calls[i])
  {
    ExecutionKeepsInv(ss, steps, n);
    var t, call := ss[n].tables, ss[n].calls[i];
    assert CallOk(t, call) && DirectOk(t, call.phase.chat);
  }

  lemma {:induction false} CountDown(ss: seq<State>, steps: seq<Step>, m: nat, n: nat, i: nat)
    requires IsExecution(ss, steps) && m <= n <= |steps| && i < |ss[m].calls| && ss[m].calls[i].Direct?
    requires NotAborted(steps, m, n, i) && !ss[m].calls[i].phase.Aborted?
    ensures i < |ss[n].calls| && ss[n].calls[i].Direct? && !ss[n].calls[i].phase.Aborted?
    ensures ss[n].calls[i].me == ss[m].calls[i].me && ss[n].calls[i].peer == ss[m].calls[i].peer
    ensures Statements(steps, m, n, i) + StatementsLeft(ss[n].calls[i].phase) <= StatementsLeft(ss[m].calls[i].phase)
    ensures Statements(steps, m, n, i) == 0 ==> ss[n].calls[i].phase == ss[m].calls[i].phase
    decreases n
  {
    if m < n {
      CountDown(ss, steps, m, n - 1, i);
      ExecutionKeepsInv(ss, steps, n - 1);
      assert TakesStep(ss, steps, n - 1);
      StatementCounts(ss[n - 1], steps[n - 1], i);
    }
  }

  /**
   Every caller that is not aborted is served: after as many statements as it had left, and
   whatever other calls do between them, it has returned the pair's chat and is a member.
   */
  lemma EveryCallerIsServed(ss: seq<State>, steps: seq<Step>, m: nat, n: nat, i: nat)
    requires IsExecution(ss, steps) && m <= n <= |steps| && i < |ss[m].calls| && ss[m].calls[i].Direct?
    requires NotAborted(steps, m, n, i) && !ss[m].calls[i].phase.Aborted?
    requires i < |ss[n].calls|
             && (Statements(steps, m, n, i) >= StatementsLeft(ss[m].calls[i].phase) || !ss[n].calls[i].Open())
    ensures ss[n].calls[i].Direct? && Served(ss[n].tables, ss[n].calls[i])
    ensures ss[n].calls[i].me == ss[m].calls[i].me && ss[n].calls[i].peer == ss[m].calls[i].peer
  {
    CountDown(ss, steps, m, n, i);
    NeverNotFound(ss, steps, n, i);
    ReturnedIsServed(ss, steps, n, i);
  }

  lemma {:induction false} FoundStays(ss: seq<State>, steps: seq<Step>, m: nat, n: nat, i: nat)
    requires IsExecution(ss, steps) && m <= n <= |steps| && i < |ss[m].calls| && ss[m].calls[i].Direct?
    requires NotAborted(steps, m, n, i)
    requires ss[m].calls[i].phase.Lost? || ss[m].calls[i].phase.Found?
    ensures i < |ss[n].calls| && ss[n].calls[i].Direct?
    ensures var left := (if ss[m].calls[i].phase.Lost? then 2 else 1) - Statements(steps, m, n, i);
            var phase := ss[n].calls[i].phase;
            if left == 2 then phase.Lost? else if left == 1 then phase.Found? else left == 0 && phase.Returned?
    decreases n
  {
    if m < n {
      FoundStays(ss, steps, m, n - 1, i);
      ExecutionKeepsInv(ss, steps, n - 1);
      assert TakesStep(ss, steps, n - 1);
      StatementCounts(ss[n - 1], steps[n - 1], i);
      if steps[n - 1].Advance? && steps[n - 1].i == i {
        RereadsWinner(ss[n - 1], steps[n - 1], i);
      }
    }
  }

  /** A caller that lost the race, or has found the chat, gets it in exactly two statements, or one. */
  lemma LoserGetsWinnersChat(ss: seq<State>, steps: seq<Step>, m: nat, n: nat, i: nat)
    requires IsExecution(ss, steps) && m <= n <= |steps| && i < |ss[m].calls| && ss[m].calls[i].Direct?
    requires NotAborted(steps, m, n, i)
    requires (ss[m].calls[i].phase.Lost? && Statements(steps, m, n, i) == 2)
          || (ss[m].calls[i].phase.Found? && Statements(steps, m, n, i) == 1)
    ensures i < |ss[n].calls| && Served(ss[n].tables, ss[n].calls[i])
  {
    FoundStays(ss, steps, m, n, i);
    ReturnedIsServed(ss, steps, n, i);
  }

  // ---- Nobody waits for ever ----

  lemma {:induction false} SomeLarger(s: set<nat>) returns (m: nat)
    ensures forall x | x in s :: x < m
  {
    m := 0;
    if s != {} {
      var x :| x in s;
      var rest := SomeLarger(s - {x});
      m := if x < rest then rest else x + 1;
      assert forall y | y in s :: y == x || y in s - {x};
    }
  }

  function Reserved(calls: seq<Call>): set<ChatId> {
    set j, c | 0 <= j < |calls| && c in ReservedBy(calls[j]) :: c
  }

  function ReservedBy(call: Call): set<ChatId> {
    if call.Direct? && call.phase.Speculative? then {call.phase.chat}
    else if call.Direct? && call.phase.Holding? then {call.phase.chat}
    else {}
  }

  /** There is always an id that no chat has. */
  lemma FreshExists(s: State) returns (chat: ChatId)
    ensures Fresh(s, chat)
  {
    chat := SomeLarger(s.tables.chats.Keys + Reserved(s.calls));
    forall j, c | 0 <= j < |s.calls| && s.calls[j].Reserves(c)
      ensures c in Reserved(s.calls)
    {
      assert c in ReservedBy(s.calls[j]);
    }
    assert chat !in s.tables.chats.Keys + Reserved(s.calls);
  }

  /** A caller waits only while another transaction holds its pair, and that one does not wait. */
  lemma WhoWaits(s: State, i: nat)
    requires i < |s.calls| && s.calls[i].Open()
    ensures (exists pick :: Enabled(s, Advance(i, pick)))
         || (s.calls[i].Direct? && s.calls[i].phase.Speculative?
             && exists j :: 0 <= j < |s.calls| && j != i && s.calls[j].HoldsPair(s.calls[i].Pair())
                            && s.calls[j].Open() && Enabled(s, Advance(j, 0)))
  {
    var call := s.calls[i];
    if call.Direct? && call.phase.Missed? {
      var pick := FreshExists(s);
      assert Enabled(s, Advance(i, pick));
    } else if call.Direct? && (call.phase.Asked? || call.phase.Lost?) && call.Pair() in s.tables.directs.Values {
      var pick :| pick in s.tables.directs && s.tables.directs[pick] == call.Pair();
      assert Enabled(s, Advance(i, pick));
    } else if call.Direct? && call.phase.Speculative?
              && exists j :: 0 <= j < |s.calls| && j != i && s.calls[j].HoldsPair(call.Pair()) {
      var j :| 0 <= j < |s.calls| && j != i && s.calls[j].HoldsPair(call.Pair());
      assert Enabled(s, Advance(j, 0));
    } else {
      assert Enabled(s, Advance(i, 0));
    }
  }

  /** As long as a call is open, some call can take its next statement. */
  lemma NoDeadlock(s: State, i: nat)
    requires i < |s.calls| && s.calls[i].Open()
    ensures exists j, pick :: 0 <= j < |s.calls| && s.calls[j].Open() && Enabled(s, Advance(j, pick))
  {
    WhoWaits(s, i);
  }

  // ---- Memberships ----

  /** The caller has the right to do what it asks: a group's admin, who does not remove itself. */
  predicate Entitled(t: Tables, call: Call)
    requires call.Membership?
  {
    && call.chat in t.chats && t.chats[call.chat].kind.GroupChat? && IsAdminOf(t, call.chat, call.actor)
    && !(call.remove && call.actor == call.target)
  }

  /** A membership call is refused only if its caller is not entitled, or by an abort. */
  lemma RefusedForAReason(s: State, step: Step, i: nat)
    requires Inv(s) && Enabled(s, step) && i < |s.calls| && s.calls[i].Membership?
    ensures i < |Next(s, step).calls| && Next(s, step).calls[i].Membership?
    ensures Next(s, step).calls[i].step.Rejected? && !s.calls[i].step.Rejected? ==>
              step == Abort(i) || (step.Advance? && step.i == i && !Entitled(s.tables, s.calls[i]))
  {
    assert CallOk(s.tables, s.calls[i]);
    if s.calls[i].step.IsAdmin? {
      assert ChatOk(s.tables, s.calls[i].chat);
    }
  }

  /** An entitled caller's statements take it through the two checks to its change, whoever runs between them. */
  lemma EntitledGoesThrough(s: State, i: nat)
    requires Inv(s) && i < |s.calls| && s.calls[i].Membership? && s.calls[i].Open() && Entitled(s.tables, s.calls[i])
    ensures Enabled(s, Advance(i, 0))
    ensures var call, s' := s.calls[i], Next(s, Advance(i, 0));
            && |s'.calls| == |s.calls| && s'.calls[i].Membership?
            && s'.calls[i].step == (if call.step.Asked? then IsGroup else if call.step.IsGroup? then IsAdmin else Done)
            && (!call.step.IsAdmin? ==> s'.tables == s.tables)
            && (call.step.IsAdmin? ==>
                  var k := Key(call.chat, call.target);
                  && (k in s'.tables.members <==> !call.remove)
                  && OnlyMemberChanged(s.tables, s'.tables, k)
                  && (!call.remove && k !in s.tables.members ==>
                        var m := s'.tables.members[k]; m.role.Ordinary? && !m.muted && m.muteVersion == 0)
                  && (!call.remove && k in s.tables.members ==> s'.tables == s.tables))
  {
    assert CallOk(s.tables, s.calls[i]) && ChatOk(s.tables, s.calls[i].chat);
  }
}
