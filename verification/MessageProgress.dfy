/**
 What becomes of the calls of MessageTransactions: each ends after a few statements of its own,
 fails only for the reason it reports, and changes one reaction row or one message; and the
 calls never wait for one another in a circle.
 */
module MessageProgress {
  import opened Options
  import opened Tables
  import opened Reactions
  import opened MessageRuns
  import opened MessageTransactions

  /** How many statements a call still has to go, at most. */
  function StatementsLeft(phase: Phase): nat {
    match phase
    case Asked => 7
    case Started => 6
    case Locked(_) => 5
    case RowsWritten(_, _, _) => 4
    case VersionWritten(_, _, _) => 3
    case Checked(_) => 3
    case ReadBack(_, _, _, _) => 2
    case Tombstoned(_, _) => 2
    case RowsCleared(_, _, _) => 1
    case _ => 0
  }

  /** Why a call that was open is so no longer. */
  ghost predicate EndsFor(t: Tables, call: Call, phase: Phase) {
    match phase
    case Committed(_, _) => true
    case NoAccess => Key(call.op.chat, call.op.user) !in t.members
    case NotFound => call.op.React? && !Live(t, call.op.chat, call.op.id)
    case NotAuthor =>
      !call.op.React? && !(Live(t, call.op.chat, call.op.id) && t.messages[call.op.id].sender == call.op.user)
    case Refused(_, _) =>
      !call.op.React? && !(Live(t, call.op.chat, call.op.id) && t.messages[call.op.id].sender == call.op.user)
    case _ => false
  }

  /** What one statement of its own does to a call. */
  ghost predicate Brings(t: Tables, before: Call, after: Call) {
    && after.op == before.op && StatementsLeft(after.phase) < StatementsLeft(before.phase)
    && (!after.Open() ==> EndsFor(t, before, after.phase))
  }

  lemma ReactStatement(s: State, i: nat)
    requires Inv(s) && Enabled(s, Advance(i)) && s.calls[i].op.React? && !s.calls[i].phase.Asked?
    ensures |ReactNext(s, i).calls| == |s.calls| && Brings(Now(s), s.calls[i], ReactNext(s, i).calls[i])
    ensures forall j | 0 <= j < |s.calls| && j != i :: ReactNext(s, i).calls[j] == s.calls[j]
  {
    assert RecordOk(s.past, s.changes, s.calls[i]);
    assert s.calls[i].Holds() ==> HolderOk(Now(s), s.calls[i]);
  }

  lemma RemoveStatement(s: State, i: nat)
    requires Inv(s) && Enabled(s, Advance(i)) && s.calls[i].op.Remove? && !s.calls[i].phase.Asked?
    ensures |RemoveNext(s, i).calls| == |s.calls| && Brings(Now(s), s.calls[i], RemoveNext(s, i).calls[i])
    ensures forall j | 0 <= j < |s.calls| && j != i :: RemoveNext(s, i).calls[j] == s.calls[j]
  {
    assert s.calls[i].Holds() ==> HolderOk(Now(s), s.calls[i]);
  }

  lemma RewriteStatement(s: State, i: nat)
    requires Inv(s) && Enabled(s, Advance(i)) && s.calls[i].op.Rewrite? && !s.calls[i].phase.Asked?
    ensures |RewriteNext(s, i).calls| == |s.calls| && Brings(Now(s), s.calls[i], RewriteNext(s, i).calls[i])
    ensures forall j | 0 <= j < |s.calls| && j != i :: RewriteNext(s, i).calls[j] == s.calls[j]
  {
    assert s.calls[i].Holds() ==> HolderOk(Now(s), s.calls[i]);
  }

  lemma OwnStatement(s: State, i: nat)
    requires Inv(s) && Enabled(s, Advance(i))
    ensures |Next(s, Advance(i)).calls| == |s.calls| && Brings(Now(s), s.calls[i], Next(s, Advance(i)).calls[i])
    ensures forall j | 0 <= j < |s.calls| && j != i :: Next(s, Advance(i)).calls[j] == s.calls[j]
  {
    if !s.calls[i].phase.Asked? {
      if s.calls[i].op.React? {
        ReactStatement(s, i);
      } else if s.calls[i].op.Remove? {
        RemoveStatement(s, i);
      } else {
        RewriteStatement(s, i);
      }
    }
  }

  /**
   A statement of its own brings a call on; what fails it then is that it has no access, the
   message is not live, or the caller is not its author. Otherwise only an abort ends it, and
   no other step touches it.
   */
  lemma StatementCounts(s: State, step: Step, i: nat)
    requires Inv(s) && Enabled(s, step) && i < |s.calls|
    ensures i < |Next(s, step).calls| && Next(s, step).calls[i].op == s.calls[i].op
    ensures step == Advance(i) ==> Brings(Now(s), s.calls[i], Next(s, step).calls[i])
    ensures step == Abort(i) ==> Next(s, step).calls[i].phase == Aborted
    ensures step != Advance(i) && step != Abort(i) ==> Next(s, step).calls[i].phase == s.calls[i].phase
  {
    if step.Advance? {
      OwnStatement(s, step.i);
    }
  }

  /** In particular a call that could change something right now goes on, or commits. */
  lemma NothingElseFails(s: State, i: nat)
    requires Inv(s) && Enabled(s, Advance(i)) && Key(s.calls[i].op.chat, s.calls[i].op.user) in Now(s).members
    requires Live(Now(s), s.calls[i].op.chat, s.calls[i].op.id)
    requires s.calls[i].op.React? || Now(s).messages[s.calls[i].op.id].sender == s.calls[i].op.user
    ensures var after := Next(s, Advance(i)).calls[i]; after.Open() || after.phase.Committed?
  {
    StatementCounts(s, Advance(i), i);
  }

  /** A call waits only for the holder of its message's lock, which does not wait. */
  lemma WhoWaits(s: State, i: nat)
    requires i < |s.calls| && s.calls[i].Open()
    ensures Enabled(s, Advance(i))
         || exists j :: 0 <= j < |s.calls| && j != i && s.calls[j].Holds() && s.calls[j].op.id == s.calls[i].op.id
                        && Enabled(s, Advance(j))
  {
    if !Enabled(s, Advance(i)) {
      var j :| 0 <= j < |s.calls| && j != i && s.calls[j].Holds() && s.calls[j].op.id == s.calls[i].op.id;
      assert Enabled(s, Advance(j));
    }
  }

  /** As long as a call is open, some call can take its next statement. */
  lemma NoDeadlock(s: State, i: nat)
    requires i < |s.calls| && s.calls[i].Open()
    ensures exists j :: 0 <= j < |s.calls| && Enabled(s, Advance(j))
  {
    WhoWaits(s, i);
    assert Enabled(s, Advance(i)) ==> 0 <= i < |s.calls|;
  }

  function Statements(steps: seq<Step>, m: nat, n: nat, i: nat): nat
    requires m <= n <= |steps|
  {
    if m == n then 0 else Statements(steps, m, n - 1, i) + if steps[n - 1] == Advance(i) then 1 else 0
  }

  /** After seven statements of its own at most a call is over, whatever runs between them. */
  lemma {:induction false} EveryCallEnds(ss: seq<State>, steps: seq<Step>, m: nat, n: nat, i: nat)
    requires IsExecution(ss, steps) && m <= n <= |steps| && i < |ss[m].calls|
    ensures i < |ss[n].calls| && ss[n].calls[i].op == ss[m].calls[i].op
    ensures Statements(steps, m, n, i) + StatementsLeft(ss[n].calls[i].phase) <= StatementsLeft(ss[m].calls[i].phase)
    ensures Statements(steps, m, n, i) >= 7 ==> !ss[n].calls[i].Open()
    decreases n
  {
    if m < n {
      EveryCallEnds(ss, steps, m, n - 1, i);
      ExecutionKeepsInv(ss, steps, n - 1);
      assert TakesStep(ss, steps, n - 1);
      StatementCounts(ss[n - 1], steps[n - 1], i);
    }
  }

  // ---- What a committed SetReaction has done ----

  /** On a live message a SetReaction sets the one row it names. */
  lemma SetsOneRow(t: Tables, c: Change)
    requires WellFormed(t) && c.SetReaction? && Live(t, c.chat, c.id)
    ensures OneRowSet(RowsOf(t, c.id), RowsOf(Apply(t, c), c.id), c.user, c.reaction, c.add)
  {
    assert WellFormedReactions(t, c.id);
    ToggleApplied(t, c.chat, c.user, c.id, c.reaction, c.add);
  }

  /** What does not name the message, or finds it deleted or elsewhere, leaves all its rows alone. */
  lemma RowsStay(t: Tables, c: Change, id: MessageId)
    requires WellFormed(t) && id in t.messages && !Deletes(t, c, id)
    requires !(c.SetReaction? && c.id == id && Live(t, c.chat, id))
    ensures RowsOf(Apply(t, c), id) == RowsOf(t, id)
  {
    assert WellFormedReactions(t, id) && WellFormedMessage(t, id);
  }

  /** What a committed SetReaction has done and reported, between two versions of the tables. */
  ghost predicate Reacted(t: Tables, t': Tables, op: Op, report: Report)
    requires op.React?
  {
    && OneRowSet(RowsOf(t, op.id), RowsOf(t', op.id), op.user, op.reaction, op.add)
    && op.id in t'.messages && op.id in t'.reactions && report == ReportOf(t', op.id)
  }

  lemma RecordedReaction(past: seq<Tables>, changes: seq<Change>, call: Call)
    requires GoodRun(past, changes) && call.op.React? && call.phase.Committed? && RecordOk(past, changes, call)
    ensures 0 < call.phase.at < |past| && call.phase.result.Some?
    ensures Reacted(past[call.phase.at - 1], past[call.phase.at], call.op, call.phase.result.value)
  {
    var at := call.phase.at;
    RunIsWellFormed(past, changes, at - 1);
    assert StepAt(past, changes, at - 1);
    SetsOneRow(past[at - 1], changes[at - 1]);
  }

  /**
   A committed SetReaction: right after its commit the row it names is there exactly if it was
   to be added, every other row of the message is as it was right before, and the report it
   returned is of those rows.
   */
  lemma CommittedReaction(ss: seq<State>, steps: seq<Step>, n: nat, i: nat)
    requires IsExecution(ss, steps) && n <= |steps| && i < |ss[n].calls|
    requires ss[n].calls[i].op.React? && ss[n].calls[i].phase.Committed?
    ensures var call, past := ss[n].calls[i], ss[n].past;
            && 0 < call.phase.at < |past| && call.phase.result.Some?
            && Reacted(past[call.phase.at - 1], past[call.phase.at], call.op, call.phase.result.value)
  {
    ExecutionKeepsInv(ss, steps, n);
    RecordedReaction(ss[n].past, ss[n].changes, ss[n].calls[i]);
  }

  /** A committed Delete: it blanked a live message of its caller's, dropped its reactions, and touched nothing else. */
  lemma CommittedRemoval(ss: seq<State>, steps: seq<Step>, n: nat, i: nat)
    requires IsExecution(ss, steps) && n <= |steps| && i < |ss[n].calls|
    requires ss[n].calls[i].op.Remove? && ss[n].calls[i].phase.Committed?
    ensures var op, phase, past := ss[n].calls[i].op, ss[n].calls[i].phase, ss[n].past;
            && 0 < phase.at < |past|
            && var t, t' := past[phase.at - 1], past[phase.at];
               && OnlyMessageChanged(t, t', op.id) && op.id in t.messages && op.id in t'.messages
               && var m := t.messages[op.id];
                  && m.chat == op.chat && m.sender == op.user && m.deletedAt.None?
                  && t'.messages[op.id] == m.(content := "", deletedAt := Some(op.at), version := m.version + 1)
                  && op.id in t'.reactions && t'.reactions[op.id] == {}
                  && phase.result == Some(Report(m.version + 1, []))
  {
    ExecutionKeepsInv(ss, steps, n);
    var s, call := ss[n], ss[n].calls[i];
    assert RecordOk(s.past, s.changes, call);
    assert StepAt(s.past, s.changes, call.phase.at - 1);
  }

  /** A committed Edit: it changed the text and edit time of a live message of its caller's, and touched nothing else. */
  lemma CommittedRewrite(ss: seq<State>, steps: seq<Step>, n: nat, i: nat)
    requires IsExecution(ss, steps) && n <= |steps| && i < |ss[n].calls|
    requires ss[n].calls[i].op.Rewrite? && ss[n].calls[i].phase.Committed?
    ensures var op, phase, past := ss[n].calls[i].op, ss[n].calls[i].phase, ss[n].past;
            && 0 < phase.at < |past|
            && var t, t' := past[phase.at - 1], past[phase.at];
               && OnlyMessageChanged(t, t', op.id) && op.id in t.messages && op.id in t'.messages
               && var m := t.messages[op.id];
                  && m.chat == op.chat && m.sender == op.user && m.deletedAt.None?
                  && t'.messages[op.id] == m.(content := op.content, editedAt := Some(op.at))
                  && t'.reactions == t.reactions
  {
    ExecutionKeepsInv(ss, steps, n);
    var s, call := ss[n], ss[n].calls[i];
    assert RecordOk(s.past, s.changes, call);
    assert StepAt(s.past, s.changes, call.phase.at - 1);
  }

  // ---- Reaction rows over a run ----

  /** The change is a SetReaction for this row of a message that is live. */
  predicate Sets(t: Tables, c: Change, id: MessageId, row: (UserId, Reaction)) {
    c.SetReaction? && c.id == id && (c.user, c.reaction) == row && Live(t, c.chat, id)
  }

  /** Change `i` added the row, and until change `n` nothing has dropped it. */
  ghost predicate AddedAt(ts: seq<Tables>, cs: seq<Change>, n: nat, id: MessageId, row: (UserId, Reaction), i: nat)
    requires n <= |cs| && n < |ts|
  {
    && i < n && Sets(ts[i], cs[i], id, row) && cs[i].add
    && forall j | i < j < n :: !(Sets(ts[j], cs[j], id, row) && !cs[j].add) && !Deletes(ts[j], cs[j], id)
  }

  ghost predicate Standing(ts: seq<Tables>, cs: seq<Change>, n: nat, id: MessageId, row: (UserId, Reaction))
    requires n <= |cs| && n < |ts|
  {
    exists i: nat :: AddedAt(ts, cs, n, id, row, i)
  }

  lemma NoRowsBefore(t: Tables, c: Change, id: MessageId)
    requires WellFormed(t) && id !in t.messages
    ensures id in Apply(t, c).messages ==> RowsOf(Apply(t, c), id) == {}
    ensures !Deletes(t, c, id) && forall row :: !Sets(t, c, id, row)
  {
  }

  /** Once the message exists: one more change. */
  lemma RowAfterChange(ts: seq<Tables>, cs: seq<Change>, n: nat, id: MessageId, row: (UserId, Reaction))
    requires GoodRun(ts, cs) && n < |cs| && id in ts[n].messages
    ensures row in RowsOf(ts[n + 1], id)
       <==> if Deletes(ts[n], cs[n], id) then false
            else if Sets(ts[n], cs[n], id, row) then cs[n].add
            else row in RowsOf(ts[n], id)
  {
    var t, c := ts[n], cs[n];
    RunIsWellFormed(ts, cs, n);
    assert StepAt(ts, cs, n);
    if c.SetReaction? && c.id == id && Live(t, c.chat, id) {
      SetsOneRow(t, c);
    } else if !Deletes(t, c, id) {
      RowsStay(t, c, id);
    }
  }

  /** The last SetReaction for a row decides: it is there exactly if that one added it and no deletion came since. */
  lemma {:induction false} LastReactionDecides(ts: seq<Tables>, cs: seq<Change>, n: nat, id: MessageId, row: (UserId, Reaction))
    requires IsRun(ts, cs) && ts[0] == EMPTY && n <= |cs|
    ensures id in ts[n].messages ==> (row in RowsOf(ts[n], id) <==> Standing(ts, cs, n, id, row))
    ensures id !in ts[n].messages ==> !Standing(ts, cs, n, id, row)
  {
    if n > 0 {
      LastReactionDecides(ts, cs, n - 1, id, row);
      RunIsWellFormed(ts, cs, n - 1);
      AddedNext(ts, cs, n - 1, id, row);
      if id in ts[n - 1].messages {
        RowAfterChange(ts, cs, n - 1, id, row);
        NextRow(ts, cs, n - 1, id);
      } else {
        NoRowsBefore(ts[n - 1], cs[n - 1], id);
        assert StepAt(ts, cs, n - 1);
      }
    }
  }

  lemma AddedNext(ts: seq<Tables>, cs: seq<Change>, n: nat, id: MessageId, row: (UserId, Reaction))
    requires n < |cs| && n + 1 < |ts|
    ensures Standing(ts, cs, n + 1, id, row)
       <==> || (Sets(ts[n], cs[n], id, row) && cs[n].add)
            || (!(Sets(ts[n], cs[n], id, row) && !cs[n].add) && !Deletes(ts[n], cs[n], id) && Standing(ts, cs, n, id, row))
  {
    if Sets(ts[n], cs[n], id, row) && cs[n].add {
      assert AddedAt(ts, cs, n + 1, id, row, n);
    } else if Standing(ts, cs, n + 1, id, row) {
      var i: nat :| AddedAt(ts, cs, n + 1, id, row, i);
      assert AddedAt(ts, cs, n, id, row, i);
    } else if !(Sets(ts[n], cs[n], id, row) && !cs[n].add) && !Deletes(ts[n], cs[n], id) && Standing(ts, cs, n, id, row) {
      var i: nat :| AddedAt(ts, cs, n, id, row, i);
      assert AddedAt(ts, cs, n + 1, id, row, i);
    }
  }
}
