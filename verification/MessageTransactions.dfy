/**
 SetReaction, Delete and Edit as concurrent calls, one statement a step. A SetReaction or
 Delete transaction takes the message's row lock with its first statement and holds it to
 its commit; what it writes before that only it can see. Each call is preceded by an access
 check, and Edit and Delete then by their author check, in separate reads.

 The state keeps every committed version of the tables, so that the calls can be compared
 with a plain run of changes.
 */
module MessageTransactions {
  import opened Options
  import opened Tables
  import opened Reactions
  import opened MessageRuns

  datatype Op =
    | React(chat: ChatId, user: UserId, id: MessageId, reaction: Reaction, add: bool)
    | Remove(chat: ChatId, user: UserId, id: MessageId, at: int)
    | Rewrite(chat: ChatId, user: UserId, id: MessageId, at: int, content: string)

  /** The change a call makes if it commits. */
  function ChangeOf(op: Op): Change {
    match op
    case React(chat, user, id, reaction, add) => SetReaction(chat, user, id, reaction, add)
    case Remove(chat, user, id, at) => Delete(chat, user, id, at)
    case Rewrite(chat, user, id, at, content) => Edit(chat, user, id, content, at)
  }

  /** How far a call has come; `row` and `rows` are its own uncommitted view of the message. */
  datatype Phase =
    | Asked
    | Started
    | Checked(since: nat)
    | Locked(row: Message)
    | RowsWritten(row: Message, rows: Rows, changed: bool)
    | VersionWritten(row: Message, rows: Rows, changed: bool)
    | ReadBack(row: Message, rows: Rows, changed: bool, report: Report)
    | Tombstoned(row: Message, report: Report)
    | RowsCleared(row: Message, rows: Rows, report: Report)
    | Committed(at: nat, result: Option<Report>)
    | Refused(since: nat, at: nat)
    | NoAccess
    | NotAuthor
    | NotFound
    | Aborted

  datatype Call = Call(op: Op, phase: Phase) {
    predicate Holds() {
      phase.Locked? || phase.RowsWritten? || phase.VersionWritten? || phase.ReadBack?
      || phase.Tombstoned? || phase.RowsCleared?
    }

    predicate Open() { Holds() || phase.Asked? || phase.Started? || phase.Checked? }
  }

  /** `past` holds the committed tables before and after each of `changes`; the last are current. */
  datatype State = State(past: seq<Tables>, changes: seq<Change>, calls: seq<Call>)

  function Now(s: State): Tables
    requires s.past != []
  {
    s.past[|s.past| - 1]
  }

  const INITIAL := State([EMPTY], [], [])

  /** No call but `i` holds the lock of this message. */
  predicate LockFree(s: State, i: nat, id: MessageId) {
    forall j | 0 <= j < |s.calls| && j != i :: s.calls[j].Holds() ==> s.calls[j].op.id != id
  }

  predicate Matches(t: Tables, op: Op) {
    Live(t, op.chat, op.id) && t.messages[op.id].sender == op.user
  }

  datatype Step =
    | Begin(op: Op)
    | Advance(i: nat)
    | Abort(i: nat)
    | Elsewhere(change: Change)

  /** Changes by other calls of the application; none of them rewrites an existing message. */
  predicate LeavesMessagesAlone(c: Change) {
    !c.Edit? && !c.Delete? && !c.SetReaction?
  }

  /** A statement that needs a lock held by someone else waits. */
  predicate Enabled(s: State, step: Step) {
    match step
    case Begin(_) => true
    case Advance(i) =>
      && i < |s.calls| && s.calls[i].Open()
      && (s.calls[i].phase.Started? && s.calls[i].op.React? ==> LockFree(s, i, s.calls[i].op.id))
      && (s.calls[i].phase.Checked? ==> LockFree(s, i, s.calls[i].op.id))
    case Abort(i) => i < |s.calls| && s.calls[i].Open()
    case Elsewhere(c) => LeavesMessagesAlone(c)
  }

  function To(s: State, i: nat, phase: Phase): State
    requires i < |s.calls|
  {
    s.(calls := s.calls[i := s.calls[i].(phase := phase)])
  }

  /** Make new tables visible to everyone, as the effect of one more change. */
  function Publish(s: State, t: Tables, c: Change): State {
    s.(past := s.past + [t], changes := s.changes + [c])
  }

  function Install(t: Tables, id: MessageId, row: Message, rows: Rows): Tables {
    t.(messages := t.messages[id := row], reactions := t.reactions[id := rows])
  }

  /** Every call first looks whether its user is a member of the chat, in a read of its own. */
  function AccessNext(s: State, i: nat): State
    requires s.past != [] && i < |s.calls|
  {
    var op := s.calls[i].op;
    To(s, i, if Key(op.chat, op.user) in Now(s).members then Started else NoAccess)
  }

  function ReactNext(s: State, i: nat): State
    requires s.past != [] && i < |s.calls| && s.calls[i].op.React?
  {
    var op, t, n := s.calls[i].op, Now(s), |s.changes|;
    match s.calls[i].phase
    case Started =>
      // lock the row and look whether the message is live
      if Live(t, op.chat, op.id) then To(s, i, Locked(t.messages[op.id])) else To(s, i, NotFound)
    case Locked(row) =>
      // add or drop the reaction row, noticing whether that did anything
      var rows := WithReaction(RowsOf(t, op.id), op.user, op.reaction, op.add);
      To(s, i, RowsWritten(row, rows, rows != RowsOf(t, op.id)))
    case RowsWritten(row, rows, changed) =>
      // advance the version if it did
      To(s, i, VersionWritten(if changed then row.(version := row.version + 1) else row, rows, changed))
    case VersionWritten(row, rows, changed) =>
      // read the version and the summaries back
      To(s, i, ReadBack(row, rows, changed, Report(row.version, if row.Deleted() then [] else Group(rows))))
    case ReadBack(row, rows, changed, report) =>
      // commit
      var t' := if changed then Install(t, op.id, row, rows) else t;
      Publish(To(s, i, Committed(n + 1, Some(report))), t', ChangeOf(op))
    case _ => s
  }

  function RemoveNext(s: State, i: nat): State
    requires s.past != [] && i < |s.calls| && s.calls[i].op.Remove?
  {
    var op, t, n := s.calls[i].op, Now(s), |s.changes|;
    match s.calls[i].phase
    case Started => To(s, i, if Matches(t, op) then Checked(n) else NotAuthor)
    case Checked(since) =>
      // blank a live message of the sender; this locks the row
      if Matches(t, op) then
        var row := Tombstone(t.messages[op.id], op.at);
        To(s, i, Tombstoned(row, Report(row.version, [])))
      else To(s, i, Refused(since, n))
    case Tombstoned(row, report) =>
      // drop the reaction rows
      To(s, i, RowsCleared(row, {}, report))
    case RowsCleared(row, rows, report) =>
      // commit
      Publish(To(s, i, Committed(n + 1, Some(report))), Install(t, op.id, row, rows), ChangeOf(op))
    case _ => s
  }

  function RewriteNext(s: State, i: nat): State
    requires s.past != [] && i < |s.calls| && s.calls[i].op.Rewrite?
  {
    var op, t, n := s.calls[i].op, Now(s), |s.changes|;
    match s.calls[i].phase
    case Started => To(s, i, if Matches(t, op) then Checked(n) else NotAuthor)
    case Checked(since) =>
      // one statement, committed at once
      if Matches(t, op) then Publish(To(s, i, Committed(n + 1, None)), Apply(t, ChangeOf(op)), ChangeOf(op))
      else To(s, i, Refused(since, n))
    case _ => s
  }

  function Next(s: State, step: Step): State
    requires s.past != [] && Enabled(s, step)
  {
    match step
    case Begin(op) => s.(calls := s.calls + [Call(op, Asked)])
    case Advance(i) =>
      if s.calls[i].phase.Asked? then AccessNext(s, i)
      else if s.calls[i].op.React? then ReactNext(s, i)
      else if s.calls[i].op.Remove? then RemoveNext(s, i)
      else RewriteNext(s, i)
    case Abort(i) => To(s, i, Aborted)
    case Elsewhere(c) => Publish(s, Apply(Now(s), c), c)
  }

  // ---- The invariant ----

  /** What a lock holder relies on: the row it locked is still the committed one. */
  ghost predicate HolderOk(t: Tables, call: Call) {
    var op := call.op;
    && Live(t, op.chat, op.id) && op.id in t.reactions
    && var row, rows := t.messages[op.id], t.reactions[op.id];
       match call.phase
       case Locked(r) => op.React? && r == row
       case RowsWritten(r, rs, changed) =>
         op.React? && r == row && rs == WithReaction(rows, op.user, op.reaction, op.add) && (changed <==> rs != rows)
       case VersionWritten(r, rs, changed) =>
         && op.React? && rs == WithReaction(rows, op.user, op.reaction, op.add) && (changed <==> rs != rows)
         && r == if changed then row.(version := row.version + 1) else row
       case ReadBack(r, rs, changed, report) =>
         && op.React? && rs == WithReaction(rows, op.user, op.reaction, op.add) && (changed <==> rs != rows)
         && r == (if changed then row.(version := row.version + 1) else row)
         && report == Report(r.version, Group(rs))
       case Tombstoned(r, report) =>
         op.Remove? && row.sender == op.user && r == Tombstone(row, op.at) && report == Report(r.version, [])
       case RowsCleared(r, rs, report) =>
         && op.Remove? && row.sender == op.user && r == Tombstone(row, op.at) && rs == {}
         && report == Report(r.version, [])
       case _ => true
  }

  /** What the phase of a call without a lock says about the past. */
  ghost predicate RecordOk(past: seq<Tables>, changes: seq<Change>, call: Call)
    requires |past| == |changes| + 1
  {
    match call.phase
    case Checked(since) => !call.op.React? && since <= |changes| && Matches(past[since], call.op)
    case Committed(at, result) =>
      && 0 < at <= |changes| && changes[at - 1] == ChangeOf(call.op)
      && Live(past[at - 1], call.op.chat, call.op.id)
      && (!call.op.React? ==> Effective(past[at - 1], changes[at - 1]))
      && (result.None? <==> call.op.Rewrite?)
      && (result.Some? ==> TakenAt(past, changes, call.op.id, result.value, at))
    case Refused(since, at) =>
      !call.op.React? && since <= at <= |changes| && Matches(past[since], call.op) && !Matches(past[at], call.op)
    case _ => true
  }

  ghost predicate Inv(s: State) {
    && GoodRun(s.past, s.changes) && s.past[0] == EMPTY
    && (forall i | 0 <= i < |s.calls| :: s.calls[i].Holds() ==> HolderOk(Now(s), s.calls[i]))
    && (forall i | 0 <= i < |s.calls| :: RecordOk(s.past, s.changes, s.calls[i]))
    && (forall i, j | 0 <= i < j < |s.calls| :: Exclusive(s.calls[i], s.calls[j]))
  }

  /** Two calls never hold the same lock, nor commit as the same change. */
  ghost predicate Exclusive(a: Call, b: Call) {
    && (a.Holds() && b.Holds() ==> a.op.id != b.op.id)
    && (a.phase.Committed? && b.phase.Committed? ==> a.phase.at != b.phase.at)
  }

  // ---- Preservation ----

  /** A step that publishes nothing and moves one call keeps the invariant if the call's new phase is right. */
  lemma QuietStep(s: State, i: nat, phase: Phase)
    requires Inv(s) && i < |s.calls| && !phase.Committed?
    requires RecordOk(s.past, s.changes, Call(s.calls[i].op, phase))
    requires Call(s.calls[i].op, phase).Holds() ==>
               HolderOk(Now(s), Call(s.calls[i].op, phase)) && (s.calls[i].Holds() || LockFree(s, i, s.calls[i].op.id))
    ensures Inv(To(s, i, phase))
  {
    forall j | 0 <= j < |s.calls| && j != i && s.calls[i].Holds() && s.calls[j].Holds()
      ensures s.calls[j].op.id != s.calls[i].op.id
    {
      assert if i < j then Exclusive(s.calls[i], s.calls[j]) else Exclusive(s.calls[j], s.calls[i]);
    }
  }

  /** The records of the past stay true when the run grows. */
  lemma RecordStays(past: seq<Tables>, changes: seq<Change>, t: Tables, c: Change, call: Call)
    requires |past| == |changes| + 1 && RecordOk(past, changes, call)
    ensures RecordOk(past + [t], changes + [c], call)
  {
  }

  /** A change to other messages leaves a lock holder's view right. */
  lemma HolderStays(t: Tables, c: Change, call: Call)
    requires WellFormed(t) && call.Holds() && HolderOk(t, call)
    requires LeavesMessagesAlone(c) || c.id != call.op.id
    ensures HolderOk(Apply(t, c), call)
  {
    assert WellFormedMessage(t, call.op.id);
    RowUntouched(t, c, call.op.id);
  }

  lemma RowUntouched(t: Tables, c: Change, id: MessageId)
    requires WellFormed(t) && id in t.messages && id in t.reactions
    requires LeavesMessagesAlone(c) || c.id != id
    ensures id in Apply(t, c).messages && Apply(t, c).messages[id] == t.messages[id]
    ensures id in Apply(t, c).reactions && Apply(t, c).reactions[id] == t.reactions[id]
  {
    assert WellFormedMessage(t, id);
  }

  /** Publishing a change keeps the invariant: call `i` commits as that change, or it is someone else's. */
  lemma PublishStep(s: State, c: Change)
    requires Inv(s)
    requires forall j | 0 <= j < |s.calls| && s.calls[j].Holds() :: LeavesMessagesAlone(c) || c.id != s.calls[j].op.id
    ensures Inv(Publish(s, Apply(Now(s), c), c))
  {
    var t := Apply(Now(s), c);
    ExtendRun(s.past, s.changes, c);
    RunIsWellFormed(s.past, s.changes, |s.changes|);
    forall j | 0 <= j < |s.calls|
      ensures RecordOk(s.past + [t], s.changes + [c], s.calls[j])
      ensures s.calls[j].Holds() ==> HolderOk(t, s.calls[j])
    {
      RecordStays(s.past, s.changes, t, c, s.calls[j]);
      if s.calls[j].Holds() {
        HolderStays(Now(s), c, s.calls[j]);
      }
    }
  }

  /** A call may record its commit at the last change if no other call has. */
  lemma RecordCommit(s: State, i: nat, phase: Phase)
    requires Inv(s) && i < |s.calls| && phase.Committed? && phase.at == |s.changes|
    requires RecordOk(s.past, s.changes, Call(s.calls[i].op, phase))
    requires forall j | 0 <= j < |s.calls| && s.calls[j].phase.Committed? :: s.calls[j].phase.at < |s.changes|
    ensures Inv(To(s, i, phase))
  {
  }

  /** The record of a call that commits the next change. */
  lemma CommitIsRecorded(past: seq<Tables>, changes: seq<Change>, op: Op, report: Option<Report>)
    requires |past| == |changes| + 1
    requires Live(past[|changes|], op.chat, op.id) && (!op.React? ==> Effective(past[|changes|], ChangeOf(op)))
    requires report.None? <==> op.Rewrite?
    requires report.Some? ==> var t := Apply(past[|changes|], ChangeOf(op));
               op.id in t.messages && op.id in t.reactions && report.value == ReportOf(t, op.id)
    ensures RecordOk(past + [Apply(past[|changes|], ChangeOf(op))], changes + [ChangeOf(op)],
                     Call(op, Committed(|changes| + 1, report)))
  {
  }

  /** A call that commits: it lets go of its lock, its change is published, and it is marked committed. */
  lemma CommitStep(s: State, i: nat, report: Option<Report>)
    requires Inv(s) && i < |s.calls| && LockFree(s, i, s.calls[i].op.id)
    requires var op, c := s.calls[i].op, ChangeOf(s.calls[i].op);
             && Live(Now(s), op.chat, op.id) && (!op.React? ==> Effective(Now(s), c))
             && (report.None? <==> op.Rewrite?)
             && (report.Some? ==> var t := Apply(Now(s), c);
                   op.id in t.messages && op.id in t.reactions && report.value == ReportOf(t, op.id))
    ensures var c := ChangeOf(s.calls[i].op);
            Inv(Publish(To(s, i, Committed(|s.changes| + 1, report)), Apply(Now(s), c), c))
  {
    var c, phase := ChangeOf(s.calls[i].op), Committed(|s.changes| + 1, report);
    var published := Publish(To(s, i, Aborted), Apply(Now(s), c), c);
    ReleaseAndPublish(s, i, published, c);
    CommitIsRecorded(s.past, s.changes, s.calls[i].op, report);
    RecordCommit(published, i, phase);
    PublishThenRecord(s, i, phase, Apply(Now(s), c), c);
  }

  /** The lock let go and the change published, with the commit still to be noted. */
  lemma ReleaseAndPublish(s: State, i: nat, published: State, c: Change)
    requires Inv(s) && i < |s.calls| && LockFree(s, i, s.calls[i].op.id) && c == ChangeOf(s.calls[i].op)
    requires published == Publish(To(s, i, Aborted), Apply(Now(s), c), c)
    ensures Inv(published)
    ensures forall j | 0 <= j < |published.calls| && published.calls[j].phase.Committed? ::
              published.calls[j].phase.at < |published.changes|
  {
    QuietStep(s, i, Aborted);
    PublishStep(To(s, i, Aborted), c);
    forall j | 0 <= j < |published.calls| && published.calls[j].phase.Committed?
      ensures published.calls[j].phase.at < |published.changes|
    {
      assert RecordOk(s.past, s.changes, s.calls[j]);
    }
  }

  lemma PublishThenRecord(s: State, i: nat, phase: Phase, t: Tables, c: Change)
    requires i < |s.calls|
    ensures Publish(To(s, i, phase), t, c) == To(Publish(To(s, i, Aborted), t, c), i, phase)
  {
  }

  lemma HolderHasLock(s: State, i: nat)
    requires Inv(s) && i < |s.calls| && s.calls[i].Holds()
    ensures LockFree(s, i, s.calls[i].op.id)
  {
    forall j | 0 <= j < |s.calls| && j != i && s.calls[j].Holds()
      ensures s.calls[j].op.id != s.calls[i].op.id
    {
      assert if i < j then Exclusive(s.calls[i], s.calls[j]) else Exclusive(s.calls[j], s.calls[i]);
    }
  }

  predicate HasRows(t: Tables, id: MessageId) {
    id in t.messages && id in t.reactions
  }

  /** What the commit of a SetReaction installs is exactly the change applied to the committed tables. */
  lemma ReactCommitInstalls(t: Tables, call: Call)
    requires call.phase.ReadBack? && HolderOk(t, call)
    ensures (if call.phase.changed then Install(t, call.op.id, call.phase.row, call.phase.rows) else t)
         == Apply(t, ChangeOf(call.op))
  {
    var op := call.op;
    ToggleApplied(t, op.chat, op.user, op.id, op.reaction, op.add);
  }

  /** And its report describes the tables it leaves. */
  lemma ReactReportIsRight(t: Tables, call: Call)
    requires call.phase.ReadBack? && HolderOk(t, call)
    ensures var t' := Apply(t, ChangeOf(call.op));
            HasRows(t', call.op.id) && call.phase.report == ReportOf(t', call.op.id)
  {
    var t', id := Apply(t, ChangeOf(call.op)), call.op.id;
    ReactCommitInstalls(t, call);
    assert id in t'.messages && t'.messages[id] == call.phase.row;
    assert id in t'.reactions && t'.reactions[id] == call.phase.rows;
  }

  lemma RemoveCommitIsChange(t: Tables, call: Call)
    requires WellFormed(t) && call.phase.RowsCleared? && HolderOk(t, call)
    ensures Install(t, call.op.id, call.phase.row, call.phase.rows) == Apply(t, ChangeOf(call.op))
    ensures Effective(t, ChangeOf(call.op))
    ensures var t' := Apply(t, ChangeOf(call.op));
            HasRows(t', call.op.id) && call.phase.report == ReportOf(t', call.op.id)
  {
  }

  lemma ReactCommits(s: State, i: nat)
    requires Inv(s) && Enabled(s, Advance(i)) && s.calls[i].op.React? && s.calls[i].phase.ReadBack?
    ensures Inv(ReactNext(s, i))
  {
    var call, t := s.calls[i], Now(s);
    ReactCommitInstalls(t, call);
    ReactReportIsRight(t, call);
    HolderHasLock(s, i);
    CommitStep(s, i, Some(call.phase.report));
  }

  lemma ReactKeepsInv(s: State, i: nat)
    requires Inv(s) && Enabled(s, Advance(i)) && s.calls[i].op.React?
    ensures Inv(ReactNext(s, i))
  {
    var call, t := s.calls[i], Now(s);
    RunIsWellFormed(s.past, s.changes, |s.changes|);
    assert RecordOk(s.past, s.changes, call);
    match call.phase
    case Started =>
      if Live(t, call.op.chat, call.op.id) {
        assert WellFormedReactions(t, call.op.id);
        QuietStep(s, i, Locked(t.messages[call.op.id]));
      } else {
        QuietStep(s, i, NotFound);
      }
    case Locked(row) =>
      var rows := WithReaction(t.reactions[call.op.id], call.op.user, call.op.reaction, call.op.add);
      QuietStep(s, i, RowsWritten(row, rows, rows != t.reactions[call.op.id]));
    case RowsWritten(row, rows, changed) =>
      QuietStep(s, i, VersionWritten(if changed then row.(version := row.version + 1) else row, rows, changed));
    case VersionWritten(row, rows, changed) =>
      QuietStep(s, i, ReadBack(row, rows, changed, Report(row.version, if row.Deleted() then [] else Group(rows))));
    case ReadBack(row, rows, changed, report) =>
      ReactCommits(s, i);
    case _ =>
  }

  lemma RemoveKeepsInv(s: State, i: nat)
    requires Inv(s) && Enabled(s, Advance(i)) && s.calls[i].op.Remove?
    ensures Inv(RemoveNext(s, i))
  {
    var call, t := s.calls[i], Now(s);
    RunIsWellFormed(s.past, s.changes, |s.changes|);
    assert RecordOk(s.past, s.changes, call);
    match call.phase
    case Started => QuietStep(s, i, if Matches(t, call.op) then Checked(|s.changes|) else NotAuthor);
    case Checked(since) =>
      if Matches(t, call.op) {
        assert WellFormedReactions(t, call.op.id);
        var row := Tombstone(t.messages[call.op.id], call.op.at);
        QuietStep(s, i, Tombstoned(row, Report(row.version, [])));
      } else {
        QuietStep(s, i, Refused(since, |s.changes|));
      }
    case Tombstoned(row, report) => QuietStep(s, i, RowsCleared(row, {}, report));
    case RowsCleared(row, rows, report) =>
      RemoveCommitIsChange(t, call);
      HolderHasLock(s, i);
      CommitStep(s, i, Some(report));
    case _ =>
  }

  lemma RewriteKeepsInv(s: State, i: nat)
    requires Inv(s) && Enabled(s, Advance(i)) && s.calls[i].op.Rewrite?
    ensures Inv(RewriteNext(s, i))
  {
    var call, t := s.calls[i], Now(s);
    assert RecordOk(s.past, s.changes, call);
    match call.phase
    case Started => QuietStep(s, i, if Matches(t, call.op) then Checked(|s.changes|) else NotAuthor);
    case Checked(since) =>
      if Matches(t, call.op) {
        CommitStep(s, i, None);
      } else {
        QuietStep(s, i, Refused(since, |s.changes|));
      }
    case _ =>
  }

  lemma NextKeepsInv(s: State, step: Step)
    requires Inv(s) && Enabled(s, step)
    ensures Inv(Next(s, step))
  {
    match step
    case Begin(op) =>
      assert RecordOk(s.past, s.changes, Call(op, Asked));
    case Advance(i) =>
      if s.calls[i].phase.Asked? {
        QuietStep(s, i, AccessNext(s, i).calls[i].phase);
      } else if s.calls[i].op.React? {
        ReactKeepsInv(s, i);
      } else if s.calls[i].op.Remove? {
        RemoveKeepsInv(s, i);
      } else {
        RewriteKeepsInv(s, i);
      }
    case Abort(i) => QuietStep(s, i, Aborted);
    case Elsewhere(c) => PublishStep(s, c);
  }

  // ---- Every interleaving ----

  ghost predicate IsExecution(ss: seq<State>, steps: seq<Step>) {
    && |ss| == |steps| + 1 && ss[0] == INITIAL
    && forall n {:trigger TakesStep(ss, steps, n)} | 0 <= n < |steps| :: TakesStep(ss, steps, n)
  }

  ghost predicate TakesStep(ss: seq<State>, steps: seq<Step>, n: nat)
    requires n < |steps| && n + 1 < |ss|
  {
    ss[n].past != [] && Enabled(ss[n], steps[n]) && ss[n + 1] == Next(ss[n], steps[n])
  }

  lemma {:induction false} ExecutionKeepsInv(ss: seq<State>, steps: seq<Step>, n: nat)
    requires IsExecution(ss, steps) && n <= |steps|
    ensures Inv(ss[n])
  {
    if n > 0 {
      ExecutionKeepsInv(ss, steps, n - 1);
      assert TakesStep(ss, steps, n - 1);
      NextKeepsInv(ss[n - 1], steps[n - 1]);
    }
  }

  /**
   Whatever the interleaving, the committed tables have gone through a plain run of changes:
   so at every moment a deleted message has no reaction rows, and a live one has at most as
   many as its version and of the same parity.
   */
  lemma InterleavingIsARun(ss: seq<State>, steps: seq<Step>, n: nat)
    requires IsExecution(ss, steps) && n <= |steps|
    ensures GoodRun(ss[n].past, ss[n].changes) && ss[n].past[0] == EMPTY
    ensures forall id | id in Now(ss[n]).messages :: WellFormedReactions(Now(ss[n]), id)
    ensures forall id | id in Now(ss[n]).messages ::
              Now(ss[n]).messages[id].version == MessageRuns.Bumped(ss[n].past, ss[n].changes, |ss[n].changes|, id)
  {
    ExecutionKeepsInv(ss, steps, n);
    RunIsWellFormed(ss[n].past, ss[n].changes, |ss[n].changes|);
    forall id | id in Now(ss[n]).messages
      ensures Now(ss[n]).messages[id].version == MessageRuns.Bumped(ss[n].past, ss[n].changes, |ss[n].changes|, id)
    {
      VersionCountsChanges(ss[n].past, ss[n].changes, |ss[n].changes|, id);
    }
  }

  /** Two committed SetReaction or Delete results for one message with equal versions are equal. */
  lemma ResultsAgreeOnVersion(ss: seq<State>, steps: seq<Step>, n: nat, i: nat, j: nat)
    requires IsExecution(ss, steps) && n <= |steps|
    requires i < |ss[n].calls| && j < |ss[n].calls|
    requires var a, b := ss[n].calls[i], ss[n].calls[j];
             && a.phase.Committed? && b.phase.Committed? && a.op.id == b.op.id
             && a.phase.result.Some? && b.phase.result.Some?
             && a.phase.result.value.version == b.phase.result.value.version
    ensures ss[n].calls[i].phase.result == ss[n].calls[j].phase.result
  {
    ExecutionKeepsInv(ss, steps, n);
    var s, a, b := ss[n], ss[n].calls[i], ss[n].calls[j];
    assert RecordOk(s.past, s.changes, a) && RecordOk(s.past, s.changes, b);
    SameVersionSameReport(s.past, s.changes, a.op.id, a.phase.result.value, a.phase.at, b.phase.result.value, b.phase.at);
  }

  /** However many Deletes of a message race, at most one succeeds. */
  lemma DeletedAtMostOnce(ss: seq<State>, steps: seq<Step>, n: nat, i: nat, j: nat)
    requires IsExecution(ss, steps) && n <= |steps| && i < j < |ss[n].calls|
    requires ss[n].calls[i].op.Remove? && ss[n].calls[j].op.Remove? && ss[n].calls[i].op.id == ss[n].calls[j].op.id
    ensures !(ss[n].calls[i].phase.Committed? && ss[n].calls[j].phase.Committed?)
  {
    ExecutionKeepsInv(ss, steps, n);
    var s, a, b := ss[n], ss[n].calls[i], ss[n].calls[j];
    assert RecordOk(s.past, s.changes, a) && RecordOk(s.past, s.changes, b) && Exclusive(a, b);
    if a.phase.Committed? && b.phase.Committed? {
      if a.phase.at < b.phase.at {
        NothingAfterDelete(s.past, s.changes, a.phase.at - 1, b.phase.at - 1);
      } else {
        NothingAfterDelete(s.past, s.changes, b.phase.at - 1, a.phase.at - 1);
      }
    }
  }

  /** Every successful Edit of a message took effect before its successful Delete. */
  lemma EditsPrecedeDelete(ss: seq<State>, steps: seq<Step>, n: nat, i: nat, j: nat)
    requires IsExecution(ss, steps) && n <= |steps| && i < |ss[n].calls| && j < |ss[n].calls|
    requires ss[n].calls[i].op.Rewrite? && ss[n].calls[j].op.Remove? && ss[n].calls[i].op.id == ss[n].calls[j].op.id
    requires ss[n].calls[i].phase.Committed? && ss[n].calls[j].phase.Committed?
    ensures ss[n].calls[i].phase.at < ss[n].calls[j].phase.at
  {
    ExecutionKeepsInv(ss, steps, n);
    var s, a, b := ss[n], ss[n].calls[i], ss[n].calls[j];
    assert RecordOk(s.past, s.changes, a) && RecordOk(s.past, s.changes, b);
    assert if i < j then Exclusive(a, b) else Exclusive(b, a);
    if a.phase.at > b.phase.at {
      NothingAfterDelete(s.past, s.changes, b.phase.at - 1, a.phase.at - 1);
    }
  }

  /** A call that passed its author check and was then refused was overtaken by a Delete of the message. */
  lemma RefusedMeansDeletedBetween(ss: seq<State>, steps: seq<Step>, n: nat, i: nat)
    requires IsExecution(ss, steps) && n <= |steps| && i < |ss[n].calls| && ss[n].calls[i].phase.Refused?
    ensures var s, call := ss[n], ss[n].calls[i];
            |s.past| == |s.changes| + 1
            && exists k | call.phase.since <= k < call.phase.at && k < |s.changes| ::
                 Deletes(s.past[k], s.changes[k], call.op.id)
  {
    ExecutionKeepsInv(ss, steps, n);
    var s, call := ss[n], ss[n].calls[i];
    assert RecordOk(s.past, s.changes, call);
    RowsStay(s.past, s.changes, call.phase.since, call.phase.at, call.op.id);
    OnlyDeleteDeletes(s.past, s.changes, call.phase.since, call.phase.at, call.op.chat, call.op.id);
  }
}
