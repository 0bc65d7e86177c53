/**
 What runs of changes do to one message: its version and reactions, its tombstone, its
 place in a reply thread, and the preview shown by its replies.
 */
module MessageRuns {
  import opened Options
  import opened Tables
  import opened Reactions

  /** The change commits with a new reactions_version for this message. */
  predicate Bumps(t: Tables, c: Change, id: MessageId) {
    Effective(t, c) && (c.SetReaction? || c.Delete?) && c.id == id
  }

  predicate Deletes(t: Tables, c: Change, id: MessageId) {
    Effective(t, c) && c.Delete? && c.id == id
  }

  /** The text columns of a message. */
  datatype Text = Text(content: string, editedAt: Option<int>, deletedAt: Option<int>)

  function TextOf(m: Message): Text {
    Text(m.content, m.editedAt, m.deletedAt)
  }

  /** What a change does to the text of a message, told from the change alone. */
  function Rewritten(text: Text, t: Tables, c: Change, id: MessageId): Text {
    if c.Edit? && c.id == id && Effective(t, c) then Text(c.content, Some(c.at), text.deletedAt)
    else if Deletes(t, c, id) then Text("", text.editedAt, Some(c.at))
    else text
  }

  lemma RowAfter(t: Tables, c: Change, id: MessageId)
    requires WellFormed(t) && id in t.messages
    ensures id in Apply(t, c).messages
    ensures var m, m' := t.messages[id], Apply(t, c).messages[id];
            && m'.chat == m.chat && m'.sender == m.sender && m'.replyTo == m.replyTo
            && TextOf(m') == Rewritten(TextOf(m), t, c, id)
            && (m.Deleted() ==> m' == m)
  {
    assert WellFormedMessage(t, id);
  }

  lemma VersionAfter(t: Tables, c: Change, id: MessageId)
    requires WellFormed(t) && id in t.messages
    ensures id in Apply(t, c).messages && id in t.reactions && id in Apply(t, c).reactions
    ensures Apply(t, c).messages[id].version == t.messages[id].version + if Bumps(t, c, id) then 1 else 0
    ensures !Bumps(t, c, id) ==> Apply(t, c).reactions[id] == t.reactions[id]
  {
    assert WellFormedMessage(t, id) && WellFormedReactions(t, id);
  }

  /** Everything one change can do to the row and the reactions of an existing message. */
  lemma NextRow(ts: seq<Tables>, cs: seq<Change>, n: nat, id: MessageId)
    requires GoodRun(ts, cs) && n < |cs| && id in ts[n].messages
    ensures id in ts[n + 1].messages && id in ts[n].reactions && id in ts[n + 1].reactions
    ensures var m, m' := ts[n].messages[id], ts[n + 1].messages[id];
            && m'.chat == m.chat && m'.sender == m.sender && m'.replyTo == m.replyTo
            && m'.version == m.version + (if Bumps(ts[n], cs[n], id) then 1 else 0)
            && TextOf(m') == Rewritten(TextOf(m), ts[n], cs[n], id)
            && (m.Deleted() ==> m' == m)
    ensures !Bumps(ts[n], cs[n], id) ==> ts[n + 1].reactions[id] == ts[n].reactions[id]
    ensures ts[n + 1].messages[id].Deleted() ==> ts[n + 1].reactions[id] == {} && ts[n + 1].messages[id].content == ""
  {
    RunIsWellFormed(ts, cs, n);
    RunIsWellFormed(ts, cs, n + 1);
    RowAfter(ts[n], cs[n], id);
    VersionAfter(ts[n], cs[n], id);
    assert StepAt(ts, cs, n);
    assert WellFormedMessage(ts[n + 1], id) && WellFormedReactions(ts[n + 1], id);
  }

  lemma {:induction false} RowsStay(ts: seq<Tables>, cs: seq<Change>, i: nat, j: nat, id: MessageId)
    requires GoodRun(ts, cs) && i <= j <= |cs| && id in ts[i].messages
    ensures id in ts[j].messages && id in ts[j].reactions
    ensures var m, m' := ts[i].messages[id], ts[j].messages[id];
            m'.chat == m.chat && m'.sender == m.sender && m'.replyTo == m.replyTo
  {
    if i < j {
      RowsStay(ts, cs, i, j - 1, id);
      NextRow(ts, cs, j - 1, id);
    } else {
      RunIsWellFormed(ts, cs, i);
      assert WellFormedReactions(ts[i], id);
    }
  }

  // ---- Versions ----

  /** How many of the first `n` changes bumped the version of this message. */
  function Bumped(ts: seq<Tables>, cs: seq<Change>, n: nat, id: MessageId): nat
    requires n <= |cs| && n < |ts|
  {
    if n == 0 then 0
    else Bumped(ts, cs, n - 1, id) + if Bumps(ts[n - 1], cs[n - 1], id) then 1 else 0
  }

  lemma CreatedAtZero(t: Tables, c: Change, id: MessageId)
    requires id !in t.messages
    ensures !Bumps(t, c, id) && (id in Apply(t, c).messages ==> Apply(t, c).messages[id].version == 0)
  {
  }

  /** The version of a message is the number of committed changes to its reactions, its deletion included. */
  lemma {:induction false} VersionCountsChanges(ts: seq<Tables>, cs: seq<Change>, n: nat, id: MessageId)
    requires IsRun(ts, cs) && ts[0] == EMPTY && n <= |cs|
    ensures Bumped(ts, cs, n, id) == if id in ts[n].messages then ts[n].messages[id].version else 0
  {
    if n > 0 {
      VersionCountsChanges(ts, cs, n - 1, id);
      if id in ts[n - 1].messages {
        NextRow(ts, cs, n - 1, id);
      } else {
        assert StepAt(ts, cs, n - 1);
        CreatedAtZero(ts[n - 1], cs[n - 1], id);
      }
    }
  }

  /** Equal versions of a message mean equal reaction rows, however far apart the moments are. */
  lemma {:induction false} EqualVersionsEqualReactions(ts: seq<Tables>, cs: seq<Change>, i: nat, j: nat, id: MessageId)
    requires GoodRun(ts, cs) && i <= j <= |cs| && id in ts[i].messages
    ensures id in ts[j].messages && id in ts[i].reactions && id in ts[j].reactions
    ensures ts[i].messages[id].version <= ts[j].messages[id].version
    ensures ts[i].messages[id].version == ts[j].messages[id].version ==> ts[i].reactions[id] == ts[j].reactions[id]
  {
    if i < j {
      EqualVersionsEqualReactions(ts, cs, i, j - 1, id);
      NextRow(ts, cs, j - 1, id);
    } else {
      RunIsWellFormed(ts, cs, i);
      assert WellFormedReactions(ts[i], id);
    }
  }

  /** What SetReaction and Delete report: the version and the grouped rows; a tombstone shows none. */
  datatype Report = Report(version: nat, reactions: seq<Summary>)

  function ReportOf(t: Tables, id: MessageId): Report
    requires id in t.messages && id in t.reactions
  {
    Report(t.messages[id].version, if t.messages[id].Deleted() then [] else Group(t.reactions[id]))
  }

  /** A receiver that replaces its cached state unless the one it holds has a larger version. */
  function Received(reports: seq<Report>): Option<Report> {
    if reports == [] then None
    else
      var r := reports[|reports| - 1];
      match Received(reports[..|reports| - 1])
      case None => Some(r)
      case Some(held) => Some(if r.version >= held.version then r else held)
  }

  lemma {:induction false} ReceivedIsLargest(reports: seq<Report>)
    requires reports != []
    ensures Received(reports).Some? && Received(reports).value in reports
    ensures forall r | r in reports :: r.version <= Received(reports).value.version
  {
    var init, last := reports[..|reports| - 1], reports[|reports| - 1];
    assert reports == init + [last];
    if init != [] {
      ReceivedIsLargest(init);
    }
  }

  /** The report was read off the run, `p` changes in. */
  ghost predicate TakenAt(ts: seq<Tables>, cs: seq<Change>, id: MessageId, r: Report, p: nat) {
    p <= |cs| && p < |ts| && id in ts[p].messages && id in ts[p].reactions && r == ReportOf(ts[p], id)
  }

  lemma EmptyGroup()
    ensures Group({}) == []
  {
    GroupIsTheOnlyOne({}, []);
  }

  /** Reports of one message with equal versions are equal, whichever two moments they describe. */
  lemma SameVersionSameReport(ts: seq<Tables>, cs: seq<Change>, id: MessageId, r: Report, p: nat, s: Report, q: nat)
    requires GoodRun(ts, cs) && TakenAt(ts, cs, id, r, p) && TakenAt(ts, cs, id, s, q)
    ensures p <= q ==> r.version <= s.version
    ensures r.version == s.version ==> r == s
  {
    var first, last := if p <= q then p else q, if p <= q then q else p;
    EqualVersionsEqualReactions(ts, cs, first, last, id);
    ReportIsGroup(ts, cs, p, id);
    ReportIsGroup(ts, cs, q, id);
  }

  lemma ReportIsGroup(ts: seq<Tables>, cs: seq<Change>, p: nat, id: MessageId)
    requires GoodRun(ts, cs) && p <= |cs| && id in ts[p].messages && id in ts[p].reactions
    ensures ReportOf(ts[p], id) == Report(ts[p].messages[id].version, Group(ts[p].reactions[id]))
  {
    RunIsWellFormed(ts, cs, p);
    assert WellFormedReactions(ts[p], id);
    EmptyGroup();
  }

  /**
   Any reordering and duplication of reports, as long as one with the final version is
   among them, leaves the receiver with exactly the server's final state.
   */
  lemma ReceiverConverges(ts: seq<Tables>, cs: seq<Change>, id: MessageId, reports: seq<Report>, final: Report)
    requires GoodRun(ts, cs) && TakenAt(ts, cs, id, final, |cs|)
    requires forall r | r in reports :: exists p :: TakenAt(ts, cs, id, r, p)
    requires exists r | r in reports :: r.version == final.version
    ensures Received(reports) == Some(final)
  {
    ReceivedIsLargest(reports);
    var best := Received(reports).value;
    var p :| TakenAt(ts, cs, id, best, p);
    SameVersionSameReport(ts, cs, id, best, p, final, |cs|);
  }

  // ---- Deletion is final ----

  /** A tombstone is frozen: content stays empty and nothing else about the row ever changes. */
  lemma {:induction false} TombstoneIsFrozen(ts: seq<Tables>, cs: seq<Change>, i: nat, j: nat, id: MessageId)
    requires GoodRun(ts, cs) && i <= j <= |cs|
    requires id in ts[i].messages && ts[i].messages[id].Deleted()
    ensures id in ts[j].messages && ts[j].messages[id] == ts[i].messages[id] && ts[j].messages[id].content == ""
    ensures id in ts[j].reactions && ts[j].reactions[id] == {}
  {
    if i < j {
      TombstoneIsFrozen(ts, cs, i, j - 1, id);
      NextRow(ts, cs, j - 1, id);
    } else {
      RunIsWellFormed(ts, cs, i);
      assert WellFormedMessage(ts[i], id) && WellFormedReactions(ts[i], id);
    }
  }

  /** Once a Delete of a message succeeds, no later Delete, Edit or SetReaction of it does. */
  lemma NothingAfterDelete(ts: seq<Tables>, cs: seq<Change>, i: nat, j: nat)
    requires GoodRun(ts, cs) && i < j < |cs|
    requires cs[j].Delete? || cs[j].Edit? || cs[j].SetReaction?
    requires Deletes(ts[i], cs[i], cs[j].id)
    ensures !Effective(ts[j], cs[j])
  {
    NextRow(ts, cs, i, cs[j].id);
    TombstoneIsFrozen(ts, cs, i + 1, j, cs[j].id);
  }

  /** If a message went from live to deleted, some Delete in between did it. */
  lemma {:induction false} OnlyDeleteDeletes(ts: seq<Tables>, cs: seq<Change>, i: nat, j: nat, chat: ChatId, id: MessageId)
    requires GoodRun(ts, cs) && i <= j <= |cs|
    requires Live(ts[i], chat, id) && !Live(ts[j], chat, id)
    ensures exists k | i <= k < j :: Deletes(ts[k], cs[k], id)
  {
    if Live(ts[j - 1], chat, id) {
      NextRow(ts, cs, j - 1, id);
      assert Deletes(ts[j - 1], cs[j - 1], id);
    } else {
      OnlyDeleteDeletes(ts, cs, i, j - 1, chat, id);
    }
  }

  // ---- Replies ----

  /** The first message of a thread; the links strictly go back, so following them ends. */
  function ThreadRoot(t: Tables, id: MessageId): (root: MessageId)
    requires WellFormed(t) && id in t.messages
    ensures root <= id && Existing(t, t.messages[id].chat, root) && t.messages[root].replyTo.None?
  {
    assert WellFormedMessage(t, id);
    match t.messages[id].replyTo
    case None => id
    case Some(parent) => ThreadRoot(t, parent)
  }

  /** Threads never change: later changes leave the root of every message where it was. */
  lemma {:induction false} ThreadsAreStable(ts: seq<Tables>, cs: seq<Change>, i: nat, j: nat, id: MessageId)
    requires GoodRun(ts, cs) && i <= j <= |cs| && id in ts[i].messages
    ensures WellFormed(ts[i]) && WellFormed(ts[j]) && id in ts[j].messages
    ensures ThreadRoot(ts[j], id) == ThreadRoot(ts[i], id)
    decreases id
  {
    RunIsWellFormed(ts, cs, i);
    RunIsWellFormed(ts, cs, j);
    RowsStay(ts, cs, i, j, id);
    assert WellFormedMessage(ts[i], id);
    if ts[i].messages[id].replyTo.Some? {
      ThreadsAreStable(ts, cs, i, j, ts[i].messages[id].replyTo.value);
    }
  }

  /** The reply_to column. */
  datatype Preview = Preview(id: MessageId, sender: UserId, text: Text)

  function PreviewOf(t: Tables, id: MessageId): Option<Preview>
    requires id in t.messages
  {
    match t.messages[id].replyTo
    case None => None
    case Some(p) =>
      if Existing(t, t.messages[id].chat, p) then Some(Preview(p, t.messages[p].sender, TextOf(t.messages[p]))) else None
  }

  /** What the changes i, ..., j - 1 of a run say a message's text is, starting from `text`. */
  function Written(text: Text, ts: seq<Tables>, cs: seq<Change>, i: nat, j: nat, id: MessageId): Text
    requires i <= j <= |cs| && j < |ts|
  {
    if i == j then text else Rewritten(Written(text, ts, cs, i, j - 1, id), ts[j - 1], cs[j - 1], id)
  }

  lemma {:induction false} TextIsWritten(ts: seq<Tables>, cs: seq<Change>, i: nat, j: nat, id: MessageId)
    requires GoodRun(ts, cs) && i <= j <= |cs| && id in ts[i].messages
    ensures id in ts[j].messages && TextOf(ts[j].messages[id]) == Written(TextOf(ts[i].messages[id]), ts, cs, i, j, id)
  {
    if i < j {
      TextIsWritten(ts, cs, i, j - 1, id);
      NextRow(ts, cs, j - 1, id);
    }
  }

  /**
   Whatever edits and deletions follow, a reply goes on showing its target: the preview never
   goes missing and carries the target's latest text and times, an empty text once deleted.
   */
  lemma PreviewFollowsTarget(ts: seq<Tables>, cs: seq<Change>, i: nat, j: nat, id: MessageId, p: MessageId)
    requires GoodRun(ts, cs) && i <= j <= |cs| && id in ts[i].messages && ts[i].messages[id].replyTo == Some(p)
    ensures p in ts[i].messages && id in ts[j].messages
    ensures var w := Written(TextOf(ts[i].messages[p]), ts, cs, i, j, p);
            && PreviewOf(ts[j], id) == Some(Preview(p, ts[i].messages[p].sender, w))
            && (w.deletedAt.Some? ==> w.content == "")
  {
    RunIsWellFormed(ts, cs, i);
    RunIsWellFormed(ts, cs, j);
    assert WellFormedMessage(ts[i], id);
    RowsStay(ts, cs, i, j, id);
    RowsStay(ts, cs, i, j, p);
    TextIsWritten(ts, cs, i, j, p);
    assert WellFormedMessage(ts[j], p);
  }
}
