/**
 The database tables and the changes other transactions can see: each statement that
 commits on its own, and the net effect of each multi-statement transaction. A change
 whose WHERE clause, foreign key or unique index rejects it leaves the tables alone.
 */
module Tables {
  import opened Options

  /** UUIDs, as their 128-bit value: canonical lower-case strings compare in the same order. */
  type UserId = nat
  type ChatId = nat
  type MessageId = nat

  datatype Kind = DirectChat | GroupChat
  datatype Role = Admin | Ordinary
  datatype Reaction = Angry | Heart | Laugh | Like | Sad | Wow

  datatype Chat = Chat(kind: Kind, createdBy: UserId)
  datatype Pair = Pair(user1: UserId, user2: UserId)
  datatype Key = Key(chat: ChatId, user: UserId)
  datatype Member = Member(role: Role, lastRead: Option<MessageId>, muted: bool, muteVersion: nat)
  datatype Message = Message(
    chat: ChatId, sender: UserId, content: string, editedAt: Option<int>, deletedAt: Option<int>,
    replyTo: Option<MessageId>, version: nat)
  {
    predicate Deleted() { deletedAt.Some? }
  }

  type Rows = set<(UserId, Reaction)>

  /** `reactions` holds the message_reactions rows of each message; `nextId` is the identity sequence. */
  datatype Tables = Tables(
    chats: map<ChatId, Chat>, directs: map<ChatId, Pair>, members: map<Key, Member>,
    messages: map<MessageId, Message>, reactions: map<MessageId, Rows>, nextId: MessageId)

  const EMPTY := Tables(map[], map[], map[], map[], map[], 1)

  datatype Change =
    | CreateGroup(chat: ChatId, creator: UserId, others: set<UserId>)
    | CreateDirect(chat: ChatId, creator: UserId, pair: Pair)
    | AddMember(chat: ChatId, user: UserId, role: Role)
    | RemoveMember(chat: ChatId, user: UserId)
    | AdvanceRead(chat: ChatId, user: UserId, id: MessageId)
    | SetMute(chat: ChatId, user: UserId, muted: bool)
    | Create(id: MessageId, chat: ChatId, sender: UserId, content: string, replyTo: Option<MessageId>)
    | Edit(chat: ChatId, sender: UserId, id: MessageId, content: string, at: int)
    | Delete(chat: ChatId, sender: UserId, id: MessageId, at: int)
    | SetReaction(chat: ChatId, user: UserId, id: MessageId, reaction: Reaction, add: bool)

  /** A row of `chat` with this id that is not a tombstone. */
  predicate Live(t: Tables, chat: ChatId, id: MessageId) {
    id in t.messages && t.messages[id].chat == chat && !t.messages[id].Deleted()
  }

  predicate Existing(t: Tables, chat: ChatId, id: MessageId) {
    id in t.messages && t.messages[id].chat == chat
  }

  predicate Before(lastRead: Option<MessageId>, id: MessageId) {
    lastRead.None? || lastRead.value < id
  }

  function RowsOf(t: Tables, id: MessageId): Rows {
    if id in t.reactions then t.reactions[id] else {}
  }

  function WithReaction(rows: Rows, user: UserId, reaction: Reaction, add: bool): Rows {
    if add then rows + {(user, reaction)} else rows - {(user, reaction)}
  }

  /** Whether the change finds anything to change. */
  predicate Effective(t: Tables, c: Change) {
    match c
    case CreateGroup(chat, creator, others) => chat !in t.chats && creator !in others
    case CreateDirect(chat, creator, pair) =>
      chat !in t.chats && pair !in t.directs.Values && pair.user1 != pair.user2
    case AddMember(chat, user, role) => chat in t.chats && Key(chat, user) !in t.members
    case RemoveMember(chat, user) => Key(chat, user) in t.members
    case AdvanceRead(chat, user, id) =>
      Key(chat, user) in t.members && Existing(t, chat, id) && Before(t.members[Key(chat, user)].lastRead, id)
    case SetMute(chat, user, muted) => Key(chat, user) in t.members && t.members[Key(chat, user)].muted != muted
    case Create(id, chat, sender, content, replyTo) =>
      id >= t.nextId && chat in t.chats && (replyTo.None? || Live(t, chat, replyTo.value))
    case Edit(chat, sender, id, content, at) => Live(t, chat, id) && t.messages[id].sender == sender
    case Delete(chat, sender, id, at) => Live(t, chat, id) && t.messages[id].sender == sender
    case SetReaction(chat, user, id, reaction, add) =>
      && Live(t, chat, id) && id in t.reactions
      && WithReaction(t.reactions[id], user, reaction, add) != t.reactions[id]
  }

  /** The newest message of the chat, where a new member starts reading. */
  function MaxId(t: Tables, chat: ChatId): (r: Option<MessageId>)
    ensures r.None? ==> forall id | id in t.messages :: t.messages[id].chat != chat
    ensures r.Some? ==> Existing(t, chat, r.value) && forall id: MessageId | Existing(t, chat, id) :: id <= r.value
  {
    var ids := set id | id in t.messages && t.messages[id].chat == chat;
    assert forall id | id in t.messages && t.messages[id].chat == chat :: id in ids;
    MaxOf(ids)
  }

  function MaxOf(s: set<nat>): (r: Option<nat>)
    ensures r.None? <==> s == {}
    ensures r.Some? ==> r.value in s && forall x | x in s :: x <= r.value
  {
    if s == {} then None
    else
      MaxExists(s);
      var x :| IsMax(x, s);
      Some(x)
  }

  predicate IsMax(x: nat, s: set<nat>) {
    x in s && forall y | y in s :: y <= x
  }

  lemma MaxExists(s: set<nat>)
    requires s != {}
    ensures exists x :: IsMax(x, s)
  {
    var m := HasMax(s);
  }

  lemma {:induction false} HasMax(s: set<nat>) returns (m: nat)
    requires s != {}
    ensures IsMax(m, s)
  {
    var x :| x in s;
    var rest := s - {x};
    m := x;
    if rest != {} {
      var z := HasMax(rest);
      m := if x > z then x else z;
    }
    forall y | y in s
      ensures y <= m
    {
      assert y == x || y in rest;
    }
  }

  const NEWCOMER := Member(Ordinary, None, false, 0)

  function Apply(t: Tables, c: Change): Tables {
    if !Effective(t, c) then t
    else
      match c
      case CreateGroup(chat, creator, others) =>
        t.(chats := t.chats[chat := Chat(GroupChat, creator)],
           members := t.members + (map u | u in others :: Key(chat, u) := NEWCOMER)
                      + map[Key(chat, creator) := NEWCOMER.(role := Admin)])
      case CreateDirect(chat, creator, pair) =>
        t.(chats := t.chats[chat := Chat(DirectChat, creator)],
           directs := t.directs[chat := pair],
           members := t.members[Key(chat, pair.user1) := NEWCOMER][Key(chat, pair.user2) := NEWCOMER])
      case AddMember(chat, user, role) =>
        t.(members := t.members[Key(chat, user) := Member(role, MaxId(t, chat), false, 0)])
      case RemoveMember(chat, user) =>
        t.(members := t.members - {Key(chat, user)})
      case AdvanceRead(chat, user, id) =>
        var m := t.members[Key(chat, user)];
        t.(members := t.members[Key(chat, user) := m.(lastRead := Some(id))])
      case SetMute(chat, user, muted) =>
        var m := t.members[Key(chat, user)];
        t.(members := t.members[Key(chat, user) := m.(muted := muted, muteVersion := m.muteVersion + 1)])
      case Create(id, chat, sender, content, replyTo) =>
        t.(messages := t.messages[id := Message(chat, sender, content, None, None, replyTo, 0)],
           reactions := t.reactions[id := {}],
           nextId := id + 1)
      case Edit(chat, sender, id, content, at) =>
        t.(messages := t.messages[id := t.messages[id].(content := content, editedAt := Some(at))])
      case Delete(chat, sender, id, at) =>
        t.(messages := t.messages[id := Tombstone(t.messages[id], at)],
           reactions := t.reactions[id := {}])
      case SetReaction(chat, user, id, reaction, add) =>
        t.(messages := t.messages[id := t.messages[id].(version := t.messages[id].version + 1)],
           reactions := t.reactions[id := WithReaction(t.reactions[id], user, reaction, add)])
  }

  function Tombstone(m: Message, at: int): Message {
    m.(content := "", deletedAt := Some(at), version := m.version + 1)
  }

  /** No other membership, and nothing else, is different. */
  ghost predicate OnlyMemberChanged(t: Tables, t': Tables, k: Key) {
    && t' == t.(members := t'.members)
    && forall j: Key | j != k :: (j in t'.members <==> j in t.members) && (j in t.members ==> t'.members[j] == t.members[j])
  }

  /** No other message and no other message's reactions, and nothing else, is different. */
  ghost predicate OnlyMessageChanged(t: Tables, t': Tables, id: MessageId) {
    && t' == t.(messages := t'.messages, reactions := t'.reactions)
    && forall j: MessageId | j != id ::
         && (j in t'.messages <==> j in t.messages) && (j in t.messages ==> t'.messages[j] == t.messages[j])
         && (j in t'.reactions <==> j in t.reactions) && (j in t.reactions ==> t'.reactions[j] == t.reactions[j])
  }

  /** The row is there or not, as wanted, and every other row is as it was. */
  ghost predicate OneRowSet(before: Rows, after: Rows, user: UserId, reaction: Reaction, present: bool) {
    forall u: UserId, r: Reaction ::
      (u, r) in after <==> if (u, r) == (user, reaction) then present else (u, r) in before
  }

  lemma SettingOneRow(rows: Rows, user: UserId, reaction: Reaction, add: bool)
    ensures OneRowSet(rows, WithReaction(rows, user, reaction, add), user, reaction, add)
    ensures WithReaction(rows, user, reaction, add) == rows <==> add == ((user, reaction) in rows)
  {
    var after := WithReaction(rows, user, reaction, add);
    assert (user, reaction) in after <==> add;
    assert after == rows <==> add == ((user, reaction) in rows);
  }

  /** SetReaction on a live message: one row and the version, if the row was not already as wanted. */
  lemma ToggleApplied(t: Tables, chat: ChatId, user: UserId, id: MessageId, reaction: Reaction, add: bool)
    requires Live(t, chat, id) && id in t.reactions
    ensures var rows, c := t.reactions[id], SetReaction(chat, user, id, reaction, add);
            && (Effective(t, c) <==> add != ((user, reaction) in rows))
            && (add == ((user, reaction) in rows) ==> Apply(t, c) == t && WithReaction(rows, user, reaction, add) == rows)
            && (add != ((user, reaction) in rows) ==>
                  Apply(t, c) == t.(messages := t.messages[id := t.messages[id].(version := t.messages[id].version + 1)],
                                    reactions := t.reactions[id := WithReaction(rows, user, reaction, add)]))
  {
    SettingOneRow(t.reactions[id], user, reaction, add);
  }

  /** `ts[i]` are the tables after the first `i` of the changes `cs`. */
  ghost predicate IsRun(ts: seq<Tables>, cs: seq<Change>) {
    && |ts| == |cs| + 1
    && forall i {:trigger StepAt(ts, cs, i)} | 0 <= i < |cs| :: StepAt(ts, cs, i)
  }

  ghost predicate StepAt(ts: seq<Tables>, cs: seq<Change>, i: nat)
    requires i < |cs| && i + 1 < |ts|
  {
    ts[i + 1] == Apply(ts[i], cs[i])
  }

  // ---- What every reachable state satisfies ----

  ghost predicate WellFormedMessage(t: Tables, id: MessageId)
    requires id in t.messages
  {
    var m := t.messages[id];
    && id < t.nextId && m.chat in t.chats
    && (m.replyTo.Some? ==> m.replyTo.value < id && Existing(t, m.chat, m.replyTo.value))
    && (m.Deleted() ==> m.content == "")
  }

  /** A tombstone has no reactions; before that the rows are as many as the version, less undone pairs. */
  ghost predicate WellFormedReactions(t: Tables, id: MessageId)
    requires id in t.messages
  {
    var m := t.messages[id];
    && id in t.reactions
    && (m.Deleted() ==> t.reactions[id] == {})
    && (!m.Deleted() ==> |t.reactions[id]| <= m.version && (m.version - |t.reactions[id]|) % 2 == 0)
  }

  ghost predicate WellFormedMember(t: Tables, k: Key)
    requires k in t.members
  {
    var m := t.members[k];
    && k.chat in t.chats
    && (m.lastRead.Some? ==> Existing(t, k.chat, m.lastRead.value))
    && (m.muted <==> m.muteVersion % 2 == 1)
  }

  ghost predicate WellFormed(t: Tables) {
    && (forall id | id in t.messages :: WellFormedMessage(t, id))
    && (forall id | id in t.messages :: WellFormedReactions(t, id))
    && (forall k | k in t.members :: WellFormedMember(t, k))
    && t.directs.Keys <= t.chats.Keys
  }

  lemma ApplyKeepsMessages(t: Tables, c: Change)
    requires WellFormed(t)
    ensures forall id | id in Apply(t, c).messages :: WellFormedMessage(Apply(t, c), id)
  {
  }

  lemma ToggleMovesByOne(rows: Rows, user: UserId, reaction: Reaction, add: bool)
    requires WithReaction(rows, user, reaction, add) != rows
    ensures |WithReaction(rows, user, reaction, add)| == if add then |rows| + 1 else |rows| - 1
  {
    assert add <==> (user, reaction) !in rows;
  }

  lemma ApplyKeepsReactions(t: Tables, c: Change)
    requires WellFormed(t)
    ensures forall id | id in Apply(t, c).messages :: WellFormedReactions(Apply(t, c), id)
  {
    if c.SetReaction? && Effective(t, c) {
      ToggleMovesByOne(t.reactions[c.id], c.user, c.reaction, c.add);
    }
    forall id | id in Apply(t, c).messages
      ensures WellFormedReactions(Apply(t, c), id)
    {
      assert id in t.messages ==> WellFormedReactions(t, id);
    }
  }

  lemma ApplyKeepsMembers(t: Tables, c: Change)
    requires WellFormed(t)
    ensures forall k | k in Apply(t, c).members :: WellFormedMember(Apply(t, c), k)
  {
  }

  lemma ApplyKeepsWellFormed(t: Tables, c: Change)
    requires WellFormed(t)
    ensures WellFormed(Apply(t, c))
  {
    ApplyKeepsMessages(t, c);
    ApplyKeepsReactions(t, c);
    ApplyKeepsMembers(t, c);
  }

  lemma {:induction false} RunIsWellFormed(ts: seq<Tables>, cs: seq<Change>, n: nat)
    requires IsRun(ts, cs) && WellFormed(ts[0]) && n <= |cs|
    ensures WellFormed(ts[n])
  {
    if n > 0 {
      RunIsWellFormed(ts, cs, n - 1);
      ApplyKeepsWellFormed(ts[n - 1], cs[n - 1]);
      assert StepAt(ts, cs, n - 1);
    }
  }

  /** Adding one more change to a run. */
  lemma ExtendRun(ts: seq<Tables>, cs: seq<Change>, c: Change)
    requires IsRun(ts, cs)
    ensures IsRun(ts + [Apply(ts[|cs|], c)], cs + [c])
  {
    var ts', cs' := ts + [Apply(ts[|cs|], c)], cs + [c];
    forall i | 0 <= i < |cs'|
      ensures StepAt(ts', cs', i)
    {
      assert i < |cs| ==> StepAt(ts, cs, i);
    }
  }

  /** A run that starts in a well-formed state, as every run from an empty database does. */
  ghost predicate GoodRun(ts: seq<Tables>, cs: seq<Change>) {
    IsRun(ts, cs) && WellFormed(ts[0])
  }
}
