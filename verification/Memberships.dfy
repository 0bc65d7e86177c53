/**
 What runs of changes do to one membership: its read cursor, the three-statement MarkRead
 call, and its mute setting.
 */
module Memberships {
  import opened Options
  import opened Tables
  import opened HistoryPages

  /** The membership is not ended between positions `i` and `j` of the run. */
  ghost predicate Lasting(cs: seq<Change>, i: nat, j: nat, k: Key) {
    forall n | i <= n < j && n < |cs| :: cs[n] != RemoveMember(k.chat, k.user)
  }

  predicate Marks(t: Tables, c: Change, k: Key) {
    c.AdvanceRead? && Key(c.chat, c.user) == k && Existing(t, k.chat, c.id)
  }

  predicate TogglesMute(t: Tables, c: Change, k: Key) {
    c.SetMute? && Key(c.chat, c.user) == k && Effective(t, c)
  }

  /** Everything one change that does not end a membership can do to it. */
  lemma MemberAfter(t: Tables, c: Change, k: Key)
    requires WellFormed(t) && k in t.members && c != RemoveMember(k.chat, k.user)
    ensures k in Apply(t, c).members
    ensures var m, m' := t.members[k], Apply(t, c).members[k];
            && m'.role == m.role
            && m'.lastRead == (if Marks(t, c, k) && Before(m.lastRead, c.id) then Some(c.id) else m.lastRead)
            && m'.muteVersion == m.muteVersion + (if TogglesMute(t, c, k) then 1 else 0)
            && (m'.muted <==> m.muted != TogglesMute(t, c, k))
  {
    assert WellFormedMember(t, k);
  }

  // ---- The read cursor ----

  /** The marks of the changes i, ..., j - 1 that named a message of the chat. */
  function MarksIn(ts: seq<Tables>, cs: seq<Change>, i: nat, j: nat, k: Key): set<MessageId>
    requires i <= j <= |cs| && j < |ts|
  {
    if i == j then {}
    else MarksIn(ts, cs, i, j - 1, k) + if Marks(ts[j - 1], cs[j - 1], k) then {cs[j - 1].id} else {}
  }

  function AsSet(o: Option<MessageId>): set<MessageId> {
    if o.None? then {} else {o.value}
  }

  lemma MaxIs(s: set<nat>, x: nat)
    requires IsMax(x, s)
    ensures MaxOf(s) == Some(x)
  {
  }

  /**
   Within one membership the cursor is the largest of where it started and the marks made
   since. It is a function of the set of marks: their order does not matter.
   */
  lemma {:induction false} CursorIsLargestMark(ts: seq<Tables>, cs: seq<Change>, i: nat, j: nat, k: Key)
    requires GoodRun(ts, cs) && i <= j <= |cs| && k in ts[i].members && Lasting(cs, i, j, k)
    ensures k in ts[j].members
    ensures ts[j].members[k].lastRead == MaxOf(AsSet(ts[i].members[k].lastRead) + MarksIn(ts, cs, i, j, k))
  {
    var start := AsSet(ts[i].members[k].lastRead);
    if i == j {
      if start != {} {
        MaxIs(start + {}, ts[i].members[k].lastRead.value);
      }
    } else {
      CursorIsLargestMark(ts, cs, i, j - 1, k);
      RunIsWellFormed(ts, cs, j - 1);
      var t, c := ts[j - 1], cs[j - 1];
      MemberAfter(t, c, k);
      assert StepAt(ts, cs, j - 1);
      var before := start + MarksIn(ts, cs, i, j - 1, k);
      if Marks(t, c, k) {
        assert start + MarksIn(ts, cs, i, j, k) == before + {c.id};
        MaxIs(before + {c.id}, if Before(MaxOf(before), c.id) then c.id else MaxOf(before).value);
      } else {
        assert start + MarksIn(ts, cs, i, j, k) == before;
      }
    }
  }

  /** What one mark does to the tables. */
  lemma AdvancedTo(t: Tables, chat: ChatId, user: UserId, id: MessageId)
    ensures var t', k := Apply(t, AdvanceRead(chat, user, id)), Key(chat, user);
            if k in t.members && Existing(t, chat, id) && Before(t.members[k].lastRead, id)
            then t' == t.(members := t.members[k := t.members[k].(lastRead := Some(id))]) else t' == t
  {
  }

  lemma MarksCommute(t: Tables, chat: ChatId, user: UserId, a: MessageId, b: MessageId)
    ensures var ma, mb := AdvanceRead(chat, user, a), AdvanceRead(chat, user, b);
            Apply(Apply(t, ma), mb) == Apply(Apply(t, mb), ma)
  {
    var ma, mb, k := AdvanceRead(chat, user, a), AdvanceRead(chat, user, b), Key(chat, user);
    AdvancedTo(t, chat, user, a);
    AdvancedTo(t, chat, user, b);
    AdvancedTo(Apply(t, ma), chat, user, b);
    AdvancedTo(Apply(t, mb), chat, user, a);
    if k in t.members && Existing(t, chat, a) && Existing(t, chat, b) {
      var ab, ba := Apply(Apply(t, ma), mb), Apply(Apply(t, mb), ma);
      assert ab.members == ba.members;
    }
  }

  // ---- MarkRead ----

  datatype MarkResult = Position(id: MessageId, advanced: bool) | MemberNotFound | MessageNotFound

  /** The call's three statements, each seeing the tables of its own moment. */
  function MarkRead(t1: Tables, t2: Tables, t3: Tables, chat: ChatId, user: UserId, id: MessageId): MarkResult {
    if Effective(t1, AdvanceRead(chat, user, id)) then Position(id, true)
    else if Key(chat, user) !in t2.members then MemberNotFound
    else if !Existing(t3, chat, id) then MessageNotFound
    else
      match t2.members[Key(chat, user)].lastRead
      case None => MessageNotFound
      case Some(read) => Position(read, false)
  }

  /**
   What the result means, statement by statement: `advanced` says that the first one moved the
   cursor, to exactly the requested message; otherwise the second saw no membership, or the
   position returned is the cursor it read.
   */
  lemma MarkReadMeans(t1: Tables, t2: Tables, t3: Tables, chat: ChatId, user: UserId, id: MessageId)
    ensures var k, after, result := Key(chat, user), Apply(t1, AdvanceRead(chat, user, id)), MarkRead(t1, t2, t3, chat, user, id);
            && OnlyMemberChanged(t1, after, k)
            && (result.Position? && result.advanced <==> after != t1)
            && (after != t1 <==>
                  && k in t1.members && id in t1.messages && t1.messages[id].chat == chat
                  && (t1.members[k].lastRead.None? || t1.members[k].lastRead.value < id))
            && (after != t1 ==>
                  && result.id == id && k in after.members
                  && after.members[k] == t1.members[k].(lastRead := Some(id)))
            && (result.MemberNotFound? <==> after == t1 && k !in t2.members)
            && (result.Position? && !result.advanced ==> k in t2.members && t2.members[k].lastRead == Some(result.id))
            && (result.MessageNotFound? ==>
                  k in t2.members && (t2.members[k].lastRead.None? || id !in t3.messages || t3.messages[id].chat != chat))
  {
    var k, c := Key(chat, user), AdvanceRead(chat, user, id);
    AdvancedTo(t1, chat, user, id);
    if Effective(t1, c) {
      assert Apply(t1, c).members[k].lastRead == Some(id) && t1.members[k].lastRead != Some(id);
    }
  }

  /** Whoever joins, for the first time or again, starts unmuted at version 0, with the newest message read. */
  lemma NewcomersStartFresh(t: Tables, c: Change, k: Key)
    requires k !in t.members && k in Apply(t, c).members
    ensures var m := Apply(t, c).members[k];
            && !m.muted && m.muteVersion == 0
            && (m.lastRead.Some? ==> Existing(t, k.chat, m.lastRead.value))
            && (k.chat in t.chats ==>
                  forall id | id in t.messages && t.messages[id].chat == k.chat :: m.lastRead.Some? && id <= m.lastRead.value)
  {
    assert forall id | id in t.messages && t.messages[id].chat == k.chat :: Existing(t, k.chat, id);
  }

  /** If there is a membership, its cursor is at `id` or later. */
  ghost predicate ReadUpTo(t: Tables, k: Key, id: MessageId) {
    k in t.members ==> !Before(t.members[k].lastRead, id)
  }

  lemma StaysReadUpTo(t: Tables, c: Change, k: Key, id: MessageId)
    requires WellFormed(t) && Existing(t, k.chat, id) && ReadUpTo(t, k, id)
    ensures Existing(Apply(t, c), k.chat, id) && ReadUpTo(Apply(t, c), k, id)
  {
    assert WellFormedMessage(t, id);
    if k in t.members && c != RemoveMember(k.chat, k.user) {
      MemberAfter(t, c, k);
    }
  }

  lemma {:induction false} KeepsReadUpTo(ts: seq<Tables>, cs: seq<Change>, i: nat, j: nat, k: Key, id: MessageId)
    requires GoodRun(ts, cs) && i <= j <= |cs| && Existing(ts[i], k.chat, id) && ReadUpTo(ts[i], k, id)
    ensures Existing(ts[j], k.chat, id) && ReadUpTo(ts[j], k, id)
  {
    if i < j {
      KeepsReadUpTo(ts, cs, i, j - 1, k, id);
      RunIsWellFormed(ts, cs, j - 1);
      StaysReadUpTo(ts[j - 1], cs[j - 1], k, id);
      assert StepAt(ts, cs, j - 1);
    }
  }

  /**
   If the message exists when MarkRead starts, then whatever marks, removals and rejoins run
   between its statements, it either finds no membership or returns a position at or past
   the requested message.
   */
  lemma MarkReadReachesRequest(ts: seq<Tables>, cs: seq<Change>, p: nat, q: nat, r: nat, chat: ChatId, user: UserId, id: MessageId)
    requires GoodRun(ts, cs) && p <= q <= r <= |cs| && Existing(ts[p], chat, id)
    ensures var result := MarkRead(ts[p], ts[q], ts[r], chat, user, id);
            result.MemberNotFound? || (result.Position? && result.id >= id)
  {
    if !Effective(ts[p], AdvanceRead(chat, user, id)) {
      KeepsReadUpTo(ts, cs, p, q, Key(chat, user), id);
      KeepsReadUpTo(ts, cs, q, r, Key(chat, user), id);
    }
  }

  /** The premise is needed: a message created between the statements can leave the position short of it. */
  lemma LateMessageFallsShort()
    ensures var t := ONE_READER; var c := Create(2, 1, 7, "later", None);
            WellFormed(t) && MarkRead(t, t, Apply(t, c), 1, 7, 2) == Position(1, false)
  {
  }

  /** One chat whose one member has read its one message. */
  const ONE_READER := Tables(
    map[1 := Chat(GroupChat, 7)], map[], map[Key(1, 7) := Member(Admin, Some(1), false, 0)],
    map[1 := Message(1, 7, "hi", None, None, None, 0)], map[1 := {}], 2)

  /** Started at the beginning of the run, with its other statements after `q` and `r` changes, MarkRead falls short. */
  ghost predicate FallsShort(ts: seq<Tables>, cs: seq<Change>, q: nat, r: nat, chat: ChatId, user: UserId, id: MessageId) {
    && GoodRun(ts, cs) && q <= r <= |cs|
    && var result := MarkRead(ts[0], ts[q], ts[r], chat, user, id);
       result.Position? && result.id < id
  }

  /** Whatever runs from `t` on between its statements, MarkRead never returns a position below `id`. */
  ghost predicate Safe(t: Tables, chat: ChatId, user: UserId, id: MessageId) {
    forall ts, cs, q, r | ts != [] && ts[0] == t :: !FallsShort(ts, cs, q, r, chat, user, id)
  }

  /** The smallest id that a message yet to come could have above another message of the chat. */
  function FirstUnsafe(t: Tables, chat: ChatId): MessageId {
    if MaxId(t, chat).None? then t.nextId + 1 else t.nextId
  }

  /** An id that a chat does not have and that is used up never comes to it. */
  lemma NeverAppears(ts: seq<Tables>, cs: seq<Change>, j: nat, chat: ChatId, id: MessageId)
    requires GoodRun(ts, cs) && j <= |cs| && id < ts[0].nextId
    ensures Existing(ts[j], chat, id) <==> Existing(ts[0], chat, id)
  {
    var all := Some(ts[0].nextId as int);
    BelowIsStable(ts, cs, 0, j, chat, ts[0].nextId);
    assert id in IdsBelow(ts[j], chat, all) <==> id in IdsBelow(ts[0], chat, all);
  }

  lemma SafeBelow(ts: seq<Tables>, cs: seq<Change>, q: nat, r: nat, chat: ChatId, user: UserId, id: MessageId)
    requires GoodRun(ts, cs) && q <= r <= |cs| && id < FirstUnsafe(ts[0], chat) && !Existing(ts[0], chat, id)
    ensures !FallsShort(ts, cs, q, r, chat, user, id)
  {
    if id < ts[0].nextId {
      NeverAppears(ts, cs, r, chat, id);
    } else if Key(chat, user) in ts[q].members && ts[q].members[Key(chat, user)].lastRead.Some? {
      // the chat was empty, so whatever its members have read since is new
      RunIsWellFormed(ts, cs, q);
      assert WellFormedMember(ts[q], Key(chat, user));
      var read := ts[q].members[Key(chat, user)].lastRead.value;
      if read < id {
        NeverAppears(ts, cs, q, chat, read);
      }
    }
  }

  /** Enter the chat, read its message `x`, and see message `id` arrive: changes that are not needed do nothing. */
  function Overtaking(chat: ChatId, user: UserId, x: MessageId, id: MessageId): seq<Change> {
    [CreateGroup(chat, user, {}), Create(x, chat, user, "", None), AddMember(chat, user, Ordinary),
     AdvanceRead(chat, user, x), Create(id, chat, user, "", None)]
  }

  function AfterAll(t: Tables, cs: seq<Change>): (ts: seq<Tables>)
    ensures IsRun(ts, cs) && ts[0] == t
  {
    if cs == [] then [t]
    else
      var ts := AfterAll(t, cs[..|cs| - 1]);
      ExtendRun(ts, cs[..|cs| - 1], cs[|cs| - 1]);
      assert cs[..|cs| - 1] + [cs[|cs| - 1]] == cs;
      ts + [Apply(ts[|cs| - 1], cs[|cs| - 1])]
  }

  /** The first two changes leave message `x` in the chat. */
  lemma ChatHasMessage(t: Tables, t1: Tables, t2: Tables, chat: ChatId, user: UserId, x: MessageId)
    requires WellFormed(t) && (Existing(t, chat, x) || x == t.nextId)
    requires t1 == Apply(t, CreateGroup(chat, user, {})) && t2 == Apply(t1, Create(x, chat, user, "", None))
    ensures chat in t2.chats && Existing(t2, chat, x) && t2.nextId == if x == t.nextId then x + 1 else t.nextId
  {
    assert Existing(t, chat, x) ==> WellFormedMessage(t, x);
  }

  /** The next two make the user a member who has read at least `x`. */
  lemma EnterAndRead(t2: Tables, t3: Tables, t4: Tables, chat: ChatId, user: UserId, x: MessageId)
    requires chat in t2.chats && Existing(t2, chat, x)
    requires t3 == Apply(t2, AddMember(chat, user, Ordinary)) && t4 == Apply(t3, AdvanceRead(chat, user, x))
    ensures t4.messages == t2.messages && t4.nextId == t2.nextId && t4.chats == t2.chats
    ensures Key(chat, user) in t4.members && t4.members[Key(chat, user)].lastRead.Some?
  {
  }

  /** The last one makes the message exist without moving the cursor to it. */
  lemma ArrivesLate(t4: Tables, t5: Tables, k: Key, id: MessageId)
    requires WellFormed(t4) && k in t4.members && t4.members[k].lastRead.Some? && t4.nextId <= id
    requires t5 == Apply(t4, Create(id, k.chat, k.user, "", None))
    ensures Existing(t5, k.chat, id) && t4.members[k].lastRead.value < id
  {
    assert WellFormedMember(t4, k) && WellFormedMessage(t4, t4.members[k].lastRead.value);
  }

  lemma OvertakingFallsShort(ts: seq<Tables>, cs: seq<Change>, chat: ChatId, user: UserId, x: MessageId, id: MessageId)
    requires cs == Overtaking(chat, user, x, id) && GoodRun(ts, cs)
    requires (Existing(ts[0], chat, x) || x == ts[0].nextId) && x < id && ts[0].nextId <= id
    ensures FallsShort(ts, cs, 4, 5, chat, user, id)
  {
    assert StepAt(ts, cs, 0) && StepAt(ts, cs, 1) && StepAt(ts, cs, 2) && StepAt(ts, cs, 3) && StepAt(ts, cs, 4);
    ChatHasMessage(ts[0], ts[1], ts[2], chat, user, x);
    EnterAndRead(ts[2], ts[3], ts[4], chat, user, x);
    RunIsWellFormed(ts, cs, 4);
    ArrivesLate(ts[4], ts[5], Key(chat, user), id);
    assert !Existing(ts[0], chat, id) by {
      assert Existing(ts[0], chat, id) ==> WellFormedMessage(ts[0], id);
    }
  }

  /**
   Exactly when a call is safe: when the message is in the chat at the start, or its id is
   too small to come to the chat later, above a message someone has read. The caller's user
   makes no difference.
   */
  lemma SafeExactlyWhen(t: Tables, chat: ChatId, user: UserId, id: MessageId)
    requires WellFormed(t)
    ensures Safe(t, chat, user, id) <==> Existing(t, chat, id) || id < FirstUnsafe(t, chat)
  {
    if Existing(t, chat, id) || id < FirstUnsafe(t, chat) {
      forall ts, cs, q: nat, r: nat | ts != [] && ts[0] == t
        ensures !FallsShort(ts, cs, q, r, chat, user, id)
      {
        if GoodRun(ts, cs) && q <= r <= |cs| {
          if Existing(t, chat, id) {
            MarkReadReachesRequest(ts, cs, 0, q, r, chat, user, id);
          } else {
            SafeBelow(ts, cs, q, r, chat, user, id);
          }
        }
      }
    } else {
      var x := if MaxId(t, chat).None? then t.nextId else MaxId(t, chat).value;
      assert x != t.nextId ==> WellFormedMessage(t, x);
      var cs := Overtaking(chat, user, x, id);
      OvertakingFallsShort(AfterAll(t, cs), cs, chat, user, x, id);
    }
  }

  // ---- Mute ----

  function Toggles(ts: seq<Tables>, cs: seq<Change>, i: nat, j: nat, k: Key): nat
    requires i <= j <= |cs| && j < |ts|
  {
    if i == j then 0 else Toggles(ts, cs, i, j - 1, k) + if TogglesMute(ts[j - 1], cs[j - 1], k) then 1 else 0
  }

  /**
   Within one membership the mute version only grows, by one for each change of the setting,
   and it alone says whether the chat is muted: exactly when it is odd.
   */
  lemma {:induction false} MuteVersionDecides(ts: seq<Tables>, cs: seq<Change>, i: nat, j: nat, k: Key)
    requires GoodRun(ts, cs) && i <= j <= |cs| && k in ts[i].members && Lasting(cs, i, j, k)
    ensures k in ts[j].members
    ensures ts[j].members[k].muteVersion == ts[i].members[k].muteVersion + Toggles(ts, cs, i, j, k)
    ensures ts[j].members[k].muted <==> ts[j].members[k].muteVersion % 2 == 1
  {
    RunIsWellFormed(ts, cs, j);
    if i < j {
      MuteVersionDecides(ts, cs, i, j - 1, k);
      RunIsWellFormed(ts, cs, j - 1);
      MemberAfter(ts[j - 1], cs[j - 1], k);
      assert StepAt(ts, cs, j - 1);
    }
    assert WellFormedMember(ts[j], k);
  }
}
