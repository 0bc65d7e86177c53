/**
 The repositories as objects over the mutable tables, one call at a time: each statement and
 transaction is carried out step by step on a working copy, and its effect is shown to be
 one change of Tables. ChatCalls and MessageTransactions interleave the same statements.
 */
module Repositories {
  import opened Options
  import opened Distinct
  import opened Tables
  import opened Reactions
  import opened MessageRuns
  import ChatCalls
  import HistoryPages
  import Memberships

  datatype Error = MemberMissing | AlreadyMember | ChatMissing | MessageMissing | UserMissing | Rejected

  datatype Result<T> = Ok(value: T) | Err(error: Error)

  /** What messageColumns selects. */
  datatype Row = Row(id: MessageId, message: Message, replyTo: Option<Preview>, report: Report)

  function RowOf(t: Tables, id: MessageId): Row
    requires id in t.messages && id in t.reactions
  {
    Row(id, t.messages[id], PreviewOf(t, id), ReportOf(t, id))
  }

  function IdsOf(rows: seq<Row>): seq<MessageId> {
    seq(|rows|, i requires 0 <= i < |rows| => rows[i].id)
  }

  /** A row of the chat as the tables have it. */
  predicate IsRow(t: Tables, chat: ChatId, row: Row) {
    Existing(t, chat, row.id) && row.id in t.reactions && row == RowOf(t, row.id)
  }

  lemma IdsOfPrefix(rows: seq<Row>, n: nat)
    requires n <= |rows|
    ensures IdsOf(rows[..n]) == IdsOf(rows)[..n]
  {
  }

  function SetOf(users: seq<UserId>): set<UserId> {
    set u | u in users
  }

  class Database {
    var users: set<UserId>
    var tables: Tables

    ghost predicate Valid()
      reads this
    {
      WellFormed(tables)
    }

    constructor (users: set<UserId>)
      ensures Valid() && this.users == users && tables == EMPTY
    {
      this.users, tables := users, EMPTY;
    }
  }

  function Newcomers(chat: ChatId, users: set<UserId>): map<Key, Member> {
    map u | u in users :: Key(chat, u) := NEWCOMER
  }

  lemma NewcomersGrow(m: map<Key, Member>, chat: ChatId, users: set<UserId>, u: UserId)
    ensures m + Newcomers(chat, users + {u}) == (m + Newcomers(chat, users))[Key(chat, u) := NEWCOMER]
    ensures m + Newcomers(chat, {}) == m
  {
  }

  lemma NoNewId(t: Tables, chat: ChatId)
    requires WellFormed(t)
    ensures chat !in t.chats ==> forall u: UserId :: Key(chat, u) !in t.members
  {
    if chat !in t.chats {
      NoRowsYet(t, chat);
    }
  }

  lemma NoRowsYet(t: Tables, chat: ChatId)
    requires WellFormed(t) && chat !in t.chats
    ensures forall u: UserId :: Key(chat, u) !in t.members
  {
    forall u: UserId
      ensures Key(chat, u) !in t.members
    {
      assert Key(chat, u) in t.members ==> WellFormedMember(t, Key(chat, u));
    }
  }

  /** The rows of a new group are those its transaction inserts, the creator's first. */
  lemma GroupRows(t: Tables, chat: ChatId, creator: UserId, others: set<UserId>)
    requires WellFormed(t) && chat !in t.chats && creator !in others
    ensures var admin := t.members[Key(chat, creator) := NEWCOMER.(role := Admin)];
            && (forall u :: Key(chat, u) in admin <==> u == creator)
            && Apply(t, Change.CreateGroup(chat, creator, others))
            == t.(chats := t.chats[chat := Chat(GroupChat, creator)], members := admin + Newcomers(chat, others))
  {
    NoRowsYet(t, chat);
    var admin := t.members[Key(chat, creator) := NEWCOMER.(role := Admin)];
    assert Apply(t, Change.CreateGroup(chat, creator, others)).members == admin + Newcomers(chat, others);
  }

  class ChatRepository {
    const db: Database

    constructor (db: Database)
      ensures this.db == db
    {
      this.db := db;
    }

    /** The loop over memberIDs: a repeated member, even the creator, is a primary key violation. */
    method InsertMembers(rows: map<Key, Member>, chat: ChatId, creator: UserId, others: seq<UserId>)
      returns (ok: bool, rows': map<Key, Member>)
      requires forall u :: Key(chat, u) in rows <==> u == creator
      ensures ok <==> creator !in others && AllDistinct(others) && SetOf(others) <= db.users
      ensures ok ==> rows' == rows + Newcomers(chat, SetOf(others))
    {
      rows' := rows;
      NewcomersGrow(rows, chat, {}, 0);
      assert SetOf(others[..0]) == {};
      for i := 0 to |others|
        invariant creator !in others[..i] && AllDistinct(others[..i]) && SetOf(others[..i]) <= db.users
        invariant rows' == rows + Newcomers(chat, SetOf(others[..i]))
      {
        var u := others[i];
        assert others[..i + 1] == others[..i] + [u];
        assert SetOf(others[..i + 1]) == SetOf(others[..i]) + {u};
        OneMoreDistinct(others[..i], u);
        if Key(chat, u) in rows' || u !in db.users {
          assert u in SetOf(others) && (AllDistinct(others) ==> AllDistinct(others[..i + 1]));
          return false, rows;
        }
        NewcomersGrow(rows, chat, SetOf(others[..i]), u);
        rows' := rows'[Key(chat, u) := NEWCOMER];
      }
      assert others[..|others|] == others;
      ok := true;
    }

    /** All of it or nothing. */
    method CreateGroup(newId: ChatId, creator: UserId, others: seq<UserId>) returns (r: Result<Chat>)
      requires db.Valid()
      modifies db`tables
      ensures db.Valid()
      ensures r.Ok? <==> && newId !in old(db.tables).chats && creator in db.users && SetOf(others) <= db.users
                         && creator !in others && AllDistinct(others)
      ensures r.Ok? ==> db.tables == Apply(old(db.tables), Change.CreateGroup(newId, creator, SetOf(others)))
                        && r.value == Chat(GroupChat, creator)
      ensures r.Ok? ==>
                var t, t' := old(db.tables), db.tables;
                && t' == t.(chats := t.chats[newId := Chat(GroupChat, creator)], members := t'.members)
                && (forall k: Key :: k in t'.members <==>
                      k in t.members || (k.chat == newId && (k.user == creator || k.user in others)))
                && (forall k: Key | k in t'.members ::
                      t'.members[k] == if k.chat != newId then t.members[k]
                                       else Member(if k.user == creator then Admin else Ordinary, None, false, 0))
      ensures r.Err? ==> r.error == Rejected && db.tables == old(db.tables)
    {
      r := Err(Rejected);
      var tx := db.tables;
      if newId in tx.chats || creator !in db.users {
        return;
      }
      tx := tx.(chats := tx.chats[newId := Chat(GroupChat, creator)]);
      tx := tx.(members := tx.members[Key(newId, creator) := NEWCOMER.(role := Admin)]);
      GroupRows(db.tables, newId, creator, SetOf(others) - {creator});
      var ok, rows := InsertMembers(tx.members, newId, creator, others);
      if !ok {
        return;
      }
      assert SetOf(others) - {creator} == SetOf(others);
      tx := tx.(members := rows);
      ApplyKeepsWellFormed(db.tables, Change.CreateGroup(newId, creator, SetOf(others)));
      NoRowsYet(db.tables, newId);
      r := Ok(tx.chats[newId]);
      db.tables := tx;
    }

    /** Without a competing caller: the existing chat of the pair, or a new one. */
    method GetOrCreateDirect(newId: ChatId, me: UserId, peer: UserId) returns (r: Result<ChatId>)
      requires db.Valid()
      modifies db`tables
      ensures db.Valid()
      ensures var pair, t := ChatCalls.NormalizeUserPair(me, peer), old(db.tables);
              && (r.Ok? ==> ChatCalls.IsDirectRow(db.tables, r.value, pair) && Key(r.value, me) in db.tables.members)
              && (pair in t.directs.Values || r.Err? ==> db.tables == t)
              && (pair !in t.directs.Values ==>
                    && (r.Ok? <==> newId !in t.chats && me != peer && me in db.users && peer in db.users)
                    && (r.Ok? ==> r.value == newId && db.tables == Apply(t, CreateDirect(newId, me, pair))))
      ensures var t, t' := old(db.tables), db.tables;
              t' != t ==>
                && t' == t.(chats := t.chats[newId := Chat(DirectChat, me)], directs := t'.directs, members := t'.members)
                && t'.directs == t.directs[newId := if me < peer then Pair(me, peer) else Pair(peer, me)]
                && t'.members == t.members[Key(newId, me) := Member(Ordinary, None, false, 0)]
                                          [Key(newId, peer) := Member(Ordinary, None, false, 0)]
    {
      r := Err(Rejected);
      var pair := ChatCalls.NormalizeUserPair(me, peer);
      var tx := db.tables;
      if pair in tx.directs.Values {
        var chat :| chat in tx.directs && tx.directs[chat] == pair;
        r := if Key(chat, me) in tx.members then Ok(chat) else Err(ChatMissing);
        return;
      }
      if newId in tx.chats || me !in db.users {
        return;
      }
      tx := tx.(chats := tx.chats[newId := Chat(DirectChat, me)]);
      if pair.user1 == pair.user2 || pair.user1 !in db.users || pair.user2 !in db.users {
        return;
      }
      tx := tx.(directs := tx.directs[newId := pair]);
      tx := tx.(members := tx.members[Key(newId, pair.user1) := NEWCOMER]);
      tx := tx.(members := tx.members[Key(newId, pair.user2) := NEWCOMER]);
      ApplyKeepsWellFormed(db.tables, CreateDirect(newId, me, pair));
      r := Ok(newId);
      db.tables := tx;
    }

    method AddMember(chat: ChatId, user: UserId, role: Role) returns (err: Option<Error>)
      requires db.Valid()
      modifies db`tables
      ensures db.Valid()
      ensures var t, c := old(db.tables), Change.AddMember(chat, user, role);
              && (err.None? <==> user in db.users && Effective(t, c))
              && (err == Some(AlreadyMember) <==> Key(chat, user) in t.members)
              && db.tables == if err.None? then Apply(t, c) else t
      ensures var t, t', k := old(db.tables), db.tables, Key(chat, user);
              && OnlyMemberChanged(t, t', k)
              && (err.None? <==> k !in t.members && chat in t.chats && user in db.users)
              && (err.None? ==>
                    && k in t'.members && t'.members[k].role == role && !t'.members[k].muted && t'.members[k].muteVersion == 0
                    && match t'.members[k].lastRead
                       case None => forall id | id in t.messages :: t.messages[id].chat != chat
                       case Some(read) => Existing(t, chat, read) && forall id: MessageId | Existing(t, chat, id) :: id <= read)
    {
      var t, k := db.tables, Key(chat, user);
      if k in t.members {
        return Some(AlreadyMember);
      }
      if chat !in t.chats || user !in db.users {
        return Some(Rejected);
      }
      ApplyKeepsWellFormed(t, Change.AddMember(chat, user, role));
      db.tables := t.(members := t.members[k := Member(role, MaxId(t, chat), false, 0)]);
      return None;
    }

    method RemoveMember(chat: ChatId, user: UserId) returns (err: Option<Error>)
      requires db.Valid()
      modifies db`tables
      ensures db.Valid()
      ensures var t, c := old(db.tables), Change.RemoveMember(chat, user);
              && db.tables == Apply(t, c)
              && err == if Effective(t, c) then None else Some(MemberMissing)
      ensures var t, t', k := old(db.tables), db.tables, Key(chat, user);
              && OnlyMemberChanged(t, t', k) && k !in t'.members
              && err == if k in t.members then None else Some(MemberMissing)
    {
      var t, k := db.tables, Key(chat, user);
      ApplyKeepsWellFormed(t, Change.RemoveMember(chat, user));
      var affected := if k in t.members then 1 else 0;
      db.tables := t.(members := t.members - {k});
      assert affected == 0 ==> t.members - {k} == t.members;
      err := if affected == 0 then Some(MemberMissing) else None;
    }

    /** Memberships.MarkRead with nothing in between the statements. */
    method MarkRead(chat: ChatId, user: UserId, id: MessageId) returns (r: Memberships.MarkResult)
      requires db.Valid()
      modifies db`tables
      ensures db.Valid()
      ensures db.tables == Apply(old(db.tables), AdvanceRead(chat, user, id))
      ensures r == Memberships.MarkRead(old(db.tables), db.tables, db.tables, chat, user, id)
      ensures var t, t', k := old(db.tables), db.tables, Key(chat, user);
              && OnlyMemberChanged(t, t', k) && (r.MemberNotFound? <==> k !in t.members)
              && (r.MessageNotFound? <==> k in t.members && !(id in t.messages && t.messages[id].chat == chat))
              && (r.Position? ==>
                    && k in t'.members && t'.members[k] == t.members[k].(lastRead := Some(r.id)) && r.id >= id
                    && (r.advanced <==> t' != t)
                    && if r.advanced then r.id == id else t.members[k].lastRead == Some(r.id))
    {
      var t, k := db.tables, Key(chat, user);
      Memberships.MarkReadMeans(t, Apply(t, AdvanceRead(chat, user, id)), Apply(t, AdvanceRead(chat, user, id)), chat, user, id);
      assert k in t.members ==> WellFormedMember(t, k);
      ApplyKeepsWellFormed(t, AdvanceRead(chat, user, id));
      if k in t.members && Existing(t, chat, id) && Before(t.members[k].lastRead, id) {
        db.tables := t.(members := t.members[k := t.members[k].(lastRead := Some(id))]);
        return Memberships.Position(id, true);
      }
      if k !in t.members {
        return Memberships.MemberNotFound;
      }
      var read := t.members[k].lastRead;
      if id !in t.messages || t.messages[id].chat != chat {
        return Memberships.MessageNotFound;
      }
      r := if read.None? then Memberships.MessageNotFound else Memberships.Position(read.value, false);
    }

    /** The resulting setting with its version, and whether the call changed it. */
    method SetMute(chat: ChatId, user: UserId, muted: bool) returns (r: Result<(bool, nat)>, changed: bool)
      requires db.Valid()
      modifies db`tables
      ensures db.Valid()
      ensures var t, c, k := old(db.tables), Change.SetMute(chat, user, muted), Key(chat, user);
              && db.tables == Apply(t, c) && (changed <==> Effective(t, c))
              && r == if k in t.members then Ok((muted, db.tables.members[k].muteVersion)) else Err(MemberMissing)
      ensures var t, t', k := old(db.tables), db.tables, Key(chat, user);
              && OnlyMemberChanged(t, t', k)
              && (k in t.members ==>
                    && k in t'.members && (changed <==> t.members[k].muted != muted)
                    && t'.members[k] == t.members[k].(muted := muted, muteVersion := t.members[k].muteVersion + if changed then 1 else 0))
              && (k !in t.members ==> t' == t && !changed)
    {
      var t, k := db.tables, Key(chat, user);
      ApplyKeepsWellFormed(t, Change.SetMute(chat, user, muted));
      if k !in t.members {
        return Err(MemberMissing), false;
      }
      var m := t.members[k];
      changed := m.muted != muted;
      if changed {
        m := m.(muted := muted, muteVersion := m.muteVersion + 1);
        db.tables := t.(members := t.members[k := m]);
      }
      r := Ok((m.muted, m.muteVersion));
    }
  }

  /**
   What SetReaction does: the row named is there or not, as wanted, and no other row moves; if
   that changed something the version goes up by one; nothing else is different.
   */
  ghost predicate ReactionSet(
    t: Tables, t': Tables, user: UserId, id: MessageId, reaction: Reaction, add: bool, changed: bool)
  {
    && id in t.messages && id in t.reactions && id in t'.messages && id in t'.reactions && OnlyMessageChanged(t, t', id)
    && OneRowSet(t.reactions[id], t'.reactions[id], user, reaction, add)
    && (changed <==> t'.reactions[id] != t.reactions[id])
    && t'.messages[id] == t.messages[id].(version := t.messages[id].version + if changed then 1 else 0)
  }

  lemma SettingReaction(t: Tables, chat: ChatId, user: UserId, id: MessageId, reaction: Reaction, add: bool)
    requires WellFormed(t) && Live(t, chat, id)
    ensures id in t.reactions
    ensures var c, changed := Change.SetReaction(chat, user, id, reaction, add), add != ((user, reaction) in t.reactions[id]);
            && (Effective(t, c) <==> changed) && ReactionSet(t, Apply(t, c), user, id, reaction, add, changed)
  {
    assert WellFormedReactions(t, id);
    var rows := t.reactions[id];
    var rows' := WithReaction(rows, user, reaction, add);
    SettingOneRow(rows, user, reaction, add);
    ToggleApplied(t, chat, user, id, reaction, add);
    if rows' != rows {
      var row := t.messages[id];
      assert Apply(t, Change.SetReaction(chat, user, id, reaction, add))
          == t.(messages := t.messages[id := row.(version := row.version + 1)], reactions := t.reactions[id := rows']);
    }
  }

  class MessageRepository {
    const db: Database

    constructor (db: Database)
      ensures this.db == db
    {
      this.db := db;
    }

    /** `skipped` identity values were used up by inserts that did not commit. */
    method Create(skipped: nat, chat: ChatId, sender: UserId, content: string, replyTo: Option<MessageId>) returns (r: Result<Row>)
      requires db.Valid()
      modifies db`tables
      ensures db.Valid()
      ensures var t, id := old(db.tables), old(db.tables).nextId + skipped;
              var c := Change.Create(id, chat, sender, content, replyTo);
              && (r.Ok? <==> Effective(t, c) && sender in db.users)
              && (r == Err(MessageMissing) <==> replyTo.Some? && !Live(t, chat, replyTo.value))
              && (r.Err? ==> db.tables == t)
              && (r.Ok? ==>
                    && db.tables == Apply(t, c) && id !in t.messages
                    && r.value.id == id && r.value.report == Report(0, [])
                    && r.value.message == Message(chat, sender, content, None, None, replyTo, 0)
                    && (r.value.replyTo.Some? <==> replyTo.Some?)
                    && (replyTo.Some? ==> r.value.replyTo.value.text == TextOf(t.messages[replyTo.value])))
      ensures var t, t', id := old(db.tables), db.tables, old(db.tables).nextId + skipped;
              && (r.Ok? <==> && chat in t.chats && sender in db.users
                             && (replyTo.Some? ==> && replyTo.value in t.messages && t.messages[replyTo.value].chat == chat
                                                   && t.messages[replyTo.value].deletedAt.None?))
              && (r.Ok? ==>
                    && t'.nextId == id + 1 && OnlyMessageChanged(t.(nextId := id + 1), t', id)
                    && id in t'.messages && t'.messages[id] == Message(chat, sender, content, None, None, replyTo, 0)
                    && id in t'.reactions && t'.reactions[id] == {}
                    && (replyTo.Some? ==>
                          var p := t.messages[replyTo.value];
                          r.value.replyTo == Some(Preview(replyTo.value, p.sender, Text(p.content, p.editedAt, None)))))
    {
      var t, id := db.tables, db.tables.nextId + skipped;
      if replyTo.Some? && !(replyTo.value in t.messages && t.messages[replyTo.value].chat == chat
                            && t.messages[replyTo.value].deletedAt.None?) {
        return Err(MessageMissing);
      }
      if chat !in t.chats || sender !in db.users {
        return Err(Rejected);
      }
      ApplyKeepsWellFormed(t, Change.Create(id, chat, sender, content, replyTo));
      assert id in t.messages ==> WellFormedMessage(t, id);
      db.tables := t.(messages := t.messages[id := Message(chat, sender, content, None, None, replyTo, 0)],
                      reactions := t.reactions[id := {}], nextId := id + 1);
      assert db.tables == Apply(t, Change.Create(id, chat, sender, content, replyTo));
      EmptyGroup();
      r := Ok(RowOf(db.tables, id));
    }

    method Edit(chat: ChatId, sender: UserId, id: MessageId, content: string, at: int) returns (r: Result<Row>)
      requires db.Valid()
      modifies db`tables
      ensures db.Valid()
      ensures var t, c := old(db.tables), Change.Edit(chat, sender, id, content, at);
              && db.tables == Apply(t, c) && (r.Ok? <==> Effective(t, c)) && (r.Err? ==> r.error == MessageMissing)
              && (r.Ok? ==>
                    && r.value.message == t.messages[id].(content := content, editedAt := Some(at))
                    && id in t.reactions && r.value.report == ReportOf(t, id) && r.value.replyTo == PreviewOf(t, id))
      ensures var t, t' := old(db.tables), db.tables;
              && (r.Ok? <==> && id in t.messages && t.messages[id].chat == chat && t.messages[id].sender == sender
                             && t.messages[id].deletedAt.None?)
              && (r.Err? ==> t' == t)
              && (r.Ok? ==>
                    && OnlyMessageChanged(t, t', id) && id in t'.messages && t'.reactions == t.reactions && r.value.id == id
                    && t'.messages[id] == r.value.message == t.messages[id].(content := content, editedAt := Some(at)))
    {
      var t := db.tables;
      ApplyKeepsWellFormed(t, Change.Edit(chat, sender, id, content, at));
      if !(id in t.messages && t.messages[id].chat == chat && t.messages[id].sender == sender
           && t.messages[id].deletedAt.None?) {
        return Err(MessageMissing);
      }
      assert WellFormedReactions(t, id) && WellFormedMessage(t, id);
      db.tables := t.(messages := t.messages[id := t.messages[id].(content := content, editedAt := Some(at))]);
      assert db.tables == Apply(t, Change.Edit(chat, sender, id, content, at));
      r := Ok(RowOf(db.tables, id));
    }

    /** Blank the row, then drop its reactions, in one transaction. */
    method Delete(chat: ChatId, sender: UserId, id: MessageId, at: int) returns (r: Result<Row>)
      requires db.Valid()
      modifies db`tables
      ensures db.Valid()
      ensures var t, c := old(db.tables), Change.Delete(chat, sender, id, at);
              && db.tables == Apply(t, c) && (r.Ok? <==> Effective(t, c)) && (r.Err? ==> r.error == MessageMissing)
              && (r.Ok? ==>
                    && r.value.message.content == "" && r.value.message.Deleted()
                    && r.value.report == Report(t.messages[id].version + 1, [])
                    && r.value.replyTo == PreviewOf(t, id))
      ensures var t, t' := old(db.tables), db.tables;
              && (r.Ok? <==> && id in t.messages && t.messages[id].chat == chat && t.messages[id].sender == sender
                             && t.messages[id].deletedAt.None?)
              && (r.Err? ==> t' == t)
              && (r.Ok? ==>
                    && OnlyMessageChanged(t, t', id) && r.value.id == id
                    && id in t'.messages && id in t'.reactions && t'.reactions[id] == {}
                    && t'.messages[id] == r.value.message
                    && t'.messages[id] == t.messages[id].(content := "", deletedAt := Some(at), version := t.messages[id].version + 1))
    {
      var tx := db.tables;
      ApplyKeepsWellFormed(tx, Change.Delete(chat, sender, id, at));
      if !(id in tx.messages && tx.messages[id].chat == chat && tx.messages[id].sender == sender
           && tx.messages[id].deletedAt.None?) {
        return Err(MessageMissing);
      }
      assert WellFormedReactions(tx, id) && WellFormedMessage(tx, id);
      var row := tx.messages[id];
      row := row.(content := "", deletedAt := Some(at), version := row.version + 1);
      tx := tx.(messages := tx.messages[id := row]);
      r := Ok(RowOf(tx, id));
      tx := tx.(reactions := tx.reactions[id := {}]);
      db.tables := tx;
    }

    /** Lock, write the row, advance the version if a row changed, read back, commit. */
    method SetReaction(chat: ChatId, user: UserId, id: MessageId, reaction: Reaction, add: bool)
      returns (r: Result<Report>, changed: bool)
      requires db.Valid()
      modifies db`tables
      ensures db.Valid()
      ensures var t, c := old(db.tables), Change.SetReaction(chat, user, id, reaction, add);
              && (r.Ok? <==> Live(t, chat, id) && (add ==> user in db.users)) && (changed <==> r.Ok? && Effective(t, c))
              && db.tables == (if r.Ok? then Apply(t, c) else t)
              && (r.Ok? ==> id in db.tables.messages && id in db.tables.reactions && r.value == ReportOf(db.tables, id)
                            && (((user, reaction) in db.tables.reactions[id]) <==> add))
      ensures var t, t' := old(db.tables), db.tables;
              && (r.Ok? <==> && id in t.messages && t.messages[id].chat == chat && t.messages[id].deletedAt.None?
                             && (add ==> user in db.users))
              && (r.Err? ==> t' == t && !changed)
              && (r.Ok? ==>
                    && ReactionSet(t, t', user, id, reaction, add, changed)
                    && r.value == Report(t'.messages[id].version, Group(t'.reactions[id])))
    {
      var tx := db.tables;
      if !(id in tx.messages && tx.messages[id].chat == chat && tx.messages[id].deletedAt.None?) {
        return Err(MessageMissing), false;
      }
      if add && user !in db.users {
        return Err(Rejected), false;
      }
      assert WellFormedReactions(tx, id);
      ApplyKeepsWellFormed(tx, Change.SetReaction(chat, user, id, reaction, add));
      ToggleApplied(tx, chat, user, id, reaction, add);
      SettingReaction(tx, chat, user, id, reaction, add);
      var rows := tx.reactions[id];
      changed := add != ((user, reaction) in rows);
      rows := if add then rows + {(user, reaction)} else rows - {(user, reaction)};
      if changed {
        tx := tx.(reactions := tx.reactions[id := rows]);
        tx := tx.(messages := tx.messages[id := tx.messages[id].(version := tx.messages[id].version + 1)]);
      }
      assert tx == Apply(db.tables, Change.SetReaction(chat, user, id, reaction, add));
      r := Ok(ReportOf(tx, id));
      db.tables := tx;
    }

    /**
     Scan the rows the query returns: the newest of the chat's messages below the cursor, as
     many as asked for or all there are, newest first, each as the tables have it.
     */
    method ListBefore(chat: ChatId, before: Option<int>, limit: nat) returns (rows: seq<Row>)
      requires db.Valid()
      ensures HistoryPages.IsPage(IdsOf(rows), HistoryPages.IdsBelow(db.tables, chat, before), limit)
      ensures forall i | 0 <= i < |rows| :: IsRow(db.tables, chat, rows[i])
    {
      var t := db.tables;
      var cursor := HistoryPages.Newest(HistoryPages.IdsBelow(t, chat, before), limit);
      NewestAreRows(t, chat, before, limit, cursor);
      HistoryPages.NewestIsPage(HistoryPages.IdsBelow(t, chat, before), limit);
      rows := [];
      for i := 0 to |cursor|
        invariant |rows| == i && forall k | 0 <= k < i :: IsRow(t, chat, rows[k]) && rows[k].id == cursor[k]
      {
        rows := rows + [RowOf(t, cursor[i])];
        assert IsRow(t, chat, rows[i]);
      }
      assert IdsOf(rows) == cursor;
    }

    /** A page of at most `size` rows and the cursor to the next one, from one row more. */
    method FetchPage(chat: ChatId, before: Option<int>, size: nat) returns (rows: seq<Row>, next: Option<MessageId>)
      requires db.Valid() && size > 0
      ensures var below := HistoryPages.IdsBelow(db.tables, chat, before);
              HistoryPages.RightPage(HistoryPages.Page(IdsOf(rows), next), below, size)
      ensures forall i | 0 <= i < |rows| :: IsRow(db.tables, chat, rows[i])
    {
      rows := ListBefore(chat, before, size + 1);
      next := None;
      ghost var below, found := HistoryPages.IdsBelow(db.tables, chat, before), IdsOf(rows);
      if |rows| > size {
        IdsOfPrefix(rows, size);
        rows := rows[..size];
        next := Some(rows[size - 1].id);
      }
      HistoryPages.CutPage(found, IdsOf(rows), below, size);
    }

    /**
     Validate, check access, fetch a page: the newest messages below the cursor, with a next
     cursor, the last id of the page, exactly if there is an older message. That is what
     HistoryPages.History says, for a call on its own.
     */
    method History(viewer: UserId, chat: ChatId, before: Option<int>, limit: int)
      returns (page: HistoryPages.PageResult, rows: seq<Row>)
      requires db.Valid()
      ensures page == HistoryPages.History(HistoryPages.Fetch(db.tables, db.tables), viewer, chat, before, limit)
      ensures page.Page? <==> limit > 0 && (before.Some? ==> before.value > 0) && Key(chat, viewer) in db.tables.members
      ensures forall i | 0 <= i < |rows| :: IsRow(db.tables, chat, rows[i])
      ensures page.Page? ==>
                && page.ids == IdsOf(rows)
                && HistoryPages.RightPage(page, HistoryPages.IdsBelow(db.tables, chat, before), if limit <= 100 then limit else 100)
      ensures page == HistoryPages.InvalidLimit <==> limit <= 0
      ensures page == HistoryPages.InvalidCursor <==> limit > 0 && before.Some? && before.value <= 0
    {
      rows := [];
      if limit <= 0 {
        return HistoryPages.InvalidLimit, [];
      }
      var size := if limit > 100 then 100 else limit;
      if before.Some? && before.value <= 0 {
        return HistoryPages.InvalidCursor, [];
      }
      if Key(chat, viewer) !in db.tables.members {
        return HistoryPages.ChatNotFound, [];
      }
      var next;
      rows, next := FetchPage(chat, before, size);
      page := HistoryPages.Page(IdsOf(rows), next);
      HistoryPages.HistoryIsRightPage(HistoryPages.Fetch(db.tables, db.tables), viewer, chat, before, limit, page);
    }
  }

  lemma NewestAreRows(t: Tables, chat: ChatId, before: Option<int>, limit: nat, ids: seq<MessageId>)
    requires WellFormed(t) && ids == HistoryPages.Newest(HistoryPages.IdsBelow(t, chat, before), limit)
    ensures forall i | 0 <= i < |ids| :: Existing(t, chat, ids[i]) && ids[i] in t.reactions
  {
    var s := HistoryPages.IdsBelow(t, chat, before);
    HistoryPages.DescendingMembers(s);
    forall i | 0 <= i < |ids|
      ensures Existing(t, chat, ids[i]) && ids[i] in t.reactions
    {
      assert ids[i] in HistoryPages.Descending(s);
      assert WellFormedReactions(t, ids[i]);
    }
  }

  class ChatService {
    const repo: ChatRepository

    constructor (repo: ChatRepository)
      ensures this.repo == repo
    {
      this.repo := repo;
    }

    /**
     Drop repetitions and the creator from the list, check that everyone exists, create the
     group. What is left never repeats a member, so only an unknown user can fail the call.
     */
    method CreateGroupChat(newId: ChatId, creator: UserId, ids: seq<UserId>) returns (r: Result<Chat>)
      requires repo.db.Valid()
      modifies repo.db`tables
      ensures repo.db.Valid()
      ensures r.Ok? <==> newId !in old(repo.db.tables).chats && SetOf(ids) + {creator} <= repo.db.users
      ensures r == Err(UserMissing) <==> !(SetOf(ids) - {creator} <= repo.db.users)
      ensures r.Ok? ==> repo.db.tables == Apply(old(repo.db.tables), Change.CreateGroup(newId, creator, SetOf(ids) - {creator}))
      ensures r.Ok? ==> forall u: UserId, t' | t' == repo.db.tables ::
                (Key(newId, u) in t'.members <==> u == creator || u in ids)
                && (Key(newId, u) in t'.members ==> (t'.members[Key(newId, u)].role.Admin? <==> u == creator))
      ensures r.Err? ==> repo.db.tables == old(repo.db.tables)
    {
      var memberIds, seen := [], {creator};
      for i := 0 to |ids|
        invariant memberIds == Firsts(ids[..i], {creator})
        invariant forall u :: u in seen <==> u == creator || u in memberIds
        invariant repo.db.tables == old(repo.db.tables)
      {
        var id := ids[i];
        assert ids[..i + 1] == ids[..i] + [id];
        FirstsAppend(ids[..i], id, {creator});
        if id !in seen {
          seen, memberIds := seen + {id}, memberIds + [id];
        }
      }
      assert ids[..|ids|] == ids;
      FirstsKeepAll(ids, {creator});
      assert SetOf(memberIds) == SetOf(ids) - {creator};
      for i := 0 to |memberIds|
        invariant forall k | 0 <= k < i :: memberIds[k] in repo.db.users
        invariant repo.db.tables == old(repo.db.tables)
      {
        if memberIds[i] !in repo.db.users {
          assert memberIds[i] in SetOf(memberIds);
          return Err(UserMissing);
        }
      }
      NoNewId(repo.db.tables, newId);
      r := repo.CreateGroup(newId, creator, memberIds);
    }
  }
}
