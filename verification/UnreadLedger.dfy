/**
 The chat list recounts each member's unread messages with one query. Here the query is
 compared with a running ledger that is only ever adjusted by what each change did.
 */
module UnreadLedger {
  import opened Tables

  /** The join condition of the chat list: a live message by someone else, past the read cursor. */
  predicate CountsAsUnread(t: Tables, k: Key, id: MessageId)
    requires k in t.members
  {
    Live(t, k.chat, id) && t.messages[id].sender != k.user && Before(t.members[k].lastRead, id)
  }

  function UnreadIds(t: Tables, k: Key): set<MessageId>
    requires k in t.members
  {
    set id | id in t.messages && CountsAsUnread(t, k, id)
  }

  /** unread_count of the chat list. */
  function UnreadCount(t: Tables, k: Key): nat
    requires k in t.members
  {
    |UnreadIds(t, k)|
  }

  type Ledger = map<Key, int>

  /** What one change adds to the entry of someone who stays a member, told from the tables before it. */
  function Delta(t: Tables, c: Change, k: Key): int
    requires k in t.members
  {
    if !Effective(t, c) then 0
    else if c.Create? && k.chat == c.chat && k.user != c.sender then 1
    else if c.Delete? && CountsAsUnread(t, k, c.id) then -1
    else if c.AdvanceRead? && k == Key(c.chat, c.user) then -|set x | x in UnreadIds(t, k) && x <= c.id|
    else 0
  }

  /** Whoever joins or rejoins starts at 0; whoever stays gets the change's delta. */
  function Post(t: Tables, c: Change, l: Ledger): (l': Ledger)
    requires l.Keys == t.members.Keys
    ensures l'.Keys == Apply(t, c).members.Keys
  {
    map k | k in Apply(t, c).members :: if k in t.members then l[k] + Delta(t, c, k) else 0
  }

  /** The ledger kept over the first `n` changes of a run. */
  function LedgerAfter(ts: seq<Tables>, cs: seq<Change>, n: nat): (l: Ledger)
    requires n < |ts| && n <= |cs|
    requires ts[0] == EMPTY && forall i | 0 <= i < n :: StepAt(ts, cs, i)
    ensures l.Keys == ts[n].members.Keys
  {
    if n == 0 then map[]
    else
      assert StepAt(ts, cs, n - 1);
      Post(ts[n - 1], cs[n - 1], LedgerAfter(ts, cs, n - 1))
  }

  /** A change that is not about memberships moves a member's unread set like this. */
  function MovedIds(t: Tables, c: Change, k: Key): set<MessageId>
    requires k in t.members
  {
    var ids := UnreadIds(t, k);
    if !Effective(t, c) then ids
    else if c.AdvanceRead? && k == Key(c.chat, c.user) then set x | x in ids && x > c.id
    else if c.Create? && k.chat == c.chat && k.user != c.sender then ids + {c.id}
    else if c.Delete? then ids - {c.id}
    else ids
  }

  /** One message, and each kind of change that can concern it. */
  lemma MarkedOne(t: Tables, c: Change, k: Key, id: MessageId)
    requires k in t.members && c.AdvanceRead?
    ensures k in Apply(t, c).members
    ensures id in Apply(t, c).messages && CountsAsUnread(Apply(t, c), k, id) <==> id in MovedIds(t, c, k)
  {
    assert id in UnreadIds(t, k) <==> id in t.messages && CountsAsUnread(t, k, id);
  }

  lemma CreatedOne(t: Tables, c: Change, k: Key, id: MessageId)
    requires WellFormed(t) && k in t.members && c.Create?
    ensures k in Apply(t, c).members
    ensures id in Apply(t, c).messages && CountsAsUnread(Apply(t, c), k, id) <==> id in MovedIds(t, c, k)
  {
    assert WellFormedMember(t, k);
    assert c.id in t.messages ==> WellFormedMessage(t, c.id);
    assert t.members[k].lastRead.Some? ==> WellFormedMessage(t, t.members[k].lastRead.value);
    assert id in UnreadIds(t, k) <==> id in t.messages && CountsAsUnread(t, k, id);
  }

  lemma MovedOne(t: Tables, c: Change, k: Key, id: MessageId)
    requires k in t.members && k in Apply(t, c).members && !c.AdvanceRead? && !c.Create?
    requires WellFormedMember(t, k)
    ensures id in Apply(t, c).messages && CountsAsUnread(Apply(t, c), k, id) <==> id in MovedIds(t, c, k)
  {
    assert id in UnreadIds(t, k) <==> id in t.messages && CountsAsUnread(t, k, id);
  }

  lemma StayingMember(t: Tables, c: Change, k: Key)
    requires WellFormed(t) && k in t.members && k in Apply(t, c).members
    ensures UnreadIds(Apply(t, c), k) == MovedIds(t, c, k)
  {
    forall id: MessageId
      ensures id in UnreadIds(Apply(t, c), k) <==> id in MovedIds(t, c, k)
    {
      if c.AdvanceRead? {
        MarkedOne(t, c, k, id);
      } else if c.Create? {
        CreatedOne(t, c, k, id);
      } else {
        MovedOne(t, c, k, id);
      }
    }
  }

  lemma SplitAt(ids: set<MessageId>, id: MessageId)
    ensures |set x | x in ids && x > id| == |ids| - |set x | x in ids && x <= id|
  {
    var read, left := set x | x in ids && x <= id, set x | x in ids && x > id;
    assert ids == read + left && read !! left;
  }

  lemma MovedCount(t: Tables, c: Change, k: Key)
    requires WellFormed(t) && k in t.members
    ensures |MovedIds(t, c, k)| == |UnreadIds(t, k)| + Delta(t, c, k)
  {
    if c.AdvanceRead? {
      SplitAt(UnreadIds(t, k), c.id);
    } else if c.Create? {
      assert c.id in t.messages ==> WellFormedMessage(t, c.id);
    }
  }

  /**
   How one change moves the count of someone who stays a member: up by one for somebody else's
   new message in the chat, down by one for the deletion of somebody else's message past the
   cursor, down to what lies after the mark for a mark of one's own, and not otherwise.
   */
  lemma CountMoves(t: Tables, c: Change, k: Key)
    requires WellFormed(t) && k in t.members && k in Apply(t, c).members
    ensures c.Create? && Apply(t, c) != t ==>
              UnreadCount(Apply(t, c), k) == UnreadCount(t, k) + if c.chat == k.chat && c.sender != k.user then 1 else 0
    ensures c.Delete? && Apply(t, c) != t ==>
              c.id in t.messages && UnreadCount(Apply(t, c), k) == UnreadCount(t, k) -
                if && t.messages[c.id].chat == k.chat && t.messages[c.id].sender != k.user
                   && (t.members[k].lastRead.None? || t.members[k].lastRead.value < c.id)
                then 1 else 0
    ensures c.AdvanceRead? && Apply(t, c) != t && c.chat == k.chat && c.user == k.user ==>
              forall x :: x in UnreadIds(Apply(t, c), k) <==> x in UnreadIds(t, k) && x > c.id
    ensures Apply(t, c) == t || !(c.Create? || c.Delete? || (c.AdvanceRead? && c.chat == k.chat && c.user == k.user)) ==>
              UnreadIds(Apply(t, c), k) == UnreadIds(t, k)
  {
    StayingMember(t, c, k);
    MovedCount(t, c, k);
  }

  lemma NewMember(t: Tables, c: Change, k: Key)
    requires WellFormed(t) && k !in t.members && k in Apply(t, c).members
    ensures UnreadIds(Apply(t, c), k) == {}
  {
    var t' := Apply(t, c);
    forall id | id in t'.messages
      ensures !CountsAsUnread(t', k, id)
    {
      assert WellFormedMessage(t, id);
      if c.AddMember? && t.messages[id].chat == k.chat {
        assert Existing(t, k.chat, id);
      }
    }
  }

  /** Over every run from an empty database, the ledger and the query agree for every member. */
  lemma {:induction false} LedgerEqualsQuery(ts: seq<Tables>, cs: seq<Change>, n: nat)
    requires IsRun(ts, cs) && ts[0] == EMPTY && n <= |cs|
    ensures forall k | k in ts[n].members :: LedgerAfter(ts, cs, n)[k] == UnreadCount(ts[n], k)
  {
    if n > 0 {
      LedgerEqualsQuery(ts, cs, n - 1);
      RunIsWellFormed(ts, cs, n - 1);
      assert StepAt(ts, cs, n - 1);
      var t, c := ts[n - 1], cs[n - 1];
      forall k | k in ts[n].members
        ensures LedgerAfter(ts, cs, n)[k] == UnreadCount(ts[n], k)
      {
        if k in t.members {
          StayingMember(t, c, k);
          MovedCount(t, c, k);
        } else {
          NewMember(t, c, k);
        }
      }
    }
  }
}
