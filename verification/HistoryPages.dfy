/**
 Message history by cursor pagination, and what a client sees that follows next_cursor to
 the end while other users keep changing the chat.
 */
module HistoryPages {
  import opened Options
  import opened Tables
  import MessageRuns

  const MAX_PAGE := 100

  datatype PageResult =
    | Page(ids: seq<MessageId>, next: Option<MessageId>)
    | InvalidLimit
    | InvalidCursor
    | ChatNotFound

  /** What the page query selects from: the chat's messages, below the cursor if there is one. */
  function IdsBelow(t: Tables, chat: ChatId, before: Option<int>): set<MessageId> {
    set id | id in t.messages && t.messages[id].chat == chat && (before.None? || id < before.value)
  }

  /** The newest first. */
  function Descending(s: set<nat>): (r: seq<nat>)
    ensures |r| == |s|
    decreases |s|
  {
    match MaxOf(s)
    case None => []
    case Some(m) => [m] + Descending(s - {m})
  }

  /** At most so many. */
  function Limit(r: seq<nat>, k: nat): seq<nat> {
    if k <= |r| then r[..k] else r
  }

  function Newest(s: set<nat>, k: nat): seq<nat> {
    Limit(Descending(s), k)
  }

  function PageSize(limit: int): int {
    if limit > MAX_PAGE then MAX_PAGE else limit
  }

  /** The tables as the two statements of a History call find them. */
  datatype Fetch = Fetch(access: Tables, rows: Tables)

  /** History: validate, check access, fetch one row more than a page to learn whether there is a next one. */
  function History(f: Fetch, viewer: UserId, chat: ChatId, before: Option<int>, limit: int): PageResult {
    if limit <= 0 then InvalidLimit
    else if before.Some? && before.value <= 0 then InvalidCursor
    else if Key(chat, viewer) !in f.access.members then ChatNotFound
    else
      var size := PageSize(limit);
      var rows := Newest(IdsBelow(f.rows, chat, before), size + 1);
      if |rows| > size then Page(rows[..size], Some(rows[size - 1])) else Page(rows, None)
  }

  datatype Walked = Walked(ids: seq<MessageId>, finished: bool)

  /** Fetch one page after the other, each time below the cursor the last page gave. */
  function Walk(fetches: seq<Fetch>, viewer: UserId, chat: ChatId, before: Option<int>, limit: int): Walked {
    if fetches == [] then Walked([], false)
    else
      match History(fetches[0], viewer, chat, before, limit)
      case Page(ids, None) => Walked(ids, true)
      case Page(ids, Some(cursor)) =>
        var rest := Walk(fetches[1..], viewer, chat, Some(cursor), limit);
        Walked(ids + rest.ids, rest.finished)
      case _ => Walked([], false)
  }

  // ---- Newest ----

  ghost predicate StrictlyDescending(r: seq<nat>) {
    forall i, j | 0 <= i < j < |r| :: r[i] > r[j]
  }

  lemma {:induction false} DescendingMembers(s: set<nat>)
    ensures forall x :: x in Descending(s) <==> x in s
    decreases |s|
  {
    if s != {} {
      var m := MaxOf(s).value;
      DescendingMembers(s - {m});
      assert forall x :: x in s <==> x == m || x in s - {m};
    }
  }

  lemma {:induction false} DescendingDescends(s: set<nat>)
    ensures StrictlyDescending(Descending(s))
    decreases |s|
  {
    if s != {} {
      var m := MaxOf(s).value;
      var rest := Descending(s - {m});
      DescendingDescends(s - {m});
      DescendingMembers(s - {m});
      forall i | 0 <= i < |rest|
        ensures rest[i] < m
      {
        assert rest[i] in s - {m};
      }
    }
  }

  lemma NewestDescends(s: set<nat>, k: nat)
    ensures StrictlyDescending(Newest(s, k))
    ensures k >= |s| ==> forall x :: x in Newest(s, k) <==> x in s
  {
    DescendingMembers(s);
    DescendingDescends(s);
  }

  /** The `k` largest of `s`, largest first, said without computing them. */
  ghost predicate IsPage(r: seq<nat>, s: set<nat>, k: nat) {
    && StrictlyDescending(r) && (forall x | x in r :: x in s)
    && |r| == (if k <= |s| then k else |s|)
    && (forall x, y | x in s && x !in r && y in r :: x < y)
  }

  lemma {:induction false} NewestIsPage(s: set<nat>, k: nat)
    ensures IsPage(Newest(s, k), s, k)
    decreases k
  {
    DescendingMembers(s);
    DescendingDescends(s);
    var all, r := Descending(s), Newest(s, k);
    forall x, y | x in s && x !in r && y in r
      ensures x < y
    {
      var i :| 0 <= i < |all| && all[i] == x;
      var j :| 0 <= j < |r| && r[j] == y;
      assert j < i;
    }
  }

  lemma PageStartsWithMax(r: seq<nat>, s: set<nat>, k: nat, m: nat)
    requires IsPage(r, s, k) && k > 0 && IsMax(m, s)
    ensures r != [] && r[0] == m
  {
    assert r[0] in r;
    assert m in r;
  }

  lemma RestOfPage(r: seq<nat>, s: set<nat>, k: nat, m: nat)
    requires IsPage(r, s, k) && k > 0 && IsMax(m, s)
    ensures IsPage(r[1..], s - {m}, k - 1) && r == [m] + r[1..]
  {
    PageStartsWithMax(r, s, k, m);
    var rest := r[1..];
    assert r == [m] + rest;
    assert forall x :: x in r <==> x == m || x in rest;
    assert forall i | 0 <= i < |rest| :: rest[i] == r[i + 1] && rest[i] < m;
    assert |s - {m}| == |s| - 1;
  }

  /** There is only one such list. */
  lemma {:induction false} PageIsUnique(r: seq<nat>, s: set<nat>, k: nat)
    requires IsPage(r, s, k)
    ensures r == Newest(s, k)
    decreases k
  {
    match MaxOf(s)
    case None =>
      assert |s| == 0;
    case Some(m) =>
      if k > 0 {
        RestOfPage(r, s, k, m);
        PageIsUnique(r[1..], s - {m}, k - 1);
        assert Descending(s) == [m] + Descending(s - {m});
      }
  }

  /** One row more than a page tells whether there is a next one. */
  lemma CutPage(found: seq<nat>, cut: seq<nat>, s: set<nat>, size: nat)
    requires IsPage(found, s, size + 1) && cut == if |found| > size then found[..size] else found
    ensures found == Newest(s, size + 1) && IsPage(cut, s, size) && (|found| > size <==> |s| > size)
  {
    PageIsUnique(found, s, size + 1);
    NewestIsPage(s, size);
    assert cut == Newest(s, size);
  }

  function Under(s: set<nat>, c: nat): set<nat> {
    set x | x in s && x < c
  }

  /** After its first k, a descending list goes on with what lies below the last of them. */
  lemma {:induction false} DescendingSplit(s: set<nat>, k: nat)
    requires 0 < k < |s|
    ensures Descending(s)[k - 1] in s
    ensures Descending(s)[k..] == Descending(Under(s, Descending(s)[k - 1]))
    decreases k
  {
    var max := MaxOf(s).value;
    var rest := s - {max};
    if k == 1 {
      assert Under(s, max) == rest;
    } else {
      DescendingSplit(rest, k - 1);
      var c := Descending(rest)[k - 2];
      assert Descending(s)[k - 1] == c && Descending(s)[k..] == Descending(rest)[k - 1..];
      assert Under(s, c) == Under(rest, c);
    }
  }

  /** The k newest, then the m newest among those below the last of them. */
  lemma NewestSplit(s: set<nat>, k: nat, m: nat)
    requires 0 < k < |s|
    ensures var c := Newest(s, k)[k - 1];
            c in s && Newest(s, k + m) == Newest(s, k) + Newest(Under(s, c), m) && |Under(s, c)| == |s| - k
  {
    DescendingSplit(s, k);
    SplitLimit(Descending(s), k, m);
  }

  lemma SplitLimit(r: seq<nat>, k: nat, m: nat)
    requires k < |r|
    ensures Limit(r, k + m) == Limit(r, k) + Limit(r[k..], m)
  {
  }

  // ---- The past below a cursor does not move ----

  lemma OldIdsStay(t: Tables, c: Change, chat: ChatId, cursor: MessageId)
    requires WellFormed(t) && cursor <= t.nextId
    ensures cursor <= Apply(t, c).nextId
    ensures IdsBelow(Apply(t, c), chat, Some(cursor)) == IdsBelow(t, chat, Some(cursor))
  {
    forall id | id in t.messages
      ensures id in Apply(t, c).messages && Apply(t, c).messages[id].chat == t.messages[id].chat
    {
      MessageRuns.RowAfter(t, c, id);
    }
  }

  lemma {:induction false} BelowIsStable(ts: seq<Tables>, cs: seq<Change>, i: nat, j: nat, chat: ChatId, cursor: MessageId)
    requires GoodRun(ts, cs) && i <= j <= |cs| && cursor <= ts[i].nextId
    ensures cursor <= ts[j].nextId
    ensures IdsBelow(ts[j], chat, Some(cursor)) == IdsBelow(ts[i], chat, Some(cursor))
  {
    if i < j {
      BelowIsStable(ts, cs, i, j - 1, chat, cursor);
      RunIsWellFormed(ts, cs, j - 1);
      OldIdsStay(ts[j - 1], cs[j - 1], chat, cursor);
      assert StepAt(ts, cs, j - 1);
    }
  }

  /** What `n` pages can hold. */
  function Capacity(n: nat, limit: int): (c: int)
    requires limit > 0
    ensures c >= 0
  {
    if n == 0 then 0 else PageSize(limit) + Capacity(n - 1, limit)
  }

  lemma {:induction false} CapacityIsProduct(n: nat, limit: int)
    requires limit > 0
    ensures Capacity(n, limit) == n * PageSize(limit)
  {
    if n > 0 {
      CapacityIsProduct(n - 1, limit);
    }
  }

  /** Calls during one run, in order, whose access checks all find the viewer a member. */
  ghost predicate Fetches(ts: seq<Tables>, cs: seq<Change>, at: seq<nat>, fetches: seq<Fetch>, viewer: UserId, chat: ChatId) {
    && GoodRun(ts, cs) && |at| == |fetches|
    && (forall n | 0 <= n < |at| :: at[n] <= |cs| && fetches[n].rows == ts[at[n]] && Key(chat, viewer) in fetches[n].access.members)
    && (forall m, n | 0 <= m <= n < |at| :: at[m] <= at[n])
  }

  /** Below an id one snapshot has, the next has the same ids. */
  ghost predicate SamePast(t: Tables, t': Tables, chat: ChatId) {
    forall id | id in t.messages && t.messages[id].chat == chat ::
      IdsBelow(t', chat, Some(id)) == IdsBelow(t, chat, Some(id))
  }

  ghost predicate Consistent(fetches: seq<Fetch>, viewer: UserId, chat: ChatId) {
    && (forall n | 0 <= n < |fetches| :: Key(chat, viewer) in fetches[n].access.members)
    && (forall n | 0 <= n && n + 1 < |fetches| :: SamePast(fetches[n].rows, fetches[n + 1].rows, chat))
  }

  lemma FetchesAreConsistent(
    ts: seq<Tables>, cs: seq<Change>, at: seq<nat>, fetches: seq<Fetch>, viewer: UserId, chat: ChatId)
    requires Fetches(ts, cs, at, fetches, viewer, chat)
    ensures Consistent(fetches, viewer, chat)
  {
    forall n | 0 <= n && n + 1 < |fetches|
      ensures SamePast(fetches[n].rows, fetches[n + 1].rows, chat)
    {
      RunIsWellFormed(ts, cs, at[n]);
      forall id | id in fetches[n].rows.messages && fetches[n].rows.messages[id].chat == chat
        ensures IdsBelow(fetches[n + 1].rows, chat, Some(id)) == IdsBelow(fetches[n].rows, chat, Some(id))
      {
        assert WellFormedMessage(fetches[n].rows, id);
        BelowIsStable(ts, cs, at[n], at[n + 1], chat, id);
      }
    }
  }

  lemma FirstPage(f: Fetch, viewer: UserId, chat: ChatId, before: Option<int>, limit: int)
    requires limit > 0 && (before.Some? ==> before.value > 0) && Key(chat, viewer) in f.access.members
    ensures var s, size := IdsBelow(f.rows, chat, before), PageSize(limit);
            History(f, viewer, chat, before, limit)
            == Page(Newest(s, size), if |s| <= size then None else Some(Newest(s, size)[size - 1]))
  {
    var s, size := IdsBelow(f.rows, chat, before), PageSize(limit);
    assert |s| > size ==> Newest(s, size + 1)[..size] == Newest(s, size);
  }

  lemma LastPage(fetches: seq<Fetch>, viewer: UserId, chat: ChatId, before: Option<int>, limit: int, s: set<nat>)
    requires fetches != [] && Key(chat, viewer) in fetches[0].access.members
    requires limit > 0 && (before.Some? ==> before.value > 0)
    requires s == IdsBelow(fetches[0].rows, chat, before) && |s| <= PageSize(limit)
    ensures Walk(fetches, viewer, chat, before, limit) == Walked(Newest(s, PageSize(limit)), true)
  {
    FirstPage(fetches[0], viewer, chat, before, limit);
  }

  lemma NewestLength(s: set<nat>, k: nat)
    ensures |Newest(s, k)| == if k <= |s| then k else |s|
  {
  }

  /** A page and its next cursor, said without computing them: there is a cursor exactly if there is more. */
  ghost predicate RightPage(p: PageResult, below: set<nat>, size: nat)
    requires p.Page?
  {
    && IsPage(p.ids, below, size) && (p.next.Some? <==> |below| > size)
    && (p.next.Some? ==> p.ids != [] && p.next.value == p.ids[|p.ids| - 1])
  }

  lemma HistoryIsRightPage(f: Fetch, viewer: UserId, chat: ChatId, before: Option<int>, limit: int, p: PageResult)
    requires limit > 0 && (before.Some? ==> before.value > 0) && Key(chat, viewer) in f.access.members
    requires p.Page? && RightPage(p, IdsBelow(f.rows, chat, before), PageSize(limit))
    ensures History(f, viewer, chat, before, limit) == p
  {
    var s, size := IdsBelow(f.rows, chat, before), PageSize(limit);
    FirstPage(f, viewer, chat, before, limit);
    PageIsUnique(p.ids, s, size);
    NewestLength(s, size);
  }

  /** A page has the smallest of the limit, 100, and what there is. */
  lemma PageLength(f: Fetch, viewer: UserId, chat: ChatId, before: Option<int>, limit: int)
    ensures var p, there := History(f, viewer, chat, before, limit), |IdsBelow(f.rows, chat, before)|;
            p.Page? ==>
              && limit > 0
              && |p.ids| == (if limit <= 100 && limit <= there then limit else if 100 <= there then 100 else there)
              && (p.next.Some? <==> |p.ids| < there)
  {
    var p := History(f, viewer, chat, before, limit);
    if p.Page? {
      FirstPage(f, viewer, chat, before, limit);
      NewestLength(IdsBelow(f.rows, chat, before), PageSize(limit));
    }
  }

  lemma MorePages(
    fetches: seq<Fetch>, viewer: UserId, chat: ChatId, before: Option<int>, limit: int, page: seq<MessageId>, cursor: MessageId)
    requires fetches != [] && History(fetches[0], viewer, chat, before, limit) == Page(page, Some(cursor))
    ensures var rest := Walk(fetches[1..], viewer, chat, Some(cursor), limit);
            Walk(fetches, viewer, chat, before, limit) == Walked(page + rest.ids, rest.finished)
  {
  }

  lemma OlderThanCursor(s: set<nat>, size: nat)
    requires 0 < size < |s|
    ensures Newest(s, size)[size - 1] > 0
  {
    NewestSplit(s, size, 0);
    var x :| x in Under(s, Newest(s, size)[size - 1]);
  }

  ghost predicate ReturnsNewest(w: Walked, s: set<nat>, all: int)
    requires all >= 0
  {
    w == Walked(Newest(s, all), |s| <= all)
  }

  lemma WalkEnds(fetches: seq<Fetch>, viewer: UserId, chat: ChatId, before: Option<int>, limit: int, s: set<nat>)
    requires fetches != [] && Key(chat, viewer) in fetches[0].access.members
    requires limit > 0 && (before.Some? ==> before.value > 0)
    requires s == IdsBelow(fetches[0].rows, chat, before) && |s| <= PageSize(limit)
    ensures ReturnsNewest(Walk(fetches, viewer, chat, before, limit), s, Capacity(|fetches|, limit))
  {
    LastPage(fetches, viewer, chat, before, limit, s);
    assert PageSize(limit) <= Capacity(|fetches|, limit);
    assert Newest(s, PageSize(limit)) == Newest(s, Capacity(|fetches|, limit));
  }

  lemma JoinPages(s: set<nat>, size: nat, later: nat, page: seq<nat>, cursor: nat, rest: Walked)
    requires 0 < size < |s| && page == Newest(s, size) && page != [] && cursor == page[|page| - 1]
    requires ReturnsNewest(rest, Under(s, cursor), later)
    ensures ReturnsNewest(Walked(page + rest.ids, rest.finished), s, size + later)
  {
    NewestSplit(s, size, later);
  }

  /**
   The pages put together are the newest ids as of the first page, as many as the pages
   hold, whatever ran in between; the walk ends as soon as that covers them all.
   */
  lemma {:induction false} WalkReturnsFirstSnapshot(
    fetches: seq<Fetch>, viewer: UserId, chat: ChatId, before: Option<int>, limit: int)
    requires Consistent(fetches, viewer, chat) && fetches != []
    requires limit > 0 && (before.Some? ==> before.value > 0)
    ensures ReturnsNewest(Walk(fetches, viewer, chat, before, limit), IdsBelow(fetches[0].rows, chat, before),
                          Capacity(|fetches|, limit))
    decreases |fetches|, 1
  {
    var s := IdsBelow(fetches[0].rows, chat, before);
    if |s| <= PageSize(limit) {
      WalkEnds(fetches, viewer, chat, before, limit, s);
    } else {
      var page := Newest(s, PageSize(limit));
      NewestLength(s, PageSize(limit));
      var cursor := page[PageSize(limit) - 1];
      FirstPage(fetches[0], viewer, chat, before, limit);
      OlderPages(fetches, viewer, chat, before, limit, s, page, cursor);
      MorePages(fetches, viewer, chat, before, limit, page, cursor);
      JoinPages(s, PageSize(limit), Capacity(|fetches| - 1, limit), page, cursor,
                Walk(fetches[1..], viewer, chat, Some(cursor), limit));
    }
  }

  lemma NextSnapshot(fetches: seq<Fetch>, viewer: UserId, chat: ChatId, before: Option<int>, cursor: MessageId)
    requires Consistent(fetches, viewer, chat) && |fetches| > 1 && cursor in IdsBelow(fetches[0].rows, chat, before)
    ensures IdsBelow(fetches[1].rows, chat, Some(cursor)) == Under(IdsBelow(fetches[0].rows, chat, before), cursor)
    ensures Consistent(fetches[1..], viewer, chat)
  {
    assert SamePast(fetches[0].rows, fetches[0 + 1].rows, chat);
  }

  /** The pages after the first, by the same argument from the second call on. */
  lemma {:induction false} OlderPages(
    fetches: seq<Fetch>, viewer: UserId, chat: ChatId, before: Option<int>, limit: int, s: set<nat>, page: seq<nat>, cursor: nat)
    requires Consistent(fetches, viewer, chat) && fetches != []
    requires limit > 0 && s == IdsBelow(fetches[0].rows, chat, before) && |s| > PageSize(limit)
    requires page == Newest(s, PageSize(limit)) && page != [] && cursor == page[|page| - 1]
    ensures ReturnsNewest(Walk(fetches[1..], viewer, chat, Some(cursor), limit), Under(s, cursor), Capacity(|fetches| - 1, limit))
    decreases |fetches|, 0
  {
    var size := PageSize(limit);
    NewestLength(s, size);
    NewestSplit(s, size, 0);
    if |fetches| > 1 {
      OlderThanCursor(s, size);
      NextSnapshot(fetches, viewer, chat, before, cursor);
      WalkReturnsFirstSnapshot(fetches[1..], viewer, chat, Some(cursor), limit);
    }
  }

  /** A finished walk: each message of the chat at the first page exactly once, newest first. */
  lemma FinishedWalkIsComplete(
    ts: seq<Tables>, cs: seq<Change>, at: seq<nat>, fetches: seq<Fetch>, viewer: UserId, chat: ChatId, limit: int)
    requires Fetches(ts, cs, at, fetches, viewer, chat) && fetches != [] && limit > 0
    ensures var w, s := Walk(fetches, viewer, chat, None, limit), IdsBelow(fetches[0].rows, chat, None);
            && (w.finished <==> |s| <= |fetches| * (if limit <= 100 then limit else 100))
            && StrictlyDescending(w.ids)
            && (w.finished ==> forall id :: id in w.ids <==> Existing(fetches[0].rows, chat, id))
  {
    FetchesAreConsistent(ts, cs, at, fetches, viewer, chat);
    WalkReturnsFirstSnapshot(fetches, viewer, chat, None, limit);
    CapacityIsProduct(|fetches|, limit);
    var s, all := IdsBelow(fetches[0].rows, chat, None), Capacity(|fetches|, limit);
    NewestDescends(s, all);
    assert forall id: nat :: id in s <==> Existing(fetches[0].rows, chat, id);
  }
}
