/**
 The reactions column of a message: its rows grouped by reaction, each group with a count
 and an ordered user list.
 */
module Reactions {
  import opened Tables
  import opened Identifiers

  datatype Summary = Summary(reaction: Reaction, count: nat, users: seq<UserId>)

  const REACTIONS := 6

  /** The position of a reaction in alphabetical order. */
  function Rank(r: Reaction): nat {
    match r
    case Angry => 0
    case Heart => 1
    case Laugh => 2
    case Like => 3
    case Sad => 4
    case Wow => 5
  }

  function NameOf(r: Reaction): string {
    match r
    case Angry => "angry"
    case Heart => "heart"
    case Laugh => "laugh"
    case Like => "like"
    case Sad => "sad"
    case Wow => "wow"
  }

  /** Ranks are in the order of the names, as strings compare. */
  lemma RankIsAlphabetical(a: Reaction, b: Reaction)
    ensures Rank(a) < Rank(b) <==> Less(NameOf(a), NameOf(b))
  {
    var s, t := NameOf(a), NameOf(b);
    assert s[0] == t[0] && |s| > 1 && |t| > 1 ==> (Less(s, t) <==> s[1] < t[1] || (s[1] == t[1] && Less(s[1..][1..], t[1..][1..])));
    assert a == b ==> !Less(s, t) by {
      NotLess(s);
    }
  }

  lemma {:induction false} NotLess(s: string)
    ensures !Less(s, s)
  {
    if s != "" {
      NotLess(s[1..]);
    }
  }

  function Nth(k: nat): Reaction {
    if k == 0 then Angry else if k == 1 then Heart else if k == 2 then Laugh
    else if k == 3 then Like else if k == 4 then Sad else Wow
  }

  /** Distinct values in increasing order. */
  function Ascending(s: set<nat>): (r: seq<nat>)
    ensures |r| == |s| && StrictlyAscending(r) && forall x :: x in r <==> x in s
    decreases |s|
  {
    match MaxOf(s)
    case None => []
    case Some(m) =>
      var init := Ascending(s - {m});
      assert forall x | x in init :: x in s - {m};
      init + [m]
  }

  ghost predicate StrictlyAscending(r: seq<nat>) {
    forall i, j | 0 <= i < j < |r| :: r[i] < r[j]
  }

  function UsersOf(rows: Rows, reaction: Reaction): set<UserId> {
    set row | row in rows && row.1 == reaction :: row.0
  }

  /** One reaction's group: how many, and who, in order. */
  function GroupOf(rows: Rows, r: Reaction): Summary {
    Summary(r, |UsersOf(rows, r)|, Ascending(UsersOf(rows, r)))
  }

  /** The groups of the first `n` reactions, empty ones included. */
  function AllGroups(rows: Rows, n: nat): (ss: seq<Summary>)
    ensures |ss| == n && forall k | 0 <= k < n :: ss[k] == GroupOf(rows, Nth(k))
  {
    seq(n, k requires 0 <= k < n => GroupOf(rows, Nth(k)))
  }

  /** A reaction nobody gave has no group. */
  function NonEmpty(ss: seq<Summary>): seq<Summary> {
    if ss == [] then []
    else if ss[|ss| - 1].users == [] then NonEmpty(ss[..|ss| - 1])
    else NonEmpty(ss[..|ss| - 1]) + [ss[|ss| - 1]]
  }

  function Group(rows: Rows): seq<Summary> {
    NonEmpty(AllGroups(rows, REACTIONS))
  }

  function Tagged(users: set<UserId>, r: Reaction): Rows {
    set u | u in users :: (u, r)
  }

  function UserSet(s: Summary): set<UserId> {
    set u | u in s.users
  }

  /** The (user, reaction) rows a list of summaries stands for. */
  function Flatten(ss: seq<Summary>): Rows {
    if ss == [] then {}
    else Flatten(ss[..|ss| - 1]) + Tagged(UserSet(ss[|ss| - 1]), ss[|ss| - 1].reaction)
  }

  function SumOfCounts(ss: seq<Summary>): nat {
    if ss == [] then 0 else SumOfCounts(ss[..|ss| - 1]) + ss[|ss| - 1].count
  }

  /** What a reader may rely on. */
  ghost predicate Ordered(ss: seq<Summary>) {
    && ByRank(ss)
    && (forall s | s in ss :: s.users != [] && s.count == |s.users| && StrictlyAscending(s.users))
  }

  function RowsBelow(rows: Rows, k: nat): Rows {
    set row | row in rows && Rank(row.1) < k
  }

  lemma FlattenAppend(ss: seq<Summary>, s: Summary)
    ensures Flatten(ss + [s]) == Flatten(ss) + Tagged(UserSet(s), s.reaction)
    ensures SumOfCounts(ss + [s]) == SumOfCounts(ss) + s.count
  {
    assert (ss + [s])[..|ss|] == ss;
  }

  /** One more reaction adds exactly its own rows. */
  lemma OneMoreReaction(rows: Rows, k: nat)
    requires k < REACTIONS
    ensures RowsBelow(rows, k + 1) == RowsBelow(rows, k) + Tagged(UsersOf(rows, Nth(k)), Nth(k))
    ensures |RowsBelow(rows, k + 1)| == |RowsBelow(rows, k)| + |UsersOf(rows, Nth(k))|
  {
    var r := Nth(k);
    var tagged := Tagged(UsersOf(rows, r), r);
    forall row: (UserId, Reaction)
      ensures row in tagged <==> row in rows && row.1 == r
    {
      if row in rows && row.1 == r {
        assert row.0 in UsersOf(rows, r) && row == (row.0, r);
      }
    }
    assert RowsBelow(rows, k + 1) == RowsBelow(rows, k) + tagged;
    TaggedCount(UsersOf(rows, r), r);
  }

  lemma {:induction false} TaggedCount(users: set<UserId>, r: Reaction)
    ensures |Tagged(users, r)| == |users|
  {
    if users == {} {
      assert Tagged(users, r) == {};
    } else {
      var u :| u in users;
      TaggedCount(users - {u}, r);
      assert Tagged(users, r) == Tagged(users - {u}, r) + {(u, r)};
    }
  }

  ghost predicate Describes(s: Summary, rows: Rows, r: Reaction) {
    s.reaction == r && UserSet(s) == UsersOf(rows, r) && s.count == |UsersOf(rows, r)|
  }

  lemma {:induction false} GroupsHoldTheRows(rows: Rows, ss: seq<Summary>)
    requires |ss| <= REACTIONS && forall k | 0 <= k < |ss| :: Describes(ss[k], rows, Nth(k))
    ensures Flatten(ss) == RowsBelow(rows, |ss|) && SumOfCounts(ss) == |RowsBelow(rows, |ss|)|
  {
    if ss == [] {
      assert RowsBelow(rows, 0) == {};
    } else {
      var n := |ss| - 1;
      GroupsHoldTheRows(rows, ss[..n]);
      OneMoreReaction(rows, n);
      assert Describes(ss[n], rows, Nth(n));
    }
  }

  ghost predicate ByRank(ss: seq<Summary>) {
    forall i, j | 0 <= i < j < |ss| :: Rank(ss[i].reaction) < Rank(ss[j].reaction)
  }

  lemma {:induction false} NonEmptyMembers(ss: seq<Summary>)
    ensures forall s :: s in NonEmpty(ss) <==> s in ss && s.users != []
  {
    if ss != [] {
      NonEmptyMembers(ss[..|ss| - 1]);
      assert ss == ss[..|ss| - 1] + [ss[|ss| - 1]];
    }
  }

  /** Dropping empty groups keeps the rows and the sum. */
  lemma {:induction false} NonEmptyKeepsRows(ss: seq<Summary>)
    requires forall s | s in ss :: s.count == |s.users|
    ensures Flatten(NonEmpty(ss)) == Flatten(ss) && SumOfCounts(NonEmpty(ss)) == SumOfCounts(ss)
  {
    if ss == [] {
    } else {
      var rest, last := ss[..|ss| - 1], ss[|ss| - 1];
      NonEmptyKeepsRows(rest);
      FlattenAppend(NonEmpty(rest), last);
      assert last.users == [] ==> Tagged(UserSet(last), last.reaction) == {};
    }
  }

  lemma {:induction false} NonEmptyKeepsOrder(ss: seq<Summary>)
    requires ByRank(ss)
    ensures ByRank(NonEmpty(ss))
  {
    if ss == [] {
    } else {
      var rest, last := ss[..|ss| - 1], ss[|ss| - 1];
      NonEmptyKeepsOrder(rest);
      NonEmptyMembers(rest);
      forall i | 0 <= i < |NonEmpty(rest)|
        ensures Rank(NonEmpty(rest)[i].reaction) < Rank(last.reaction)
      {
        assert NonEmpty(rest)[i] in rest;
      }
    }
  }

  lemma GroupOfDescribes(rows: Rows, r: Reaction)
    ensures Describes(GroupOf(rows, r), rows, r)
    ensures StrictlyAscending(GroupOf(rows, r).users) && GroupOf(rows, r).count == |GroupOf(rows, r).users|
  {
  }

  lemma NonEmptyIsOrdered(ss: seq<Summary>)
    requires ByRank(ss) && forall s | s in ss :: StrictlyAscending(s.users) && s.count == |s.users|
    ensures Ordered(NonEmpty(ss))
  {
    NonEmptyMembers(ss);
    NonEmptyKeepsOrder(ss);
  }

  lemma NthIsByRank(ss: seq<Summary>)
    requires |ss| <= REACTIONS && forall k | 0 <= k < |ss| :: ss[k].reaction == Nth(k)
    ensures ByRank(ss)
  {
    assert forall k | 0 <= k < |ss| :: Rank(ss[k].reaction) == k;
  }

  lemma AllGroupsDescribe(rows: Rows)
    ensures var ss := AllGroups(rows, REACTIONS);
            && ByRank(ss)
            && (forall k | 0 <= k < REACTIONS :: Describes(ss[k], rows, Nth(k)))
            && (forall s | s in ss :: StrictlyAscending(s.users) && s.count == |s.users|)
  {
    var ss := AllGroups(rows, REACTIONS);
    forall k | 0 <= k < REACTIONS
      ensures Describes(ss[k], rows, Nth(k)) && StrictlyAscending(ss[k].users) && ss[k].count == |ss[k].users|
    {
      GroupOfDescribes(rows, Nth(k));
    }
    NthIsByRank(ss);
  }

  /** Grouping loses nothing: flattening gives back the rows and the counts add up to them. */
  lemma GroupIsLossless(rows: Rows)
    ensures Ordered(Group(rows)) && Flatten(Group(rows)) == rows && SumOfCounts(Group(rows)) == |rows|
  {
    AllGroupsDescribe(rows);
    NonEmptyIsOrdered(AllGroups(rows, REACTIONS));
    NonEmptyKeepsRows(AllGroups(rows, REACTIONS));
    GroupsHoldTheRows(rows, AllGroups(rows, REACTIONS));
    assert RowsBelow(rows, REACTIONS) == rows;
  }

  lemma {:induction false} AscendingIsUnique(a: seq<nat>, b: seq<nat>)
    requires StrictlyAscending(a) && StrictlyAscending(b) && forall x :: x in a <==> x in b
    ensures a == b
  {
    assert a != [] ==> a[|a| - 1] in b;
    assert b != [] ==> b[|b| - 1] in a;
    if a == [] {
    } else {
      var a', b' := a[..|a| - 1], b[..|b| - 1];
      forall x
        ensures x in a' <==> x in b'
      {
        assert x in a' <==> x in a && x != a[|a| - 1];
        assert x in b' <==> x in b && x != b[|b| - 1];
      }
      AscendingIsUnique(a', b');
    }
  }

  function Ranks(ss: seq<Summary>): (r: seq<nat>)
    ensures |r| == |ss| && forall i | 0 <= i < |ss| :: r[i] == Rank(ss[i].reaction)
  {
    seq(|ss|, i requires 0 <= i < |ss| => Rank(ss[i].reaction))
  }

  lemma {:induction false} FlattenMembers(ss: seq<Summary>, u: UserId, r: Reaction)
    ensures (u, r) in Flatten(ss) <==> exists i | 0 <= i < |ss| :: ss[i].reaction == r && u in ss[i].users
  {
    if ss != [] {
      FlattenMembers(ss[..|ss| - 1], u, r);
      assert (u, r) in Tagged(UserSet(ss[|ss| - 1]), ss[|ss| - 1].reaction)
        <==> ss[|ss| - 1].reaction == r && u in ss[|ss| - 1].users;
    }
  }

  lemma InFlatten(ss: seq<Summary>, i: nat, u: UserId)
    requires Ordered(ss) && i < |ss|
    ensures (u, ss[i].reaction) in Flatten(ss) <==> u in ss[i].users
  {
    FlattenMembers(ss, u, ss[i].reaction);
    assert forall j | 0 <= j < |ss| && j != i :: Rank(ss[j].reaction) != Rank(ss[i].reaction);
  }

  lemma SameRanks(a: seq<Summary>, b: seq<Summary>)
    requires Ordered(a) && Ordered(b) && Flatten(a) <= Flatten(b)
    ensures forall k | k in Ranks(a) :: k in Ranks(b)
  {
    forall i | 0 <= i < |a|
      ensures Ranks(a)[i] in Ranks(b)
    {
      var u, r := a[i].users[0], a[i].reaction;
      InFlatten(a, i, u);
      FlattenMembers(b, u, r);
      var j :| 0 <= j < |b| && b[j].reaction == r;
      assert Ranks(b)[j] == Ranks(a)[i];
    }
  }

  /** Those promises pin the summaries down: no other ordered list flattens to the same rows. */
  lemma GroupIsTheOnlyOne(rows: Rows, ss: seq<Summary>)
    requires Ordered(ss) && Flatten(ss) == rows
    ensures ss == Group(rows)
  {
    var gs := Group(rows);
    GroupIsLossless(rows);
    SameRanks(ss, gs);
    SameRanks(gs, ss);
    AscendingIsUnique(Ranks(ss), Ranks(gs));
    forall i | 0 <= i < |ss|
      ensures ss[i] == gs[i]
    {
      assert Ranks(ss)[i] == Ranks(gs)[i];
      assert ss[i].reaction == gs[i].reaction;
      forall u
        ensures u in ss[i].users <==> u in gs[i].users
      {
        InFlatten(ss, i, u);
        InFlatten(gs, i, u);
      }
      AscendingIsUnique(ss[i].users, gs[i].users);
    }
  }
}
