/**
 The calls that create direct chats and change group memberships, one statement a step, in
 any interleaving. GetOrCreateDirect looks for the pair, and if it finds none inserts a
 speculative chat whose unique-index entry makes competitors wait until its transaction
 ends. AddMember and RemoveMember check the caller's rights in separate reads before the
 statement that acts.
 */
module ChatCalls {
  import opened Options
  import opened Tables

  /** normalizeUserPair: the smaller id first. */
  function NormalizeUserPair(a: UserId, b: UserId): Pair {
    if a < b then Pair(a, b) else Pair(b, a)
  }

  datatype DirectPhase =
    | Asked
    | Missed
    | Speculative(chat: ChatId)
    | Holding(chat: ChatId, inserted: nat)
    | Lost
    | Found(chat: ChatId)
    | Returned(chat: ChatId)
    | NotFound
    | Aborted

  datatype AdminPhase = Asked | IsGroup | IsAdmin | Done | Rejected

  datatype Call =
    | Direct(me: UserId, peer: UserId, phase: DirectPhase)
    | Membership(actor: UserId, chat: ChatId, target: UserId, remove: bool, step: AdminPhase)
  {
    function Pair(): Pair
      requires Direct?
    {
      NormalizeUserPair(me, peer)
    }

    /** The speculative chat row is in an open transaction. */
    predicate Reserves(c: ChatId) {
      Direct? && (phase.Speculative? || phase.Holding?) && phase.chat == c
    }

    /** The unique-index entry of the pair is in an open transaction. */
    predicate HoldsPair(p: Pair) {
      Direct? && phase.Holding? && Pair() == p
    }

    predicate Open() {
      if Direct? then !phase.Returned? && !phase.NotFound? && !phase.Aborted?
      else !step.Done? && !step.Rejected?
    }
  }

  datatype State = State(tables: Tables, calls: seq<Call>)

  const INITIAL := State(EMPTY, [])

  /** `pick` is the row a query returns or the UUID an insert generates. */
  datatype Step =
    | Begin(call: Call)
    | Advance(i: nat, pick: ChatId)
    | Abort(i: nat)
    | Elsewhere(change: Change)

  /** gen_random_uuid does not repeat a chat id, committed or not. */
  predicate Fresh(s: State, chat: ChatId) {
    chat !in s.tables.chats && forall j | 0 <= j < |s.calls| :: !s.calls[j].Reserves(chat)
  }

  predicate IsDirectRow(t: Tables, chat: ChatId, pair: Pair) {
    chat in t.directs && t.directs[chat] == pair
  }

  predicate Enabled(s: State, step: Step) {
    match step
    case Begin(call) =>
      if call.Direct? then call.me != call.peer && call.phase.Asked? else call.step.Asked?
    case Advance(i, pick) =>
      && i < |s.calls| && s.calls[i].Open()
      && (s.calls[i].Direct? ==>
            var call := s.calls[i];
            match call.phase
            case Asked => call.Pair() in s.tables.directs.Values ==> IsDirectRow(s.tables, pick, call.Pair())
            case Missed => Fresh(s, pick)
            case Speculative(_) => forall j | 0 <= j < |s.calls| && j != i :: !s.calls[j].HoldsPair(call.Pair())
            case Lost => call.Pair() in s.tables.directs.Values ==> IsDirectRow(s.tables, pick, call.Pair())
            case _ => true)
    case Abort(i) => i < |s.calls| && s.calls[i].Open()
    case Elsewhere(c) =>
      && !c.CreateDirect? && !c.AddMember? && !c.RemoveMember?
      && (c.CreateGroup? ==> Fresh(s, c.chat))
  }

  function To(s: State, i: nat, phase: DirectPhase): State
    requires i < |s.calls| && s.calls[i].Direct?
  {
    s.(calls := s.calls[i := s.calls[i].(phase := phase)])
  }

  /** The rows the winning transaction commits. */
  function InstallDirect(t: Tables, chat: ChatId, creator: UserId, pair: Pair): Tables {
    t.(chats := t.chats[chat := Chat(DirectChat, creator)],
       directs := t.directs[chat := pair],
       members := t.members[Key(chat, pair.user1) := NEWCOMER][Key(chat, pair.user2) := NEWCOMER])
  }

  function DirectNext(s: State, i: nat, pick: ChatId): State
    requires i < |s.calls| && s.calls[i].Direct?
  {
    var call, t := s.calls[i], s.tables;
    match call.phase
    case Asked => To(s, i, if call.Pair() in t.directs.Values then Found(pick) else Missed)
    case Missed => To(s, i, Speculative(pick))
    case Speculative(chat) =>
      // claim the pair: a committed row of it is a violation, and the call rolls back
      To(s, i, if call.Pair() in t.directs.Values then Lost else Holding(chat, 0))
    case Holding(chat, inserted) =>
      if inserted < 2 then To(s, i, Holding(chat, inserted + 1))
      else To(s, i, Returned(chat)).(tables := InstallDirect(t, chat, call.me, call.Pair()))
    case Lost => To(s, i, if call.Pair() in t.directs.Values then Found(pick) else NotFound)
    case Found(chat) =>
      // GetByIDForUser
      To(s, i, if chat in t.chats && Key(chat, call.me) in t.members then Returned(chat) else NotFound)
    case _ => s
  }

  function At(s: State, i: nat, step: AdminPhase): State
    requires i < |s.calls| && s.calls[i].Membership?
  {
    s.(calls := s.calls[i := s.calls[i].(step := step)])
  }

  function MembershipNext(s: State, i: nat): State
    requires i < |s.calls| && s.calls[i].Membership?
  {
    var call, t := s.calls[i], s.tables;
    match call.step
    case Asked => At(s, i, if call.chat in t.chats && t.chats[call.chat].kind.GroupChat? then IsGroup else Rejected)
    case IsGroup =>
      var k := Key(call.chat, call.actor);
      At(s, i, if k in t.members && t.members[k].role.Admin? then IsAdmin else Rejected)
    case IsAdmin =>
      if call.remove then
        if call.actor == call.target then At(s, i, Rejected)
        else At(s, i, Done).(tables := Apply(t, RemoveMember(call.chat, call.target)))
      else At(s, i, Done).(tables := Apply(t, AddMember(call.chat, call.target, Ordinary)))
    case _ => s
  }

  function Next(s: State, step: Step): State
    requires Enabled(s, step)
  {
    match step
    case Begin(call) => s.(calls := s.calls + [call])
    case Advance(i, pick) => if s.calls[i].Direct? then DirectNext(s, i, pick) else MembershipNext(s, i)
    case Abort(i) => if s.calls[i].Direct? then To(s, i, Aborted) else At(s, i, Rejected)
    case Elsewhere(c) => s.(tables := Apply(s.tables, c))
  }

  // ---- The invariant ----

  /** A committed direct chat: one row, exactly its two users as members. */
  ghost predicate DirectOk(t: Tables, c: ChatId)
    requires c in t.directs
  {
    && c in t.chats && t.chats[c].kind.DirectChat? && t.directs[c].user1 < t.directs[c].user2
    && forall u: UserId :: Key(c, u) in t.members <==> u == t.directs[c].user1 || u == t.directs[c].user2
  }

  predicate IsAdminOf(t: Tables, c: ChatId, u: UserId) {
    Key(c, u) in t.members && t.members[Key(c, u)].role.Admin?
  }

  /** A committed chat: a group has one admin, its creator; a direct chat has its row. */
  ghost predicate ChatOk(t: Tables, c: ChatId)
    requires c in t.chats
  {
    if t.chats[c].kind.GroupChat? then forall u: UserId :: IsAdminOf(t, c, u) <==> u == t.chats[c].createdBy
    else c in t.directs
  }

  ghost predicate DirectoryOk(t: Tables) {
    && (forall c | c in t.chats :: ChatOk(t, c))
    && (forall c | c in t.directs :: DirectOk(t, c))
    && (forall c, d | c in t.directs && d in t.directs :: t.directs[c] == t.directs[d] ==> c == d)
    && (forall k | k in t.members :: k.chat in t.chats)
  }

  ghost predicate CallOk(t: Tables, call: Call) {
    match call
    case Direct(me, peer, phase) => me != peer && DirectCallOk(t, call)
    case Membership(actor, chat, target, remove, step) =>
      && (step.IsGroup? || step.IsAdmin? ==> chat in t.chats && t.chats[chat].kind.GroupChat?)
      && (step.IsAdmin? ==> t.chats[chat].createdBy == actor)
  }

  ghost predicate DirectCallOk(t: Tables, call: Call)
    requires call.Direct?
  {
    match call.phase
    case Speculative(chat) => chat !in t.chats
    case Holding(chat, _) => chat !in t.chats && call.Pair() !in t.directs.Values
    case Lost => call.Pair() in t.directs.Values
    case Found(chat) => IsDirectRow(t, chat, call.Pair())
    case Returned(chat) => IsDirectRow(t, chat, call.Pair())
    case NotFound => false
    case _ => true
  }

  /** Two calls in open transactions: different speculative chats, different pairs in the index. */
  ghost predicate Apart(a: Call, b: Call) {
    && (forall c :: !(a.Reserves(c) && b.Reserves(c)))
    && (forall p :: !(a.HoldsPair(p) && b.HoldsPair(p)))
  }

  ghost predicate Inv(s: State) {
    && DirectoryOk(s.tables)
    && (forall i | 0 <= i < |s.calls| :: CallOk(s.tables, s.calls[i]))
    && (forall i, j | 0 <= i < |s.calls| && 0 <= j < |s.calls| && i != j :: Apart(s.calls[i], s.calls[j]))
  }

  // ---- Preservation ----

  /** What a change that this model's calls do not make leaves alone. */
  ghost predicate SameDirectory(t: Tables, t': Tables) {
    && t'.chats == t.chats && t'.directs == t.directs && t'.members.Keys == t.members.Keys
    && forall k | k in t.members :: t'.members[k].role == t.members[k].role
  }

  lemma SameDirectoryKeeps(t: Tables, t': Tables)
    requires DirectoryOk(t) && SameDirectory(t, t')
    ensures DirectoryOk(t')
  {
    forall c | c in t'.chats
      ensures ChatOk(t', c)
    {
      assert ChatOk(t, c);
      forall u: UserId
        ensures IsAdminOf(t', c, u) <==> IsAdminOf(t, c, u)
      {
      }
    }
    forall c | c in t'.directs
      ensures DirectOk(t', c)
    {
      assert DirectOk(t, c);
    }
  }

  lemma NewGroup(t: Tables, t': Tables, chat: ChatId, creator: UserId, others: set<UserId>)
    requires DirectoryOk(t) && t' == Apply(t, CreateGroup(chat, creator, others))
    requires Effective(t, CreateGroup(chat, creator, others))
    ensures t'.directs == t.directs && t'.chats == t.chats[chat := Chat(GroupChat, creator)]
    ensures forall k: Key | k.chat != chat :: (k in t'.members <==> k in t.members) && (k in t.members ==> t'.members[k] == t.members[k])
    ensures forall k | k in t'.members :: k.chat == chat || k in t.members
    ensures forall u: UserId :: IsAdminOf(t', chat, u) <==> u == creator
  {
  }

  lemma CreateGroupKeeps(t: Tables, chat: ChatId, creator: UserId, others: set<UserId>)
    requires DirectoryOk(t)
    ensures DirectoryOk(Apply(t, CreateGroup(chat, creator, others)))
  {
    var t' := Apply(t, CreateGroup(chat, creator, others));
    if Effective(t, CreateGroup(chat, creator, others)) {
      NewGroup(t, t', chat, creator, others);
      forall c | c in t'.chats
        ensures ChatOk(t', c)
      {
        if c != chat {
          assert ChatOk(t, c);
          assert forall u: UserId :: IsAdminOf(t', c, u) <==> IsAdminOf(t, c, u);
        }
      }
      forall c | c in t'.directs
        ensures DirectOk(t', c)
      {
        assert DirectOk(t, c);
      }
    }
  }

  lemma InstallDirectKeeps(t: Tables, chat: ChatId, creator: UserId, pair: Pair)
    requires DirectoryOk(t) && chat !in t.chats && pair !in t.directs.Values && pair.user1 < pair.user2
    ensures DirectoryOk(InstallDirect(t, chat, creator, pair))
  {
    var t' := InstallDirect(t, chat, creator, pair);
    forall c | c in t'.chats
      ensures ChatOk(t', c)
    {
      if c != chat {
        assert ChatOk(t, c);
        assert forall u: UserId :: IsAdminOf(t', c, u) <==> IsAdminOf(t, c, u);
      }
    }
    forall c | c in t'.directs
      ensures DirectOk(t', c)
    {
      if c != chat {
        assert DirectOk(t, c);
      }
    }
    forall c | c in t.directs
      ensures t.directs[c] != pair
    {
      assert t.directs[c] in t.directs.Values;
    }
  }

  /** Adding an ordinary member to a group, or removing one who is not its creator. */
  lemma MembershipKeeps(t: Tables, c: Change)
    requires DirectoryOk(t) && (c.AddMember? || c.RemoveMember?)
    requires c.chat in t.chats && t.chats[c.chat].kind.GroupChat?
    requires if c.AddMember? then c.role.Ordinary? else c.user != t.chats[c.chat].createdBy
    ensures DirectoryOk(Apply(t, c))
  {
    var t' := Apply(t, c);
    forall d | d in t'.chats
      ensures ChatOk(t', d)
    {
      assert ChatOk(t, d);
      assert forall u: UserId :: IsAdminOf(t', d, u) <==> IsAdminOf(t, d, u);
    }
    forall d | d in t'.directs
      ensures DirectOk(t', d)
    {
      assert DirectOk(t, d);
    }
  }

  /** A call's facts survive any change that keeps existing chats and direct rows. */
  ghost predicate Grows(t: Tables, t': Tables) {
    && (forall c | c in t.chats :: c in t'.chats && t'.chats[c] == t.chats[c])
    && (forall c | c in t.directs :: c in t'.directs && t'.directs[c] == t.directs[c])
  }

  lemma CallStays(t: Tables, t': Tables, call: Call)
    requires CallOk(t, call) && Grows(t, t')
    requires forall c | call.Reserves(c) :: c !in t'.chats
    requires forall p | call.HoldsPair(p) :: p !in t'.directs.Values
    ensures CallOk(t', call)
  {
    if call.Direct? {
      match call.phase
      case Speculative(chat) => assert call.Reserves(chat);
      case Holding(chat, _) => assert call.Reserves(chat) && call.HoldsPair(call.Pair());
      case Lost =>
        var c :| c in t.directs && t.directs[c] == call.Pair();
        assert t'.directs[c] in t'.directs.Values;
      case _ =>
    }
  }

  /** One call moves, the tables stay. */
  lemma QuietStep(s: State, i: nat, call: Call)
    requires Inv(s) && i < |s.calls| && CallOk(s.tables, call)
    requires forall j | 0 <= j < |s.calls| && j != i :: Apart(call, s.calls[j]) && Apart(s.calls[j], call)
    ensures Inv(s.(calls := s.calls[i := call]))
  {
  }

  lemma StaysApart(s: State, i: nat, call: Call)
    requires Inv(s) && i < |s.calls|
    requires forall c | call.Reserves(c) :: s.calls[i].Reserves(c)
    requires forall p | call.HoldsPair(p) :: s.calls[i].HoldsPair(p)
    ensures forall j | 0 <= j < |s.calls| && j != i :: Apart(call, s.calls[j]) && Apart(s.calls[j], call)
  {
    forall j | 0 <= j < |s.calls| && j != i
      ensures Apart(call, s.calls[j]) && Apart(s.calls[j], call)
    {
      assert Apart(s.calls[i], s.calls[j]);
    }
  }

  lemma DirectKeepsInv(s: State, i: nat, pick: ChatId)
    requires Inv(s) && Enabled(s, Advance(i, pick)) && s.calls[i].Direct? && !s.calls[i].phase.Holding?
    ensures Inv(DirectNext(s, i, pick))
  {
    var call, t := s.calls[i], s.tables;
    var next := DirectNext(s, i, pick).calls[i];
    assert CallOk(t, call);
    if call.phase.Found? {
      assert DirectOk(t, call.phase.chat);
    }
    match call.phase
    case Missed =>
      forall j | 0 <= j < |s.calls| && j != i
        ensures Apart(next, s.calls[j]) && Apart(s.calls[j], next)
      {
        assert !s.calls[j].Reserves(pick);
      }
      QuietStep(s, i, next);
    case Speculative(chat) =>
      forall j | 0 <= j < |s.calls| && j != i
        ensures Apart(next, s.calls[j]) && Apart(s.calls[j], next)
      {
        assert Apart(call, s.calls[j]);
        assert forall c :: next.Reserves(c) ==> call.Reserves(c);
      }
      QuietStep(s, i, next);
    case _ =>
      StaysApart(s, i, next);
      QuietStep(s, i, next);
  }

  lemma CommitKeepsInv(s: State, i: nat)
    requires Inv(s) && i < |s.calls| && s.calls[i].Direct? && s.calls[i].phase.Holding?
    ensures Inv(DirectNext(s, i, 0))
  {
    var call, t := s.calls[i], s.tables;
    var chat := call.phase.chat;
    assert CallOk(t, call) && call.Reserves(chat) && call.HoldsPair(call.Pair());
    if call.phase.inserted < 2 {
      var next := call.(phase := Holding(chat, call.phase.inserted + 1));
      StaysApart(s, i, next);
      QuietStep(s, i, next);
    } else {
      var t', next := InstallDirect(t, chat, call.me, call.Pair()), call.(phase := Returned(chat));
      InstallDirectKeeps(t, chat, call.me, call.Pair());
      forall j | 0 <= j < |s.calls| && j != i
        ensures CallOk(t', s.calls[j])
      {
        assert Apart(call, s.calls[j]) && CallOk(t, s.calls[j]);
        assert forall c | s.calls[j].Reserves(c) :: c !in t'.chats;
        forall p | s.calls[j].HoldsPair(p)
          ensures p !in t'.directs.Values
        {
          assert p !in t.directs.Values && p != call.Pair();
        }
        CallStays(t, t', s.calls[j]);
      }
      StaysApart(s, i, next);
      assert CallOk(t', next);
    }
  }

  lemma MembershipKeepsInv(s: State, i: nat)
    requires Inv(s) && i < |s.calls| && s.calls[i].Membership?
    ensures Inv(MembershipNext(s, i))
  {
    var call, t := s.calls[i], s.tables;
    var s' := MembershipNext(s, i);
    assert CallOk(t, call);
    if call.step.IsGroup? {
      assert ChatOk(t, call.chat);
      assert IsAdminOf(t, call.chat, call.actor) ==> t.chats[call.chat].createdBy == call.actor;
    }
    StaysApart(s, i, s'.calls[i]);
    if call.step.IsAdmin? && !(call.remove && call.actor == call.target) {
      MembershipKeeps(t, if call.remove then RemoveMember(call.chat, call.target)
                         else AddMember(call.chat, call.target, Ordinary));
      forall j | 0 <= j < |s.calls| && j != i
        ensures CallOk(s'.tables, s.calls[j])
      {
        assert CallOk(t, s.calls[j]);
      }
    } else {
      QuietStep(s, i, s'.calls[i]);
    }
  }

  lemma OtherChangesKeepDirectory(t: Tables, c: Change)
    requires !c.CreateGroup? && !c.CreateDirect? && !c.AddMember? && !c.RemoveMember?
    ensures SameDirectory(t, Apply(t, c))
  {
  }

  lemma ElsewhereKeepsInv(s: State, c: Change)
    requires Inv(s) && Enabled(s, Elsewhere(c))
    ensures Inv(Next(s, Elsewhere(c)))
  {
    var t, t' := s.tables, Apply(s.tables, c);
    if c.CreateGroup? {
      CreateGroupKeeps(t, c.chat, c.creator, c.others);
    } else {
      OtherChangesKeepDirectory(t, c);
      SameDirectoryKeeps(t, t');
    }
    forall j | 0 <= j < |s.calls|
      ensures CallOk(t', s.calls[j])
    {
      assert CallOk(t, s.calls[j]);
      CallStays(t, t', s.calls[j]);
    }
  }

  lemma NextKeepsInv(s: State, step: Step)
    requires Inv(s) && Enabled(s, step)
    ensures Inv(Next(s, step))
  {
    match step
    case Begin(call) =>
    case Advance(i, pick) =>
      if s.calls[i].Membership? {
        MembershipKeepsInv(s, i);
      } else if s.calls[i].phase.Holding? {
        CommitKeepsInv(s, i);
      } else {
        DirectKeepsInv(s, i, pick);
      }
    case Abort(i) =>
      var next := Next(s, step).calls[i];
      assert CallOk(s.tables, s.calls[i]);
      StaysApart(s, i, next);
      QuietStep(s, i, next);
    case Elsewhere(c) => ElsewhereKeepsInv(s, c);
  }

  // ---- Every interleaving ----

  ghost predicate IsExecution(ss: seq<State>, steps: seq<Step>) {
    && |ss| == |steps| + 1 && ss[0] == INITIAL
    && forall n {:trigger TakesStep(ss, steps, n)} | 0 <= n < |steps| :: TakesStep(ss, steps, n)
  }

  ghost predicate TakesStep(ss: seq<State>, steps: seq<Step>, n: nat)
    requires n < |steps| && n + 1 < |ss|
  {
    Enabled(ss[n], steps[n]) && ss[n + 1] == Next(ss[n], steps[n])
  }

  lemma {:induction false} ExecutionKeepsInv(ss: seq<State>, steps: seq<Step>, n: nat)
    requires IsExecution(ss, steps) && n <= |steps|
    ensures Inv(ss[n])
  {
    if n > 0 {
      ExecutionKeepsInv(ss, steps, n - 1);
      assert TakesStep(ss, steps, n - 1);
      NextKeepsInv(ss[n - 1], steps[n - 1]);
    }
  }

  /** Callers of the same two users, in either order, that succeed all get the one committed chat of the pair. */
  lemma CallersAgree(ss: seq<State>, steps: seq<Step>, n: nat, i: nat, j: nat)
    requires IsExecution(ss, steps) && n <= |steps| && i < |ss[n].calls| && j < |ss[n].calls|
    requires var a, b := ss[n].calls[i], ss[n].calls[j];
             && a.Direct? && b.Direct? && a.phase.Returned? && b.phase.Returned?
             && {a.me, a.peer} == {b.me, b.peer}
    ensures var a, b := ss[n].calls[i], ss[n].calls[j];
            a.phase.chat == b.phase.chat && IsDirectRow(ss[n].tables, a.phase.chat, a.Pair())
  {
    ExecutionKeepsInv(ss, steps, n);
    var t, a, b := ss[n].tables, ss[n].calls[i], ss[n].calls[j];
    assert CallOk(t, a) && CallOk(t, b);
    assert a.me in {b.me, b.peer} && a.peer in {b.me, b.peer};
    assert a.Pair() == b.Pair();
  }

  /** No caller is ever told that the winner, or its own membership in it, is missing. */
  lemma NeverNotFound(ss: seq<State>, steps: seq<Step>, n: nat, i: nat)
    requires IsExecution(ss, steps) && n <= |steps| && i < |ss[n].calls| && ss[n].calls[i].Direct?
    ensures !ss[n].calls[i].phase.NotFound?
  {
    ExecutionKeepsInv(ss, steps, n);
    assert CallOk(ss[n].tables, ss[n].calls[i]);
  }

  /**
   In every reachable state a pair has at most one committed row, every committed direct
   chat has its row and exactly its two users, and every group has exactly one admin, its
   creator.
   */
  lemma DirectoryIsAlwaysOk(ss: seq<State>, steps: seq<Step>, n: nat)
    requires IsExecution(ss, steps) && n <= |steps|
    ensures var t := ss[n].tables;
            && (forall c, d | c in t.directs && d in t.directs && t.directs[c] == t.directs[d] :: c == d)
            && (forall c | c in t.chats && t.chats[c].kind.DirectChat? ::
                  c in t.directs && forall u: UserId ::
                    Key(c, u) in t.members <==> u == t.directs[c].user1 || u == t.directs[c].user2)
            && (forall c | c in t.chats && t.chats[c].kind.GroupChat? ::
                  forall u: UserId :: IsAdminOf(t, c, u) <==> u == t.chats[c].createdBy)
  {
    ExecutionKeepsInv(ss, steps, n);
    var t := ss[n].tables;
    forall c | c in t.chats
      ensures ChatOk(t, c) && (c in t.directs ==> DirectOk(t, c))
    {
    }
  }

  // ---- The committed tables go through a run of changes ----

  /** The change a step makes visible, if any. */
  function ChangeMade(s: State, step: Step): Option<Change>
    requires Enabled(s, step)
  {
    match step
    case Elsewhere(c) => Some(c)
    case Advance(i, _) =>
      (match s.calls[i]
       case Direct(me, _, phase) =>
         if phase.Holding? && phase.inserted >= 2 then Some(CreateDirect(phase.chat, me, s.calls[i].Pair())) else None
       case Membership(actor, chat, target, remove, at) =>
         if !at.IsAdmin? || (remove && actor == target) then None
         else if remove then Some(RemoveMember(chat, target)) else Some(AddMember(chat, target, Ordinary)))
    case _ => None
  }

  lemma StepIsOneChange(s: State, step: Step)
    requires Inv(s) && Enabled(s, step)
    ensures Next(s, step).tables
         == match ChangeMade(s, step) case None => s.tables case Some(c) => Apply(s.tables, c)
  {
    if step.Advance? {
      assert CallOk(s.tables, s.calls[step.i]);
    }
  }

  /** So whatever is proved of runs of changes holds of every interleaving of these calls. */
  lemma {:induction false} ExecutionIsARun(ss: seq<State>, steps: seq<Step>, n: nat)
    returns (ts: seq<Tables>, cs: seq<Change>)
    requires IsExecution(ss, steps) && n <= |steps|
    ensures IsRun(ts, cs) && ts[0] == EMPTY && ts[|cs|] == ss[n].tables
  {
    if n == 0 {
      ts, cs := [EMPTY], [];
    } else {
      ts, cs := ExecutionIsARun(ss, steps, n - 1);
      ExecutionKeepsInv(ss, steps, n - 1);
      assert TakesStep(ss, steps, n - 1);
      StepIsOneChange(ss[n - 1], steps[n - 1]);
      match ChangeMade(ss[n - 1], steps[n - 1])
      case None =>
      case Some(c) =>
        ExtendRun(ts, cs, c);
        ts, cs := ts + [Apply(ts[|cs|], c)], cs + [c];
    }
  }
}
