/**
 Fan-out to client queues, at the grain of the hub's locks: a fan-out is one sendLocal call.
 It takes a snapshot of the user's registered clients, then tries each client's bounded
 queue once; a client whose queue is full is unregistered in a separate step. Any number
 of fan-outs, registrations, disconnections and queue writers interleave.
 */
module FanOut {
  import opened Options

  type User = nat

  /** sendBufferSize. */
  const CAPACITY := 20

  /** One connection, of one user, to one hub. */
  datatype Client = Client(hub: nat, user: User, conn: nat)

  /** What a fan-out carries: the send it belongs to and the user it is for, at one hub. */
  datatype Tag = Tag(send: nat, hub: nat, user: User)

  /** Something put in a queue: the copy of a fan-out, or the connection's own reply (ack, error, pong). */
  datatype Item = Copy(fan: nat) | Reply

  /**
   Everything ever queued for a client, how much of it has been written to the socket, and
   how many fan-outs had started when it registered.
   */
  datatype Conn = Conn(log: seq<Item>, written: nat, since: nat)

  /** `after` are the fan-outs already over when this one started. */
  datatype Fan = Fan(tag: Tag, snapshot: set<Client>, todo: set<Client>, evicting: Option<Client>, after: set<nat>) {
    predicate Over() { todo == {} && evicting.None? }
  }

  /** Fan-outs are numbered in the order they start. */
  datatype Core = Core(clients: map<Client, Conn>, registered: set<Client>, fans: seq<Fan>)

  const NO_CLIENTS := Core(map[], {}, [])

  datatype Step =
    | Register(c: Client)
    | Unregister(c: Client)
    | Start(tag: Tag)
    | Attempt(i: nat, c: Client)
    | Evict(i: nat)
    | Write(c: Client)
    | Answer(c: Client)
    | Shutdown(hub: nat)

  predicate HasRoom(conn: Conn) {
    |conn.log| - conn.written < CAPACITY
  }

  predicate Enabled(s: Core, step: Step) {
    match step
    case Register(c) => c !in s.clients
    case Attempt(i, c) => i < |s.fans| && s.fans[i].evicting.None? && c in s.fans[i].todo && c in s.clients
    case Evict(i) => i < |s.fans| && s.fans[i].evicting.Some?
    case Write(c) => c in s.clients && s.clients[c].written < |s.clients[c].log|
    case Answer(c) => c in s.clients
    case _ => true
  }

  /** clientsForUser. */
  function ClientsOf(s: Core, hub: nat, user: User): set<Client> {
    set c | c in s.registered && c.hub == hub && c.user == user
  }

  function Queue(s: Core, c: Client, item: Item): Core
    requires c in s.clients
  {
    s.(clients := s.clients[c := s.clients[c].(log := s.clients[c].log + [item])])
  }

  function Next(s: Core, step: Step): Core
    requires Enabled(s, step)
  {
    match step
    case Register(c) =>
      s.(clients := s.clients[c := Conn([], 0, |s.fans|)], registered := s.registered + {c})
    case Unregister(c) => s.(registered := s.registered - {c})
    case Start(tag) =>
      var snapshot := ClientsOf(s, tag.hub, tag.user);
      var over := set i | 0 <= i < |s.fans| && s.fans[i].Over();
      s.(fans := s.fans + [Fan(tag, snapshot, snapshot, None, over)])
    case Attempt(i, c) =>
      var f := s.fans[i].(todo := s.fans[i].todo - {c});
      if HasRoom(s.clients[c]) then Queue(s, c, Copy(i)).(fans := s.fans[i := f])
      else s.(fans := s.fans[i := f.(evicting := Some(c))])
    case Evict(i) =>
      s.(registered := s.registered - {s.fans[i].evicting.value}, fans := s.fans[i := s.fans[i].(evicting := None)])
    case Write(c) => s.(clients := s.clients[c := s.clients[c].(written := s.clients[c].written + 1)])
    case Answer(c) => if HasRoom(s.clients[c]) then Queue(s, c, Reply) else s
    case Shutdown(hub) => s.(registered := set c | c in s.registered && c.hub != hub)
  }

  // ---- The invariant ----

  predicate Queued(conn: Conn, i: nat) {
    Copy(i) in conn.log
  }

  /** A queued copy comes from a fan-out that had this client in its snapshot and is done with it. */
  ghost predicate ItemOk(s: Core, c: Client, item: Item) {
    item.Copy? ==>
      && item.fan < |s.fans|
      && var f := s.fans[item.fan]; c in f.snapshot && c !in f.todo && f.evicting != Some(c)
  }

  /** No copy is queued twice, and none is queued after one whose fan-out started when its own was over. */
  ghost predicate LogOk(s: Core, log: seq<Item>) {
    forall p, q | 0 <= p < q < |log| && log[p].Copy? && log[q].Copy? ::
      && log[p] != log[q]
      && (log[p].fan < |s.fans| ==> log[q].fan !in s.fans[log[p].fan].after)
  }

  ghost predicate ConnOk(s: Core, c: Client)
    requires c in s.clients
  {
    var conn := s.clients[c];
    && conn.written <= |conn.log| <= conn.written + CAPACITY && conn.since <= |s.fans|
    && (forall item | item in conn.log :: ItemOk(s, c, item))
    && LogOk(s, conn.log)
  }

  /** Where a fan-out has got to with one client of its snapshot. */
  ghost predicate Settled(s: Core, i: nat, c: Client)
    requires i < |s.fans|
  {
    || c in s.fans[i].todo
    || s.fans[i].evicting == Some(c)
    || c !in s.registered
    || (c in s.clients && Queued(s.clients[c], i))
  }

  ghost predicate FanOk(s: Core, i: nat)
    requires i < |s.fans|
  {
    var f := s.fans[i];
    && f.todo <= f.snapshot <= s.clients.Keys
    && (f.evicting.Some? ==> f.evicting.value in f.snapshot && f.evicting.value !in f.todo)
    && (forall c | c in f.snapshot :: c.hub == f.tag.hub && c.user == f.tag.user)
    && (forall c | c in f.snapshot :: Settled(s, i, c))
    && (forall c | c in s.registered && c.hub == f.tag.hub && c.user == f.tag.user ::
          c in s.clients && (s.clients[c].since <= i ==> c in f.snapshot))
    && (forall j | j in f.after :: j < i && s.fans[j].Over())
  }

  ghost predicate Inv(s: Core) {
    && s.registered <= s.clients.Keys
    && (forall c | c in s.clients :: ConnOk(s, c))
    && (forall i | 0 <= i < |s.fans| :: FanOk(s, i))
  }

  // ---- Preservation ----

  lemma RegisterKeeps(s: Core, c: Client)
    requires Inv(s) && c !in s.clients
    ensures Inv(Next(s, Register(c)))
  {
    var s' := Next(s, Register(c));
    forall i | 0 <= i < |s'.fans|
      ensures FanOk(s', i)
    {
      assert FanOk(s, i);
      forall d | d in s'.fans[i].snapshot
        ensures Settled(s', i, d)
      {
        assert Settled(s, i, d);
      }
    }
    forall d | d in s'.clients
      ensures ConnOk(s', d)
    {
      if d != c {
        ConnStays(s, s', d);
      }
    }
  }

  /** A client's log stays right while no fan-out goes back on it. */
  lemma ConnStays(s: Core, s': Core, c: Client)
    requires c in s.clients && c in s'.clients && s'.clients[c] == s.clients[c] && ConnOk(s, c)
    requires |s.fans| <= |s'.fans|
    requires forall i | 0 <= i < |s.fans| ::
               && s'.fans[i].snapshot == s.fans[i].snapshot && s'.fans[i].after == s.fans[i].after
               && (c !in s.fans[i].todo && s.fans[i].evicting != Some(c) ==>
                     c !in s'.fans[i].todo && s'.fans[i].evicting != Some(c))
    ensures ConnOk(s', c)
  {
    forall item | item in s'.clients[c].log
      ensures ItemOk(s', c, item)
    {
      assert ItemOk(s, c, item);
    }
    forall p, q | 0 <= p < q < |s.clients[c].log| && s.clients[c].log[p].Copy? && s.clients[c].log[q].Copy?
      ensures var log := s.clients[c].log;
              log[p] != log[q] && (log[p].fan < |s'.fans| ==> log[q].fan !in s'.fans[log[p].fan].after)
    {
      assert ItemOk(s, c, s.clients[c].log[p]);
    }
  }

  /** Clients leaving the hub's map. */
  lemma LeaveKeeps(s: Core, registered: set<Client>)
    requires Inv(s) && registered <= s.registered
    ensures Inv(s.(registered := registered))
  {
    var s' := s.(registered := registered);
    forall i | 0 <= i < |s'.fans|
      ensures FanOk(s', i)
    {
      assert FanOk(s, i);
      forall d | d in s'.fans[i].snapshot
        ensures Settled(s', i, d)
      {
        assert Settled(s, i, d);
      }
    }
    forall d | d in s'.clients
      ensures ConnOk(s', d)
    {
      ConnStays(s, s', d);
    }
  }

  lemma StartKeeps(s: Core, tag: Tag)
    requires Inv(s)
    ensures Inv(Next(s, Start(tag)))
  {
    var s' := Next(s, Start(tag));
    forall i | 0 <= i < |s'.fans|
      ensures FanOk(s', i)
    {
      if i < |s.fans| {
        assert FanOk(s, i);
        forall d | d in s'.fans[i].snapshot
          ensures Settled(s', i, d)
        {
          assert Settled(s, i, d);
        }
      }
    }
    forall d | d in s'.clients
      ensures ConnOk(s', d)
    {
      ConnStays(s, s', d);
    }
  }

  /** Queueing one more item, when there is room and it is right to. */
  lemma QueueKeepsConn(s: Core, s': Core, c: Client, item: Item)
    requires c in s.clients && ConnOk(s, c) && HasRoom(s.clients[c])
    requires c in s'.clients && s'.clients[c] == s.clients[c].(log := s.clients[c].log + [item])
    requires |s'.fans| == |s.fans|
    requires forall i | 0 <= i < |s.fans| ::
               && s'.fans[i].snapshot == s.fans[i].snapshot && s'.fans[i].after == s.fans[i].after
               && (c !in s.fans[i].todo && s.fans[i].evicting != Some(c) ==>
                     c !in s'.fans[i].todo && s'.fans[i].evicting != Some(c))
    requires ItemOk(s', c, item)
    requires item.Copy? ==> c in s.fans[item.fan].todo && forall i | 0 <= i < |s.fans| :: item.fan !in s.fans[i].after
    ensures ConnOk(s', c)
  {
    var log := s.clients[c].log;
    forall x | x in log + [item]
      ensures ItemOk(s', c, x)
    {
      if x in log {
        assert ItemOk(s, c, x);
      }
    }
    forall p, q | 0 <= p < q < |log| + 1 && (log + [item])[p].Copy? && (log + [item])[q].Copy?
      ensures var l := log + [item]; l[p] != l[q] && (l[p].fan < |s'.fans| ==> l[q].fan !in s'.fans[l[p].fan].after)
    {
      assert ItemOk(s, c, log[p]);
    }
  }

  /** Fan-outs do not notice other clients' queues, or their own client's queue growing. */
  lemma FanStays(s: Core, s': Core, i: nat)
    requires i < |s.fans| && FanOk(s, i) && |s'.fans| == |s.fans| && s'.fans[i] == s.fans[i]
    requires s'.registered <= s.registered && s'.clients.Keys == s.clients.Keys
    requires forall c | c in s.clients :: s'.clients[c].since == s.clients[c].since && s.clients[c].log <= s'.clients[c].log
    requires forall j | 0 <= j < |s.fans| :: s.fans[j].Over() ==> s'.fans[j].Over()
    ensures FanOk(s', i)
  {
    forall d | d in s'.fans[i].snapshot
      ensures Settled(s', i, d)
    {
      assert Settled(s, i, d);
    }
  }

  lemma AttemptKeeps(s: Core, i: nat, c: Client)
    requires Inv(s) && Enabled(s, Attempt(i, c))
    ensures Inv(Next(s, Attempt(i, c)))
  {
    var s' := Next(s, Attempt(i, c));
    forall j | 0 <= j < |s.fans|
      ensures FanOk(s, j) && i !in s.fans[j].after
    {
      assert FanOk(s, j);
    }
    forall j | 0 <= j < |s.fans|
      ensures FanOk(s', j)
    {
      if j != i {
        FanStays(s, s', j);
      } else {
        forall d | d in s'.fans[i].snapshot
          ensures Settled(s', i, d)
        {
          assert Settled(s, i, d);
        }
      }
    }
    forall d | d in s'.clients
      ensures ConnOk(s', d)
    {
      assert ConnOk(s, d);
      if d == c && HasRoom(s.clients[c]) {
        QueueKeepsConn(s, s', c, Copy(i));
      } else {
        assert d == c ==> forall item | item in s.clients[c].log :: ItemOk(s, c, item);
        if d == c {
          FullConnStays(s, s', i, c);
        } else {
          ConnStays(s, s', d);
        }
      }
    }
  }

  /** A client found full keeps its log: it holds no copy of the fan-out that is evicting it. */
  lemma FullConnStays(s: Core, s': Core, i: nat, c: Client)
    requires Enabled(s, Attempt(i, c)) && ConnOk(s, c) && !HasRoom(s.clients[c])
    requires s' == Next(s, Attempt(i, c))
    ensures ConnOk(s', c)
  {
    forall item | item in s'.clients[c].log
      ensures ItemOk(s', c, item)
    {
      assert ItemOk(s, c, item);
    }
  }

  lemma EvictKeeps(s: Core, i: nat)
    requires Inv(s) && Enabled(s, Evict(i))
    ensures Inv(Next(s, Evict(i)))
  {
    var s' := Next(s, Evict(i));
    forall j | 0 <= j < |s.fans|
      ensures FanOk(s', j)
    {
      assert FanOk(s, j);
      if j != i {
        FanStays(s, s', j);
      } else {
        forall d | d in s'.fans[i].snapshot
          ensures Settled(s', i, d)
        {
          assert Settled(s, i, d);
        }
      }
    }
    forall d | d in s'.clients
      ensures ConnOk(s', d)
    {
      ConnStays(s, s', d);
    }
  }

  /** Writing to the socket, or queueing the connection's own reply. */
  lemma OwnQueueKeeps(s: Core, step: Step)
    requires Inv(s) && Enabled(s, step) && (step.Write? || step.Answer?)
    ensures Inv(Next(s, step))
  {
    var s', c := Next(s, step), step.c;
    forall j | 0 <= j < |s.fans|
      ensures FanOk(s', j)
    {
      FanStays(s, s', j);
    }
    forall d | d in s'.clients
      ensures ConnOk(s', d)
    {
      assert ConnOk(s, d);
      if d != c || s' == s {
        ConnStays(s, s', d);
      } else if step.Answer? {
        QueueKeepsConn(s, s', c, Reply);
      } else {
        ConnStays(s, s.(clients := s.clients), c);
        forall item | item in s'.clients[c].log
          ensures ItemOk(s', c, item)
        {
          assert ItemOk(s, c, item);
        }
      }
    }
  }

  lemma NextKeepsInv(s: Core, step: Step)
    requires Inv(s) && Enabled(s, step)
    ensures Inv(Next(s, step))
  {
    match step
    case Register(c) => RegisterKeeps(s, c);
    case Unregister(c) => LeaveKeeps(s, s.registered - {c});
    case Start(tag) => StartKeeps(s, tag);
    case Attempt(i, c) => AttemptKeeps(s, i, c);
    case Evict(i) => EvictKeeps(s, i);
    case Write(_) => OwnQueueKeeps(s, step);
    case Answer(_) => OwnQueueKeeps(s, step);
    case Shutdown(hub) => LeaveKeeps(s, set c | c in s.registered && c.hub != hub);
  }

  /** What the layers above rely on: fan-outs are never forgotten, changed in identity, or reopened. */
  ghost predicate FansKept(s: Core, s': Core) {
    && |s.fans| <= |s'.fans|
    && forall i | 0 <= i < |s.fans| ::
         && s'.fans[i].tag == s.fans[i].tag && s'.fans[i].after == s.fans[i].after
         && (s.fans[i].Over() ==> s'.fans[i].Over())
  }

  lemma NextKeepsFans(s: Core, step: Step)
    requires Enabled(s, step)
    ensures FansKept(s, Next(s, step))
    ensures !step.Start? ==> |Next(s, step).fans| == |s.fans|
  {
  }

  // ---- What the invariant means ----

  /**
   A fan-out that is over has been queued for every client that is still registered and
   registered before it started: missing an event always ends in eviction.
   */
  lemma NoSilentLoss(s: Core, i: nat, c: Client)
    requires Inv(s) && i < |s.fans| && s.fans[i].Over()
    requires c in s.registered && c.hub == s.fans[i].tag.hub && c.user == s.fans[i].tag.user
    requires c in s.clients && s.clients[c].since <= i
    ensures Queued(s.clients[c], i)
  {
    assert FanOk(s, i);
    assert Settled(s, i, c);
  }

  /** Of two fan-outs, one over before the other started, a client gets the copies in that order. */
  lemma CopiesInOrder(s: Core, c: Client, i: nat, j: nat, p: nat, q: nat)
    requires Inv(s) && c in s.clients && i < |s.fans| && j < |s.fans| && i in s.fans[j].after
    requires p < |s.clients[c].log| && q < |s.clients[c].log|
    requires s.clients[c].log[p] == Copy(i) && s.clients[c].log[q] == Copy(j)
    ensures p < q
  {
    assert ConnOk(s, c);
    assert FanOk(s, j) && FanOk(s, i);
  }

  // ---- What each step does, in numbers ----

  /** How many items a connection's queue holds. */
  function Unwritten(conn: Conn): int {
    |conn.log| - conn.written
  }

  /** A client with fewer than 20 unwritten items gets the copy and stays; one with 20 gets nothing and is to be evicted. */
  lemma AttemptDecides(s: Core, i: nat, c: Client)
    requires Enabled(s, Attempt(i, c))
    ensures var s' := Next(s, Attempt(i, c));
            && s'.registered == s.registered && s'.clients.Keys == s.clients.Keys && |s'.fans| == |s.fans|
            && (forall d | d in s.clients && d != c :: s'.clients[d] == s.clients[d])
            && (forall j | 0 <= j < |s.fans| && j != i :: s'.fans[j] == s.fans[j])
            && s'.fans[i].todo == s.fans[i].todo - {c}
            && (Unwritten(s.clients[c]) < 20 ==>
                  s'.clients[c] == s.clients[c].(log := s.clients[c].log + [Copy(i)]) && s'.fans[i].evicting.None?)
            && (Unwritten(s.clients[c]) >= 20 ==>
                  s'.clients[c] == s.clients[c] && s'.fans[i].evicting == Some(c))
  {
  }

  /** A connection's own reply is queued behind what is there, unless 20 items are; nothing else changes. */
  lemma AnswerDecides(s: Core, c: Client)
    requires Enabled(s, Answer(c))
    ensures var s' := Next(s, Answer(c));
            && s'.registered == s.registered && s'.fans == s.fans && s'.clients.Keys == s.clients.Keys
            && (forall d | d in s.clients && d != c :: s'.clients[d] == s.clients[d])
            && s'.clients[c] == if Unwritten(s.clients[c]) < 20 then s.clients[c].(log := s.clients[c].log + [Reply])
                                else s.clients[c]
  {
  }

  /** A writer takes one item off its own queue, the oldest unwritten one; nothing else changes. */
  lemma WriteDecides(s: Core, c: Client)
    requires Enabled(s, Write(c))
    ensures var s' := Next(s, Write(c));
            && s'.registered == s.registered && s'.fans == s.fans && s'.clients.Keys == s.clients.Keys
            && (forall d | d in s.clients && d != c :: s'.clients[d] == s.clients[d])
            && s'.clients[c].log == s.clients[c].log && s'.clients[c].since == s.clients[c].since
            && Unwritten(s'.clients[c]) == Unwritten(s.clients[c]) - 1
  {
  }

  /** Who enters and who leaves: a new connection with an empty queue; the one that is disconnected, evicted or shut down. */
  lemma Registration(s: Core, step: Step, c: Client)
    requires Enabled(s, step)
    ensures c !in s.registered && c in Next(s, step).registered <==> step == Register(c) && c !in s.registered
    ensures step == Register(c) ==> c in Next(s, step).registered && Next(s, step).clients[c] == Conn([], 0, |s.fans|)
    ensures c in s.registered && c !in Next(s, step).registered <==>
              && c in s.registered
              && (step == Unregister(c) || step == Shutdown(c.hub)
                  || (step.Evict? && s.fans[step.i].evicting == Some(c)))
  {
  }
}
