/**
 The hub, its clients and its relay as the objects they are: bounded queues that a send
 fills and a writer drains, a map of registered clients, and a publisher that the relay
 installs. Each method runs here without interference; FanOut and Relaying interleave them.
 */
module Hubs {
  import opened Distinct
  import opened FanOut

  type Payload = string

  /** What a writer's select finds ready: an event another goroutine queues, one to write, or the end. */
  datatype Turn = Arrive(data: Payload) | Take(ok: bool) | Cancel

  function Arrivals(turns: seq<Turn>): seq<Payload> {
    if turns == [] then []
    else
      var rest, last := Arrivals(turns[..|turns| - 1]), turns[|turns| - 1];
      if last.Arrive? then rest + [last.data] else rest
  }

  /** A queue after a send. */
  function Offered(queue: seq<Payload>, data: Payload): seq<Payload> {
    if |queue| < CAPACITY then queue + [data] else queue
  }

  class Connection {
    const userID: User
    /** The buffered channel. */
    var send: seq<Payload>
    /** What has been written to the socket. */
    var written: seq<Payload>

    var closed: bool

    constructor (userID: User)
      ensures this.userID == userID && send == [] && written == [] && !closed
    {
      this.userID, send, written, closed := userID, [], [], false;
    }

    /** Queue without blocking; a full queue refuses. */
    method Send(data: Payload) returns (ok: bool)
      modifies this`send
      ensures ok <==> |old(send)| < 20
      ensures send == (if ok then old(send) + [data] else old(send)) == Offered(old(send), data)
    {
      ok := |send| < CAPACITY;
      if ok {
        send := send + [data];
      }
    }

    method Close()
      modifies this`closed
      ensures closed
    {
      closed := true;
    }

    /**
     Drain the queue to the socket, in a loop whose iterations alternate with others' sends.
     Nothing is written out of order or twice, and all that is lost is the event of a failed
     write, which ends the loop; with room for everything nothing is refused.
     */
    method WriteLoop(turns: seq<Turn>) returns (ghost accepted: seq<Payload>, ghost lost: seq<Payload>, ghost done: nat)
      modifies this`send, this`written
      ensures written + lost + send == old(written) + old(send) + accepted
      ensures done <= |turns| && (forall i | 0 <= i < done - 1 :: turns[i] != Cancel)
      ensures done < |turns| ==> done > 0 && (turns[done - 1] == Cancel || lost != [])
      ensures |lost| <= 1 && (lost != [] ==> done > 0 && turns[done - 1] == Take(false))
      ensures |old(send)| <= CAPACITY ==> |send| <= CAPACITY
      ensures |old(send)| + |turns| <= CAPACITY ==> accepted == Arrivals(turns[..done])
    {
      ghost var all, had := written + send, |send|;
      accepted, lost, done := [], [], 0;
      for i := 0 to |turns|
        invariant done == i && lost == []
        invariant written + send == all + accepted && |send| <= had + i
        invariant had <= CAPACITY ==> |send| <= CAPACITY
        invariant forall j | 0 <= j < i :: turns[j] != Cancel
        invariant had + |turns| <= CAPACITY ==> accepted == Arrivals(turns[..i])
      {
        assert turns[..i + 1][..i] == turns[..i];
        done := i + 1;
        match turns[i]
        case Cancel =>
          return;
        case Arrive(data) =>
          if |send| < CAPACITY {
            assert written + (send + [data]) == (written + send) + [data] == all + (accepted + [data]);
            send, accepted := send + [data], accepted + [data];
          }
        case Take(ok) =>
          if send != [] {
            var data := send[0];
            assert written + send == (written + [data]) + send[1..];
            send := send[1..];
            if !ok {
              lost := [data];
              return;
            }
            written := written + [data];
          }
      }
      assert turns[..|turns|] == turns;
    }
  }

  datatype Event = Event(origin: nat, users: seq<User>, data: Payload)

  /** The broadcast channel all relays share. */
  class Broker {
    var available: bool
    var channel: seq<Event>

    constructor ()
      ensures available && channel == []
    {
      available, channel := true, [];
    }
  }

  /** What a send sees and changes of a client: its queue, and whether it has been closed. */
  datatype Link = Link(send: seq<Payload>, closed: bool) {
    predicate Full() { |send| >= CAPACITY }

    /** After one send: the event queued, or the client found slow and closed. */
    function Served(data: Payload): Link {
      if Full() then Link(send, true) else Link(send + [data], closed)
    }

    /** After several sends of the same event. */
    function ServedTimes(data: Payload, n: nat): Link {
      if n == 0 then this else ServedTimes(data, n - 1).Served(data)
    }

    predicate Overflows(n: nat) {
      n > 0 && |send| + n > CAPACITY
    }
  }

  function Count(users: seq<User>, u: User): nat {
    if users == [] then 0
    else Count(users[..|users| - 1], u) + if users[|users| - 1] == u then 1 else 0
  }

  lemma CountNext(users: seq<User>, u: User)
    ensures forall v :: Count(users + [u], v) == Count(users, v) + if v == u then 1 else 0
  {
    assert (users + [u])[..|users|] == users;
  }

  /** What SendToUsers publishes lists each of its users once. */
  lemma {:induction false} FirstsCount(users: seq<User>, u: User)
    ensures Count(Firsts(users, {}), u) == if u in users then 1 else 0
  {
    if users != [] {
      FirstsCount(users[..|users| - 1], u);
      var init, last := Firsts(users[..|users| - 1], {}), users[|users| - 1];
      FirstsKeepAll(users[..|users| - 1], {});
      assert users == users[..|users| - 1] + [last];
      assert (init + [last])[..|init|] == init;
    }
  }

  lemma {:induction false} ServedLength(l: Link, data: Payload, n: nat)
    ensures |l.send| + n <= CAPACITY ==> |l.ServedTimes(data, n).send| == |l.send| + n
    ensures |l.send| + n > CAPACITY ==> l.ServedTimes(data, n).Full()
    ensures l.Overflows(n) ==> l.ServedTimes(data, n).closed
  {
    if n > 0 {
      ServedLength(l, data, n - 1);
    }
  }

  /** A client that has been evicted is served no more, and has nothing more to lose. */
  lemma ServedNext(l: Link, data: Payload, n: nat)
    ensures l.ServedTimes(data, n + 1) == l.ServedTimes(data, n).Served(data)
    ensures l.Overflows(n + 1) <==> l.ServedTimes(data, n).Full()
    ensures l.Overflows(n) ==> l.ServedTimes(data, n + 1) == l.ServedTimes(data, n)
  {
    ServedLength(l, data, n);
  }

  function SetOf(users: seq<User>): set<User> {
    set u | u in users
  }

  lemma SetOfNext(users: seq<User>, u: User)
    ensures SetOf(users + [u]) == SetOf(users) + {u}
    ensures u in SetOf(users) ==> SetOf(users + [u]) == SetOf(users)
  {
  }

  type Registry = map<User, set<Connection>>

  function Of(m: Registry, u: User): set<Connection> {
    if u in m then m[u] else {}
  }

  /** No empty entries, and each client under its own user. */
  ghost predicate Tidy(m: Registry) {
    forall u | u in m :: m[u] != {} && forall c | c in m[u] :: c.userID == u
  }

  /** The registry without some clients; an entry left empty goes. */
  ghost function Without(m: Registry, gone: set<Connection>): Registry {
    map u | u in m && !(m[u] <= gone) :: m[u] - gone
  }

  lemma WithoutKeepsTidy(m: Registry, gone: set<Connection>)
    requires Tidy(m)
    ensures Tidy(Without(m, gone))
    ensures forall u :: Of(Without(m, gone), u) == Of(m, u) - gone
    ensures Without(m, {}) == m
  {
    assert forall u | u in m :: m[u] - {} == m[u];
  }

  lemma WithoutTwice(m: Registry, gone: set<Connection>, more: set<Connection>)
    ensures Without(Without(m, gone), more) == Without(m, gone + more)
  {
    forall u | u in m
      ensures m[u] - gone - more == m[u] - (gone + more)
      ensures m[u] <= gone + more <==> m[u] - gone <= more
    {
    }
  }

  /** Dropping one client only concerns its own user's entry. */
  lemma WithoutOne(m: Registry, c: Connection)
    requires Tidy(m)
    ensures var rest := Of(m, c.userID) - {c};
            Without(m, {c}) == if rest == {} then m - {c.userID} else m[c.userID := rest]
  {
    var m', rest, u := Without(m, {c}), Of(m, c.userID) - {c}, c.userID;
    assert rest == {} <==> Of(m, u) <= {c};
    forall v | v in m && v != u
      ensures v in m' && m'[v] == m[v]
    {
      assert c !in m[v];
      assert m[v] - {c} == m[v];
    }
  }

  // ---- Clients before and after ----

  type Links = map<Connection, Link>

  ghost function LinksOf(cs: set<Connection>): Links
    reads cs
  {
    map c | c in cs :: Link(c.send, c.closed)
  }

  lemma LinksSplitSet(all: set<Connection>, part: set<Connection>)
    requires part <= all
    ensures LinksOf(all) == LinksOf(all - part) + LinksOf(part)
  {
  }

  lemma LinksSplit(all: set<Connection>, c: Connection)
    requires c in all
    ensures LinksOf(all) == LinksOf(all - {c}) + map[c := Link(c.send, c.closed)]
  {
  }

  /** All but the clients in `todo` have been served. */
  ghost predicate Tried(q: Links, q': Links, todo: set<Connection>, data: Payload) {
    q'.Keys == q.Keys && forall c | c in q :: q'[c] == if c in todo then q[c] else q[c].Served(data)
  }

  ghost function SlowAmong(q: Links, cs: set<Connection>): set<Connection> {
    set c | c in q && c in cs && q[c].Full()
  }

  lemma TriedNext(q: Links, q1: Links, q2: Links, rest: Links, todo: set<Connection>, c: Connection, l: Link, data: Payload)
    requires Tried(q, q1, todo, data) && c in todo && todo <= q.Keys
    requires c !in rest && q1 == rest + map[c := l] && q2 == rest + map[c := l.Served(data)]
    ensures l == q[c]
    ensures Tried(q, q2, todo - {c}, data)
    ensures SlowAmong(q, q.Keys - (todo - {c})) == SlowAmong(q, q.Keys - todo) + if q[c].Full() then {c} else {}
  {
    assert l == q1[c] == q[c];
  }

  /** Each client of the users has been served; no other has changed. */
  ghost predicate Reached(q: Links, q': Links, users: set<User>, data: Payload) {
    q'.Keys == q.Keys && forall c | c in q :: q'[c] == if c.userID in users then q[c].Served(data) else q[c]
  }

  /** The users' clients without room. */
  ghost function SlowOf(q: Links, users: set<User>): set<Connection> {
    set c | c in q && c.userID in users && q[c].Full()
  }

  lemma TriedAll(q: Links, q': Links, u: User, data: Payload)
    requires Tried(q, q', {}, data) && forall c | c in q :: c.userID == u
    ensures Reached(q, q', {u}, data) && SlowOf(q, {u}) == SlowAmong(q, q.Keys)
  {
  }

  /** Serving one more user, whose clients are `r`, the others staying as they are. */
  lemma ReachedNext(q: Links, q1: Links, q2: Links, rest: Links, r: Links, r': Links, users: set<User>, u: User, data: Payload)
    requires Reached(q, q1, users, data) && u !in users && Reached(r, r', {u}, data)
    requires q1 == rest + r && q2 == rest + r'
    requires forall c :: c in r <==> c in q && c.userID == u
    ensures Reached(q, q2, users + {u}, data)
    ensures SlowOf(q, users + {u}) == SlowOf(q, users) + SlowOf(r, {u})
  {
    assert forall c | c in r :: r[c] == q1[c] == q[c];
  }

  /** In numbers: a listed user's client gets the event behind what it has, or has 20 items, is closed and evicted. */
  ghost predicate Told(q: Links, q': Links, users: seq<User>, data: Payload, evicted: set<Connection>) {
    && q'.Keys == q.Keys && evicted <= q.Keys
    && forall c | c in q ::
         && (c in evicted <==> c.userID in users && |q[c].send| >= 20)
         && q'[c] == if c in evicted then Link(q[c].send, true)
                     else if c.userID in users then Link(q[c].send + [data], q[c].closed)
                     else q[c]
  }

  lemma ReachedMeans(q: Links, q': Links, users: seq<User>, data: Payload)
    requires Reached(q, q', SetOf(users), data)
    ensures Told(q, q', users, data, SlowOf(q, SetOf(users)))
  {
  }

  /** Each client has been served as often as its user is listed. */
  ghost predicate Relayed(q: Links, q': Links, users: seq<User>, data: Payload) {
    q'.Keys == q.Keys && forall c | c in q :: q'[c] == q[c].ServedTimes(data, Count(users, c.userID))
  }

  ghost function OverflowOf(q: Links, users: seq<User>): set<Connection> {
    set c | c in q && q[c].Overflows(Count(users, c.userID))
  }

  /** One more listed user: those of its clients `r` that have not been evicted are served once more. */
  lemma RelayedNext(q: Links, q1: Links, q2: Links, rest: Links, r: Links, r': Links, users: seq<User>, u: User, data: Payload)
    requires Relayed(q, q1, users, data) && Reached(r, r', {u}, data)
    requires q1 == rest + r && q2 == rest + r'
    requires forall c :: c in r <==> c in q && c.userID == u && c !in OverflowOf(q, users)
    ensures Relayed(q, q2, users + [u], data)
    ensures OverflowOf(q, users + [u]) == OverflowOf(q, users) + SlowOf(r, {u})
  {
    CountNext(users, u);
    forall c | c in q
      ensures q2[c] == q[c].ServedTimes(data, Count(users + [u], c.userID))
      ensures c in OverflowOf(q, users + [u]) <==> c in OverflowOf(q, users) || c in SlowOf(r, {u})
    {
      ServedNext(q[c], data, Count(users, c.userID));
      if c in r {
        assert r[c] == q1[c];
      }
    }
  }

  class Hub {
    var clients: Registry
    var publisher: RedisRelay?

    ghost predicate Valid()
      reads this
    {
      Tidy(clients)
    }

    constructor ()
      ensures Valid() && clients == map[] && publisher == null
    {
      clients, publisher := map[], null;
    }

    ghost function All(): set<Connection>
      reads this
    {
      set u, c | u in clients && c in clients[u] :: c
    }

    method Register(c: Connection)
      requires Valid()
      modifies this`clients
      ensures Valid() && clients == old(clients)[c.userID := Of(old(clients), c.userID) + {c}]
    {
      clients := clients[c.userID := Of(clients, c.userID) + {c}];
    }

    method Unregister(c: Connection)
      requires Valid()
      modifies this`clients
      ensures Valid() && clients == Without(old(clients), {c})
    {
      WithoutOne(clients, c);
      WithoutKeepsTidy(clients, {c});
      var rest := Of(clients, c.userID) - {c};
      clients := if rest == {} then clients - {c.userID} else clients[c.userID := rest];
    }

    /** One client's turn in sendLocal: it gets the event, or it is evicted and closed. */
    method Serve(c: Connection, data: Payload, ghost among: set<Connection>)
      returns (ok: bool, ghost rest: Links, ghost l: Link)
      requires Valid() && c in among
      modifies this`clients, c`send, c`closed
      ensures ok <==> !l.Full()
      ensures old(LinksOf(among)) == rest + map[c := l] && LinksOf(among) == rest + map[c := l.Served(data)] && c !in rest
      ensures Valid() && clients == Without(old(clients), if ok then {} else {c})
    {
      WithoutKeepsTidy(clients, {});
      LinksSplit(among, c);
      rest, l := LinksOf(among - {c}), Link(c.send, c.closed);
      ok := c.Send(data);
      if !ok {
        Unregister(c);
        c.Close();
      }
      LinksSplit(among, c);
    }

    /** Every client of the user with room gets the event; the others are evicted and closed. */
    method SendLocal(u: User, data: Payload) returns (ghost evicted: set<Connection>)
      requires Valid()
      modifies this`clients, Of(clients, u)`send, Of(clients, u)`closed
      ensures evicted == SlowOf(old(LinksOf(Of(clients, u))), {u})
      ensures Valid() && clients == Without(old(clients), evicted)
      ensures Reached(old(LinksOf(Of(clients, u))), LinksOf(Of(old(clients), u)), {u}, data)
    {
      var todo := Of(clients, u);
      ghost var snapshot, q := todo, LinksOf(todo);
      evicted := {};
      WithoutKeepsTidy(clients, {});
      while todo != {}
        modifies this`clients, snapshot`send, snapshot`closed
        invariant todo <= snapshot
        invariant clients == Without(old(clients), evicted) && Valid()
        invariant evicted == SlowAmong(q, q.Keys - todo)
        invariant Tried(q, LinksOf(snapshot), todo, data)
        decreases |todo|
      {
        var c :| c in todo;
        ghost var q1 := LinksOf(snapshot);
        var ok;
        ghost var rest, l;
        ok, rest, l := Serve(c, data, snapshot);
        WithoutTwice(old(clients), evicted, if ok then {} else {c});
        TriedNext(q, q1, LinksOf(snapshot), rest, todo, c, l, data);
        evicted := evicted + if ok then {} else {c};
        todo := todo - {c};
      }
      TriedAll(q, LinksOf(snapshot), u, data);
    }

    /** SendLocal, as seen among all clients: `rest` are those of other users. */
    method SendAmong(u: User, data: Payload, ghost all: set<Connection>)
      returns (ghost evicted: set<Connection>, ghost rest: Links, ghost r: Links, ghost r': Links)
      requires Valid() && Of(clients, u) <= all
      modifies this`clients, Of(clients, u)`send, Of(clients, u)`closed
      ensures evicted == SlowOf(r, {u}) && Reached(r, r', {u}, data) && r.Keys == Of(old(clients), u)
      ensures Valid() && clients == Without(old(clients), evicted)
      ensures old(LinksOf(all)) == rest + r && LinksOf(all) == rest + r'
    {
      ghost var here := Of(clients, u);
      LinksSplitSet(all, here);
      rest, r := LinksOf(all - here), LinksOf(here);
      evicted := SendLocal(u, data);
      LinksSplitSet(all, here);
      r' := LinksOf(here);
    }

    method SetPublisher(publisher: RedisRelay?)
      modifies this`publisher
      ensures this.publisher == publisher
    {
      this.publisher := publisher;
    }

    /** The loop of SendToUsers: each distinct user once. */
    method SendToEach(users: seq<User>, data: Payload) returns (unique: seq<User>, ghost evicted: set<Connection>)
      requires Valid()
      modifies this`clients, All()`send, All()`closed
      ensures unique == Firsts(users, {})
      ensures evicted == SlowOf(old(LinksOf(All())), SetOf(users))
      ensures Valid() && clients == Without(old(clients), evicted)
      ensures Reached(old(LinksOf(All())), LinksOf(old(All())), SetOf(users), data)
    {
      var seen: set<User> := {};
      unique, evicted := [], {};
      ghost var everyone, q := All(), LinksOf(All());
      WithoutKeepsTidy(clients, {});
      for i := 0 to |users|
        invariant unique == Firsts(users[..i], {}) && (forall u :: u in seen <==> u in unique)
        invariant seen == SetOf(users[..i])
        invariant evicted == SlowOf(q, seen)
        invariant clients == Without(old(clients), evicted) && Valid()
        invariant Reached(q, LinksOf(everyone), seen, data)
      {
        var u := users[i];
        assert users[..i + 1] == users[..i] + [u];
        FirstsAppend(users[..i], u, {});
        SetOfNext(users[..i], u);
        if u !in seen {
          WithoutKeepsTidy(old(clients), evicted);
          ghost var q1 := LinksOf(everyone);
          assert forall c | c in everyone :: c in Of(clients, u) <==> c.userID == u;
          ghost var more, rest, r, r' := SendAmong(u, data, everyone);
          ReachedNext(q, q1, LinksOf(everyone), rest, r, r', seen, u, data);
          WithoutTwice(old(clients), evicted, more);
          seen, unique, evicted := seen + {u}, unique + [u], evicted + more;
        }
      }
      assert users[..|users|] == users;
    }

    /**
     One copy to each client of a listed user, however often the user is listed, or its
     eviction; nothing to anyone else; one publication, of the distinct users.
     */
    method SendToUsers(users: seq<User>, data: Payload) returns (ghost evicted: set<Connection>)
      requires Valid()
      modifies this`clients, All()`send, All()`closed
      modifies if publisher != null then {publisher.broker} else {}
      ensures evicted == SlowOf(old(LinksOf(All())), SetOf(users))
      ensures Valid() && clients == Without(old(clients), evicted)
      ensures Reached(old(LinksOf(All())), LinksOf(old(All())), SetOf(users), data)
      ensures Told(old(LinksOf(All())), LinksOf(old(All())), users, data, evicted)
      ensures Reaches(publisher) == old(Reaches(publisher))
      ensures Channel(publisher) == old(Channel(publisher) + Publication(publisher, users, data))
    {
      var unique;
      ghost var q, everyone := LinksOf(All()), All();
      unique, evicted := SendToEach(users, data);
      ReachedMeans(q, LinksOf(everyone), users, data);
      FirstsNonEmpty(users);
      if publisher != null && |unique| > 0 {
        var _ := publisher.Publish(unique, data);
      }
    }

    /** Forget every client, and close them all. */
    method Shutdown()
      requires Valid()
      modifies this`clients, All()`closed
      ensures Valid() && All() == {}
      ensures forall c | c in old(All()) :: c.closed
    {
      var todo := AllClients();
      ghost var all := todo;
      clients := map[];
      while todo != {}
        modifies all`closed
        invariant todo <= all && forall c | c in all - todo :: c.closed
        decreases |todo|
      {
        var c :| c in todo;
        todo := todo - {c};
        c.Close();
      }
    }

    method AllClients() returns (all: set<Connection>)
      ensures all == All()
    {
      all := set u, c | u in clients && c in clients[u] :: c;
    }
  }

  /** Whether a publication now would be accepted; without a publisher there is none. */
  ghost predicate Reaches(p: RedisRelay?)
    reads if p == null then {} else {p.broker}
    ensures Reaches(p) ==> p != null
  {
    p != null && p.broker.available
  }

  /** What has been published to the publisher's channel. */
  ghost function Channel(p: RedisRelay?): seq<Event>
    reads if p == null then {} else {p.broker}
  {
    if p == null then [] else p.broker.channel
  }

  /** What a send to these users publishes: one event with each of them once, or nothing. */
  ghost function Publication(p: RedisRelay?, users: seq<User>, data: Payload): seq<Event>
    reads if p == null then {} else {p.broker}
  {
    if users != [] && Reaches(p) then [Event(p.origin, Firsts(users, {}), data)] else []
  }

  class RedisRelay {
    const hub: Hub
    const broker: Broker
    const origin: nat

    constructor (hub: Hub, broker: Broker, origin: nat)
      modifies hub`publisher
      ensures this.hub == hub && this.broker == broker && this.origin == origin && hub.publisher == this
    {
      this.hub, this.broker, this.origin := hub, broker, origin;
      new;
      hub.SetPublisher(this);
    }

    method Publish(users: seq<User>, data: Payload) returns (ok: bool)
      modifies broker`channel
      ensures ok == broker.available
      ensures broker.channel == if ok then old(broker.channel) + [Event(origin, users, data)] else old(broker.channel)
    {
      ok := broker.available;
      if ok {
        broker.channel := broker.channel + [Event(origin, users, data)];
      }
    }

    /** The loop of receive: local fan-out to each listed user, as often as the user is listed. */
    method RelayEach(users: seq<User>, data: Payload) returns (ghost evicted: set<Connection>)
      requires hub.Valid()
      modifies hub`clients, hub.All()`send, hub.All()`closed
      ensures hub.Valid() && hub.clients == Without(old(hub.clients), evicted)
      ensures evicted == OverflowOf(old(LinksOf(hub.All())), users)
      ensures Relayed(old(LinksOf(hub.All())), LinksOf(old(hub.All())), users, data)
    {
      evicted := {};
      ghost var everyone, q := hub.All(), LinksOf(hub.All());
      WithoutKeepsTidy(hub.clients, {});
      for i := 0 to |users|
        invariant hub.clients == Without(old(hub.clients), evicted) && hub.Valid()
        invariant evicted == OverflowOf(q, users[..i])
        invariant Relayed(q, LinksOf(everyone), users[..i], data)
      {
        var u := users[i];
        assert users[..i + 1] == users[..i] + [u];
        WithoutKeepsTidy(old(hub.clients), evicted);
        ghost var q1 := LinksOf(everyone);
        assert forall c | c in everyone :: c in Of(hub.clients, u) <==> c.userID == u && c !in evicted;
        assert Of(hub.clients, u) <= everyone;
        ghost var more, rest, r, r' := hub.SendAmong(u, data, everyone);
        RelayedNext(q, q1, LinksOf(everyone), rest, r, r', users[..i], u, data);
        WithoutTwice(old(hub.clients), evicted, more);
        evicted := evicted + more;
      }
      assert users[..|users|] == users;
    }

    /**
     Handle one message of the subscription: nothing if it is this replica's own or carries no
     data, otherwise local fan-out only, never another publication. A client without room for
     all its copies is evicted.
     */
    method Receive(event: Event) returns (ghost evicted: set<Connection>)
      requires hub.Valid()
      modifies hub`clients, hub.All()`send, hub.All()`closed
      ensures hub.Valid() && hub.clients == Without(old(hub.clients), evicted)
      ensures var users := if event.origin == origin || event.data == "" then [] else event.users;
              && evicted == OverflowOf(old(LinksOf(hub.All())), users)
              && Relayed(old(LinksOf(hub.All())), LinksOf(old(hub.All())), users, event.data)
    {
      if event.origin == origin || event.data == "" {
        evicted := {};
        WithoutKeepsTidy(hub.clients, {});
      } else {
        evicted := RelayEach(event.users, event.data);
      }
    }
  }
}
