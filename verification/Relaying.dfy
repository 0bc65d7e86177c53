/**
 Sends across replicas. SendToUsers fans out to each distinct user on its own hub and then
 publishes once; a broker hands the packet to the replicas' subscriptions, in order and at
 most once, and may lose it for any of them; each replica's relay drops packets of its own
 origin and fans the others out locally only. Everything interleaves, one step at a time.
 */
module Relaying {
  import opened Distinct
  import opened FanOut

  /** relayEvent; the origin is unique to a hub. */
  datatype Packet = Packet(send: nat, origin: nat, users: seq<User>)

  /**
   One SendToUsers call: how many of `users` it has looked at, the distinct ones among them,
   their fan-outs in order, and how many fan-outs had started when it began.
   */
  datatype Send = Send(hub: nat, users: seq<User>, next: nat, unique: seq<User>, fans: seq<nat>, began: nat, returned: bool)

  datatype Relay = Idle | Busy(packet: Packet, fans: seq<nat>)

  datatype State = State(
    core: Core, sends: seq<Send>, channel: seq<Packet>, inbox: map<nat, seq<Packet>>, relay: map<nat, Relay>,
    published: seq<nat>)

  const INITIAL := State(NO_CLIENTS, [], [], map[], map[], [])

  function Inbox(s: State, h: nat): seq<Packet> {
    if h in s.inbox then s.inbox[h] else []
  }

  function RelayOf(s: State, h: nat): Relay {
    if h in s.relay then s.relay[h] else Idle
  }

  datatype Step =
    | Local(step: FanOut.Step)
    | Begin(hub: nat, users: seq<User>)
    | NextUser(k: nat)
    | Publish(k: nat, accepted: bool)
    | ReturnUnpublished(k: nat)
    | HandOff(reached: set<nat>)
    | Lose(h: nat, x: nat)
    | Receive(h: nat)
    | RelayUser(h: nat)
    | RelayDone(h: nat)

  /** The loop over users goes on once the fan-out it is waiting for is over. */
  predicate LastOver(core: Core, fans: seq<nat>) {
    fans == [] || (fans[|fans| - 1] < |core.fans| && core.fans[fans[|fans| - 1]].Over())
  }

  predicate LoopDone(s: State, k: nat)
    requires k < |s.sends|
  {
    !s.sends[k].returned && s.sends[k].next == |s.sends[k].users| && LastOver(s.core, s.sends[k].fans)
  }

  predicate Enabled(s: State, step: Step) {
    match step
    case Local(st) => !st.Start? && FanOut.Enabled(s.core, st)
    case Begin(_, _) => true
    case NextUser(k) =>
      k < |s.sends| && !s.sends[k].returned && s.sends[k].next < |s.sends[k].users| && LastOver(s.core, s.sends[k].fans)
    case Publish(k, _) => k < |s.sends| && LoopDone(s, k) && s.sends[k].unique != []
    case ReturnUnpublished(k) => k < |s.sends| && LoopDone(s, k)
    case HandOff(_) => s.channel != []
    case Lose(h, x) => x < |Inbox(s, h)|
    case Receive(h) => RelayOf(s, h).Idle? && Inbox(s, h) != []
    case RelayUser(h) =>
      var r := RelayOf(s, h);
      r.Busy? && |r.fans| < |r.packet.users| && LastOver(s.core, r.fans)
    case RelayDone(h) =>
      var r := RelayOf(s, h);
      r.Busy? && |r.fans| == |r.packet.users| && LastOver(s.core, r.fans)
  }

  function StartFan(s: State, tag: Tag): State {
    s.(core := FanOut.Next(s.core, Start(tag)))
  }

  function Next(s: State, step: Step): State
    requires Enabled(s, step)
  {
    match step
    case Local(st) => s.(core := FanOut.Next(s.core, st))
    case Begin(hub, users) => s.(sends := s.sends + [Send(hub, users, 0, [], [], |s.core.fans|, false)])
    case NextUser(k) =>
      var d := s.sends[k];
      var u := d.users[d.next];
      if u in d.unique then s.(sends := s.sends[k := d.(next := d.next + 1)])
      else
        StartFan(s, Tag(k, d.hub, u)).(sends := s.sends[k :=
          d.(next := d.next + 1, unique := d.unique + [u], fans := d.fans + [|s.core.fans|])])
    case Publish(k, accepted) =>
      var d := s.sends[k];
      s.(sends := s.sends[k := d.(returned := true)], published := s.published + [k],
         channel := if accepted then s.channel + [Packet(k, d.hub, d.unique)] else s.channel)
    case ReturnUnpublished(k) => s.(sends := s.sends[k := s.sends[k].(returned := true)])
    case HandOff(reached) =>
      s.(channel := s.channel[1..],
         inbox := map h | h in s.inbox.Keys + reached :: Inbox(s, h) + if h in reached then [s.channel[0]] else [])
    case Lose(h, x) => s.(inbox := s.inbox[h := Inbox(s, h)[..x] + Inbox(s, h)[x + 1..]])
    case Receive(h) =>
      var p := Inbox(s, h)[0];
      s.(inbox := s.inbox[h := Inbox(s, h)[1..]], relay := s.relay[h := if p.origin == h then Idle else Busy(p, [])])
    case RelayUser(h) =>
      var r := RelayOf(s, h);
      StartFan(s, Tag(r.packet.send, h, r.packet.users[|r.fans|])).(
        relay := s.relay[h := r.(fans := r.fans + [|s.core.fans|])])
    case RelayDone(h) => s.(relay := s.relay[h := Idle])
  }

  // ---- The invariant ----

  ghost predicate SendOk(s: State, k: nat)
    requires k < |s.sends|
  {
    var d := s.sends[k];
    && d.began <= |s.core.fans| && d.next <= |d.users| && AllDistinct(d.unique) && |d.fans| == |d.unique|
    && (forall u :: u in d.unique <==> u in d.users[..d.next])
    && (forall x | 0 <= x < |d.fans| :: FanOfSend(s, k, x))
    && (d.returned ==> d.next == |d.users| && LastOver(s.core, d.fans))
  }

  ghost predicate FanOfSend(s: State, k: nat, x: nat)
    requires k < |s.sends| && x < |s.sends[k].fans| && x < |s.sends[k].unique|
  {
    var d := s.sends[k];
    && d.began <= d.fans[x] < |s.core.fans|
    && s.core.fans[d.fans[x]].tag == Tag(k, d.hub, d.unique[x])
    && (x + 1 < |d.fans| ==> s.core.fans[d.fans[x]].Over())
  }

  predicate Absent(ps: seq<Packet>, send: nat) {
    forall a | 0 <= a < |ps| :: ps[a].send != send
  }

  ghost predicate OnePerSend(ps: seq<Packet>) {
    forall a, b | 0 <= a < b < |ps| :: ps[a].send != ps[b].send
  }

  /** A packet carries the distinct users of a send that has returned. */
  ghost predicate PacketOk(s: State, p: Packet) {
    && p.send < |s.sends| && s.sends[p.send].returned && p.send in s.published
    && p.origin == s.sends[p.send].hub && p.users == s.sends[p.send].unique
  }

  ghost predicate InboxOk(s: State, inbox: seq<Packet>) {
    && OnePerSend(inbox)
    && forall a | 0 <= a < |inbox| :: PacketOk(s, inbox[a]) && Absent(s.channel, inbox[a].send)
  }

  ghost predicate RelayOk(s: State, h: nat, r: Relay) {
    r.Busy? ==>
      && PacketOk(s, r.packet) && r.packet.origin != h && |r.fans| <= |r.packet.users|
      && Absent(s.channel, r.packet.send) && Absent(Inbox(s, h), r.packet.send)
  }

  /** At each hub a packet is in one place: on its way, waiting, or being relayed. */
  ghost predicate HubOk(s: State, h: nat) {
    InboxOk(s, Inbox(s, h)) && RelayOk(s, h, RelayOf(s, h))
  }

  /** A fan-out is for a user its send or relay has come to; a relayed one shows its packet has arrived. */
  ghost predicate TagOk(s: State, tag: Tag) {
    && tag.send < |s.sends| && tag.user in s.sends[tag.send].unique
    && (tag.hub != s.sends[tag.send].hub ==>
          && Absent(s.channel, tag.send) && Absent(Inbox(s, tag.hub), tag.send)
          && (RelayOf(s, tag.hub).Busy? && RelayOf(s, tag.hub).packet.send == tag.send ==>
                var r := RelayOf(s, tag.hub); |r.fans| <= |r.packet.users| && tag.user in r.packet.users[..|r.fans|])
          && s.sends[tag.send].returned)
  }

  ghost predicate Inv(s: State) {
    && FanOut.Inv(s.core)
    && (forall k | 0 <= k < |s.sends| :: SendOk(s, k))
    && (forall i | 0 <= i < |s.core.fans| :: TagOk(s, s.core.fans[i].tag))
    && (forall i, j | 0 <= i < j < |s.core.fans| :: s.core.fans[i].tag != s.core.fans[j].tag)
    && OnePerSend(s.channel) && (forall a | 0 <= a < |s.channel| :: PacketOk(s, s.channel[a]))
    && (forall h: nat :: HubOk(s, h))
    && AllDistinct(s.published)
    && (forall k | k in s.published :: k < |s.sends| && s.sends[k].returned)
  }

  // ---- Preservation ----

  /** Sends are not disturbed by fan-outs moving on. */
  lemma SendStays(s: State, core: Core, k: nat)
    requires k < |s.sends| && SendOk(s, k) && FansKept(s.core, core)
    ensures SendOk(s.(core := core), k)
  {
    forall x | 0 <= x < |s.sends[k].fans|
      ensures FanOfSend(s.(core := core), k, x)
    {
      assert FanOfSend(s, k, x);
    }
    if s.sends[k].fans != [] {
      assert FanOfSend(s, k, |s.sends[k].fans| - 1);
    }
  }

  lemma LocalKeeps(s: State, st: FanOut.Step)
    requires Inv(s) && Enabled(s, Local(st))
    ensures Inv(Next(s, Local(st)))
  {
    FanOut.NextKeepsInv(s.core, st);
    NextKeepsFans(s.core, st);
    var s' := Next(s, Local(st));
    forall k | 0 <= k < |s.sends|
      ensures SendOk(s', k)
    {
      SendStays(s, s'.core, k);
    }
    forall i | 0 <= i < |s'.core.fans|
      ensures TagOk(s', s'.core.fans[i].tag)
    {
      assert TagOk(s, s.core.fans[i].tag);
    }
    forall h: nat
      ensures HubOk(s', h)
    {
      assert HubOk(s, h);
    }
  }

  /** Sends only ever grow, and a returned one is fixed. */
  ghost predicate SendsGrow(s: State, s': State) {
    && |s.sends| <= |s'.sends|
    && (forall k | k in s.published :: k in s'.published)
    && forall k | 0 <= k < |s.sends| ::
         && s'.sends[k].hub == s.sends[k].hub
         && (forall u | u in s.sends[k].unique :: u in s'.sends[k].unique)
         && (s.sends[k].returned ==> s'.sends[k] == s.sends[k])
  }

  /** A step that changes sends but neither packets nor relays keeps what is said of packets and tags. */
  lemma PacketsStay(s: State, s': State)
    requires Inv(s) && SendsGrow(s, s')
    requires s'.channel == s.channel && s'.inbox == s.inbox && s'.relay == s.relay
    ensures forall a | 0 <= a < |s'.channel| :: PacketOk(s', s'.channel[a])
    ensures forall h: nat :: HubOk(s', h)
    ensures forall i | 0 <= i < |s.core.fans| :: TagOk(s', s.core.fans[i].tag)
  {
    forall h: nat
      ensures HubOk(s', h)
    {
      assert HubOk(s, h);
    }
    forall i | 0 <= i < |s.core.fans|
      ensures TagOk(s', s.core.fans[i].tag)
    {
      assert TagOk(s, s.core.fans[i].tag);
    }
  }

  lemma OtherSends(s: State, s': State, k: nat)
    requires Inv(s) && |s.sends| <= |s'.sends| && FansKept(s.core, s'.core)
    requires k < |s.sends| && s'.sends[k] == s.sends[k]
    ensures SendOk(s', k)
  {
    SendStays(s, s'.core, k);
    assert SendOk(s.(core := s'.core), k);
    forall x | 0 <= x < |s.sends[k].fans|
      ensures FanOfSend(s', k, x)
    {
      assert FanOfSend(s.(core := s'.core), k, x);
    }
  }

  lemma BeginKeeps(s: State, hub: nat, users: seq<User>)
    requires Inv(s)
    ensures Inv(Next(s, Begin(hub, users)))
  {
    var s' := Next(s, Begin(hub, users));
    PacketsStay(s, s');
    forall k | 0 <= k < |s'.sends|
      ensures SendOk(s', k)
    {
      if k < |s.sends| {
        OtherSends(s, s', k);
      }
    }
  }

  lemma ReturnKeeps(s: State, k: nat)
    requires Inv(s) && k < |s.sends| && LoopDone(s, k)
    ensures Inv(Next(s, ReturnUnpublished(k)))
  {
    var s' := Next(s, ReturnUnpublished(k));
    PacketsStay(s, s');
    forall j | 0 <= j < |s'.sends|
      ensures SendOk(s', j)
    {
      if j != k {
        OtherSends(s, s', j);
      } else {
        assert SendOk(s, k);
        forall x | 0 <= x < |s.sends[k].fans|
          ensures FanOfSend(s', k, x)
        {
          assert FanOfSend(s, k, x);
        }
      }
    }
  }

  /** Nothing of a send that has not returned is in flight. */
  lemma NotInFlight(s: State, k: nat)
    requires Inv(s) && k < |s.sends| && !s.sends[k].returned
    ensures k !in s.published && Absent(s.channel, k)
    ensures forall h: nat :: Absent(Inbox(s, h), k) && (RelayOf(s, h).Busy? ==> RelayOf(s, h).packet.send != k)
    ensures forall i | 0 <= i < |s.core.fans| :: s.core.fans[i].tag.send == k ==> s.core.fans[i].tag.hub == s.sends[k].hub
  {
    forall h: nat
      ensures Absent(Inbox(s, h), k) && (RelayOf(s, h).Busy? ==> RelayOf(s, h).packet.send != k)
    {
      assert HubOk(s, h);
    }
    forall i | 0 <= i < |s.core.fans| && s.core.fans[i].tag.send == k
      ensures s.core.fans[i].tag.hub == s.sends[k].hub
    {
      assert TagOk(s, s.core.fans[i].tag);
    }
  }

  lemma PublishHub(s: State, k: nat, accepted: bool, h: nat)
    requires Inv(s) && Enabled(s, Publish(k, accepted))
    ensures HubOk(Next(s, Publish(k, accepted)), h)
  {
    var s' := Next(s, Publish(k, accepted));
    NotInFlight(s, k);
    assert HubOk(s, h) && Inbox(s', h) == Inbox(s, h) && RelayOf(s', h) == RelayOf(s, h);
  }

  lemma PublishTag(s: State, k: nat, accepted: bool, i: nat)
    requires Inv(s) && Enabled(s, Publish(k, accepted)) && i < |s.core.fans|
    ensures TagOk(Next(s, Publish(k, accepted)), s.core.fans[i].tag)
  {
    NotInFlight(s, k);
    assert TagOk(s, s.core.fans[i].tag);
  }

  lemma PublishChannel(s: State, k: nat, accepted: bool)
    requires Inv(s) && Enabled(s, Publish(k, accepted))
    ensures var s' := Next(s, Publish(k, accepted));
            && OnePerSend(s'.channel) && (forall a | 0 <= a < |s'.channel| :: PacketOk(s', s'.channel[a]))
            && AllDistinct(s'.published) && (forall j | j in s'.published :: j < |s'.sends| && s'.sends[j].returned)
  {
    NotInFlight(s, k);
  }

  lemma PublishKeeps(s: State, k: nat, accepted: bool)
    requires Inv(s) && Enabled(s, Publish(k, accepted))
    ensures Inv(Next(s, Publish(k, accepted)))
  {
    var r, s' := Next(s, ReturnUnpublished(k)), Next(s, Publish(k, accepted));
    ReturnKeeps(s, k);
    PublishChannel(s, k, accepted);
    forall j | 0 <= j < |s'.sends|
      ensures SendOk(s', j)
    {
      OtherSends(r, s', j);
    }
    forall h: nat
      ensures HubOk(s', h)
    {
      PublishHub(s, k, accepted, h);
    }
    forall i | 0 <= i < |s'.core.fans|
      ensures TagOk(s', s'.core.fans[i].tag)
    {
      PublishTag(s, k, accepted, i);
    }
  }

  /** The send itself after it has come to one more user. */
  lemma NextUserSend(s: State, k: nat)
    requires Inv(s) && Enabled(s, NextUser(k))
    ensures SendOk(Next(s, NextUser(k)), k)
  {
    var d, s' := s.sends[k], Next(s, NextUser(k));
    var u := d.users[d.next];
    assert SendOk(s, k);
    assert d.users[..d.next + 1] == d.users[..d.next] + [u];
    if u !in d.unique {
      OneMoreDistinct(d.unique, u);
      NextUserFans(s, k);
    } else {
      assert s'.sends[k].fans == d.fans;
      forall x | 0 <= x < |d.fans|
        ensures FanOfSend(s', k, x)
      {
        assert FanOfSend(s, k, x);
      }
    }
  }

  lemma NextUserFans(s: State, k: nat)
    requires Inv(s) && Enabled(s, NextUser(k)) && s.sends[k].users[s.sends[k].next] !in s.sends[k].unique
    ensures var s' := Next(s, NextUser(k));
            |s'.sends[k].fans| == |s'.sends[k].unique| && forall x | 0 <= x < |s'.sends[k].fans| :: FanOfSend(s', k, x)
  {
    var d, s' := s.sends[k], Next(s, NextUser(k));
    assert SendOk(s, k);
    NextKeepsFans(s.core, Start(Tag(k, d.hub, d.users[d.next])));
    forall x | 0 <= x < |s'.sends[k].fans|
      ensures FanOfSend(s', k, x)
    {
      if x < |d.fans| {
        assert FanOfSend(s, k, x);
      }
    }
  }

  /** A user its send has not come to yet has no fan-out with that tag. */
  lemma NewTag(s: State, k: nat, u: User)
    requires Inv(s) && k < |s.sends| && !s.sends[k].returned && u !in s.sends[k].unique
    ensures forall i | 0 <= i < |s.core.fans| :: s.core.fans[i].tag != Tag(k, s.sends[k].hub, u)
  {
    forall i | 0 <= i < |s.core.fans|
      ensures s.core.fans[i].tag != Tag(k, s.sends[k].hub, u)
    {
      assert TagOk(s, s.core.fans[i].tag);
    }
  }

  /** What NextUser does to the other sends, the packets and the relays: nothing. */
  lemma NextUserFrame(s: State, k: nat)
    requires Inv(s) && Enabled(s, NextUser(k))
    ensures var s' := Next(s, NextUser(k));
            && (forall j | 0 <= j < |s'.sends| :: SendOk(s', j))
            && (forall i | 0 <= i < |s.core.fans| :: TagOk(s', s.core.fans[i].tag))
            && (forall a | 0 <= a < |s'.channel| :: PacketOk(s', s'.channel[a]))
            && (forall h: nat :: HubOk(s', h))
  {
    var d, s' := s.sends[k], Next(s, NextUser(k));
    NextKeepsFans(s.core, Start(Tag(k, d.hub, d.users[d.next])));
    PacketsStay(s, s');
    NextUserSend(s, k);
    forall j | 0 <= j < |s'.sends| && j != k
      ensures SendOk(s', j)
    {
      OtherSends(s, s', j);
    }
  }

  lemma NextUserKeeps(s: State, k: nat)
    requires Inv(s) && Enabled(s, NextUser(k))
    ensures Inv(Next(s, NextUser(k)))
  {
    var d, s' := s.sends[k], Next(s, NextUser(k));
    var tag := Tag(k, d.hub, d.users[d.next]);
    NextUserFrame(s, k);
    if tag.user !in d.unique {
      FanOut.NextKeepsInv(s.core, Start(tag));
      NewTag(s, k, tag.user);
      assert s'.core.fans[..|s.core.fans|] == s.core.fans;
      assert s'.core.fans[|s.core.fans|].tag == tag && TagOk(s', tag);
    }
  }

  /** Sends do not notice what becomes of packets and relays. */
  lemma AllSendsStay(s: State, s': State)
    requires Inv(s) && s'.sends == s.sends && FansKept(s.core, s'.core)
    ensures forall k | 0 <= k < |s'.sends| :: SendOk(s', k)
  {
    forall k | 0 <= k < |s'.sends|
      ensures SendOk(s', k)
    {
      OtherSends(s, s', k);
    }
  }

  lemma HandOffInbox(s: State, reached: set<nat>, h: nat)
    requires s.channel != []
    ensures Inbox(Next(s, HandOff(reached)), h) == Inbox(s, h) + if h in reached then [s.channel[0]] else []
  {
  }

  lemma ShorterChannel(channel: seq<Packet>, k: nat)
    requires channel != [] && Absent(channel, k)
    ensures Absent(channel[1..], k) && channel[0].send != k
  {
  }

  lemma HandOffInboxOk(s: State, s': State, inbox: seq<Packet>)
    requires s.channel != [] && OnePerSend(s.channel) && PacketOk(s, s.channel[0]) && InboxOk(s, inbox)
    requires s'.sends == s.sends && s'.published == s.published && s'.channel == s.channel[1..]
    ensures InboxOk(s', inbox) && InboxOk(s', inbox + [s.channel[0]])
  {
    forall a | 0 <= a < |inbox|
      ensures Absent(s'.channel, inbox[a].send) && inbox[a].send != s.channel[0].send
    {
      ShorterChannel(s.channel, inbox[a].send);
    }
  }

  lemma HandOffHub(s: State, s': State, h: nat, here: bool)
    requires Inv(s) && s.channel != []
    requires s'.sends == s.sends && s'.published == s.published && s'.channel == s.channel[1..] && s'.relay == s.relay
    requires Inbox(s', h) == Inbox(s, h) + if here then [s.channel[0]] else []
    ensures HubOk(s', h)
  {
    assert HubOk(s, h);
    HandOffInboxOk(s, s', Inbox(s, h));
    assert Inbox(s, h) + [] == Inbox(s, h);
    if RelayOf(s, h).Busy? {
      ShorterChannel(s.channel, RelayOf(s, h).packet.send);
    }
  }

  lemma HandOffTag(s: State, reached: set<nat>, i: nat)
    requires Inv(s) && s.channel != [] && i < |s.core.fans|
    ensures TagOk(Next(s, HandOff(reached)), s.core.fans[i].tag)
  {
    var tag := s.core.fans[i].tag;
    HandOffInbox(s, reached, tag.hub);
    assert TagOk(s, tag);
    if tag.hub != s.sends[tag.send].hub {
      ShorterChannel(s.channel, tag.send);
    }
  }

  lemma HandOffKeeps(s: State, reached: set<nat>)
    requires Inv(s) && s.channel != []
    ensures Inv(Next(s, HandOff(reached)))
  {
    var s' := Next(s, HandOff(reached));
    AllSendsStay(s, s');
    forall h: nat
      ensures HubOk(s', h)
    {
      HandOffInbox(s, reached, h);
      HandOffHub(s, s', h, h in reached);
    }
    forall i | 0 <= i < |s'.core.fans|
      ensures TagOk(s', s'.core.fans[i].tag)
    {
      HandOffTag(s, reached, i);
    }
  }

  /** A packet leaves a hub's inbox, for its relay or for nowhere. */
  ghost predicate Takes(s: State, s': State, h: nat, x: nat, relay: Relay) {
    && x < |Inbox(s, h)|
    && (relay == RelayOf(s, h)
        || (RelayOf(s, h).Idle? && Inbox(s, h)[x].origin != h && relay == Busy(Inbox(s, h)[x], [])))
    && s' == s.(inbox := s.inbox[h := Inbox(s, h)[..x] + Inbox(s, h)[x + 1..]], relay := s'.relay)
    && forall g: nat :: RelayOf(s', g) == if g == h then relay else RelayOf(s, g)
  }

  lemma TakeHub(s: State, s': State, h: nat, x: nat, relay: Relay, g: nat)
    requires Inv(s) && Takes(s, s', h, x, relay)
    ensures HubOk(s', g)
  {
    assert HubOk(s, g);
    if g != h {
      assert Inbox(s', g) == Inbox(s, g) && RelayOf(s', g) == RelayOf(s, g);
    } else {
      assert Inbox(s', h) == Inbox(s, h)[..x] + Inbox(s, h)[x + 1..];
      assert RelayOf(s', h) == relay;
    }
  }

  lemma TakeTag(s: State, s': State, h: nat, x: nat, relay: Relay, i: nat)
    requires Inv(s) && Takes(s, s', h, x, relay) && i < |s.core.fans|
    ensures TagOk(s', s.core.fans[i].tag)
  {
    assert TagOk(s, s.core.fans[i].tag) && HubOk(s, h);
  }

  lemma TakeKeeps(s: State, s': State, h: nat, x: nat, relay: Relay)
    requires Inv(s) && Takes(s, s', h, x, relay)
    ensures Inv(s')
  {
    forall g: nat
      ensures HubOk(s', g)
    {
      TakeHub(s, s', h, x, relay, g);
    }
    AllSendsStay(s, s');
    forall i | 0 <= i < |s'.core.fans|
      ensures TagOk(s', s'.core.fans[i].tag)
    {
      TakeTag(s, s', h, x, relay, i);
    }
  }

  lemma RelayUserHub(s: State, h: nat, g: nat)
    requires Inv(s) && Enabled(s, RelayUser(h))
    ensures HubOk(Next(s, RelayUser(h)), g)
  {
    assert HubOk(s, g);
  }

  lemma RelayUserTag(s: State, h: nat, i: nat)
    requires Inv(s) && Enabled(s, RelayUser(h)) && i < |s.core.fans|
    ensures var r := RelayOf(s, h);
            s.core.fans[i].tag != Tag(r.packet.send, h, r.packet.users[|r.fans|])
    ensures TagOk(Next(s, RelayUser(h)), s.core.fans[i].tag)
  {
    var r := RelayOf(s, h);
    assert HubOk(s, h) && TagOk(s, s.core.fans[i].tag) && SendOk(s, r.packet.send);
    assert r.packet.users[..|r.fans| + 1] == r.packet.users[..|r.fans|] + [r.packet.users[|r.fans|]];
  }

  lemma RelayUserNewTag(s: State, h: nat)
    requires Inv(s) && Enabled(s, RelayUser(h))
    ensures var r := RelayOf(s, h);
            TagOk(Next(s, RelayUser(h)), Tag(r.packet.send, h, r.packet.users[|r.fans|]))
  {
    var r := RelayOf(s, h);
    assert HubOk(s, h);
    assert r.packet.users[..|r.fans| + 1] == r.packet.users[..|r.fans|] + [r.packet.users[|r.fans|]];
  }

  lemma RelayUserKeeps(s: State, h: nat)
    requires Inv(s) && Enabled(s, RelayUser(h))
    ensures Inv(Next(s, RelayUser(h)))
  {
    var r, s' := RelayOf(s, h), Next(s, RelayUser(h));
    var tag := Tag(r.packet.send, h, r.packet.users[|r.fans|]);
    FanOut.NextKeepsInv(s.core, Start(tag));
    NextKeepsFans(s.core, Start(tag));
    AllSendsStay(s, s');
    forall g: nat
      ensures HubOk(s', g)
    {
      RelayUserHub(s, h, g);
    }
    RelayUserNewTag(s, h);
    forall i | 0 <= i < |s.core.fans|
      ensures TagOk(s', s.core.fans[i].tag) && s.core.fans[i].tag != tag
    {
      RelayUserTag(s, h, i);
    }
    assert forall a | 0 <= a < |s'.channel| :: PacketOk(s, s.channel[a]);
  }

  lemma RelayDoneKeeps(s: State, h: nat)
    requires Inv(s) && Enabled(s, RelayDone(h))
    ensures Inv(Next(s, RelayDone(h)))
  {
    var s' := Next(s, RelayDone(h));
    forall g: nat
      ensures HubOk(s', g)
    {
      assert HubOk(s, g);
    }
    AllSendsStay(s, s');
    forall i | 0 <= i < |s'.core.fans|
      ensures TagOk(s', s'.core.fans[i].tag)
    {
      assert TagOk(s, s.core.fans[i].tag);
    }
  }

  lemma NextKeepsInv(s: State, step: Step)
    requires Inv(s) && Enabled(s, step)
    ensures Inv(Next(s, step))
  {
    match step
    case Local(st) => LocalKeeps(s, st);
    case Begin(hub, users) => BeginKeeps(s, hub, users);
    case NextUser(k) => NextUserKeeps(s, k);
    case Publish(k, accepted) => PublishKeeps(s, k, accepted);
    case ReturnUnpublished(k) => ReturnKeeps(s, k);
    case HandOff(reached) => HandOffKeeps(s, reached);
    case Lose(h, x) =>
      TakeKeeps(s, Next(s, step), h, x, RelayOf(s, h));
    case Receive(h) =>
      assert Inbox(s, h)[..0] + Inbox(s, h)[1..] == Inbox(s, h)[1..];
      TakeKeeps(s, Next(s, step), h, 0, Next(s, step).relay[h]);
    case RelayUser(h) => RelayUserKeeps(s, h);
    case RelayDone(h) => RelayDoneKeeps(s, h);
  }

  // ---- Every interleaving ----

  ghost predicate IsExecution(ss: seq<State>, steps: seq<Step>) {
    && |ss| == |steps| + 1 && ss[0] == INITIAL
    && forall n {:trigger TakesStep(ss, steps, n)} | 0 <= n < |steps| :: TakesStep(ss, steps, n)
  }

  ghost predicate TakesStep(ss: seq<State>, steps: seq<Step>, n: nat)
    requires n < |steps| && n + 1 < |ss|
  {
    Enabled(ss[n], steps[n]) && ss[n + 1] == Next(ss[n], steps[n])
  }

  lemma {:induction false} ExecutionKeepsInv(ss: seq<State>, steps: seq<Step>, n: nat)
    requires IsExecution(ss, steps) && n <= |steps|
    ensures Inv(ss[n])
  {
    if n > 0 {
      ExecutionKeepsInv(ss, steps, n - 1);
      assert TakesStep(ss, steps, n - 1);
      NextKeepsInv(ss[n - 1], steps[n - 1]);
    }
  }

  /** Position `p` of the client's queue history is a copy of send `k`. */
  ghost predicate IsCopyOf(s: State, c: Client, p: nat, k: nat) {
    && c in s.core.clients && p < |s.core.clients[c].log|
    && s.core.clients[c].log[p].Copy? && s.core.clients[c].log[p].fan < |s.core.fans|
    && s.core.fans[s.core.clients[c].log[p].fan].tag.send == k
  }

  /**
   Across all replicas and interleavings, a send puts at most one copy of its event in any
   client's queue, and only in queues of users it lists.
   */
  lemma AtMostOneCopy(ss: seq<State>, steps: seq<Step>, n: nat, c: Client, p: nat, q: nat, k: nat)
    requires IsExecution(ss, steps) && n <= |steps|
    requires IsCopyOf(ss[n], c, p, k) && IsCopyOf(ss[n], c, q, k)
    ensures p == q && k < |ss[n].sends| && c.user in ss[n].sends[k].users
  {
    ExecutionKeepsInv(ss, steps, n);
    var s := ss[n];
    var log := s.core.clients[c].log;
    var i, j := log[p].fan, log[q].fan;
    assert ConnOk(s.core, c) && ItemOk(s.core, c, log[p]) && ItemOk(s.core, c, log[q]);
    assert FanOk(s.core, i) && FanOk(s.core, j);
    assert s.core.fans[i].tag == s.core.fans[j].tag;
    assert TagOk(s, s.core.fans[i].tag) && SendOk(s, k);
  }

  lemma {:induction false} CountedOnce(ks: seq<nat>, k: nat)
    requires AllDistinct(ks)
    ensures multiset(ks)[k] <= 1
  {
    if ks != [] {
      CountedOnce(ks[1..], k);
      assert ks == [ks[0]] + ks[1..];
    }
  }

  /** Every send is published at most once, whoever receives it: relayed events never are again. */
  lemma PublishedAtMostOnce(ss: seq<State>, steps: seq<Step>, n: nat, k: nat)
    requires IsExecution(ss, steps) && n <= |steps|
    ensures multiset(ss[n].published)[k] <= 1
  {
    ExecutionKeepsInv(ss, steps, n);
    CountedOnce(ss[n].published, k);
  }

  /**
   A client that was registered with the sending hub before a send began and still is when
   the send returns has been queued exactly one copy, if its user is listed.
   */
  lemma ExactlyOneLocalCopy(ss: seq<State>, steps: seq<Step>, n: nat, c: Client, k: nat)
    requires IsExecution(ss, steps) && n <= |steps|
    requires var s := ss[n];
             && k < |s.sends| && s.sends[k].returned
             && c in s.core.registered && c in s.core.clients && c.hub == s.sends[k].hub && c.user in s.sends[k].users
             && s.core.clients[c].since <= s.sends[k].began
    ensures exists p :: IsCopyOf(ss[n], c, p, k) && forall q | IsCopyOf(ss[n], c, q, k) :: q == p
  {
    ExecutionKeepsInv(ss, steps, n);
    var s, d := ss[n], ss[n].sends[k];
    assert SendOk(s, k) && d.users[..d.next] == d.users;
    var x :| 0 <= x < |d.unique| && d.unique[x] == c.user;
    assert FanOfSend(s, k, x);
    NoSilentLoss(s.core, d.fans[x], c);
    var p :| 0 <= p < |s.core.clients[c].log| && s.core.clients[c].log[p] == Copy(d.fans[x]);
    assert IsCopyOf(s, c, p, k);
    forall q | IsCopyOf(s, c, q, k)
      ensures q == p
    {
      AtMostOneCopy(ss, steps, n, c, p, q, k);
    }
  }

  /**
   At any hub, for any fan-out that is over, relayed or local: a client still registered
   that was registered when it started has its copy, so a missed event ends in eviction; and
   no queue ever holds more than its capacity.
   */
  lemma MissedMeansEvicted(ss: seq<State>, steps: seq<Step>, n: nat, i: nat, c: Client)
    requires IsExecution(ss, steps) && n <= |steps|
    requires var s := ss[n].core;
             && i < |s.fans| && s.fans[i].Over() && c in s.clients && s.clients[c].since <= i
             && c.hub == s.fans[i].tag.hub && c.user == s.fans[i].tag.user
    ensures var s := ss[n].core;
            && (Queued(s.clients[c], i) || c !in s.registered)
            && |s.clients[c].log| - s.clients[c].written <= CAPACITY
  {
    ExecutionKeepsInv(ss, steps, n);
    var s := ss[n].core;
    assert ConnOk(s, c);
    if c in s.registered {
      NoSilentLoss(s, i, c);
    }
  }

  /** Fan-outs that do not overlap reach every client in the order in which they ran. */
  lemma DeliveredInOrder(ss: seq<State>, steps: seq<Step>, n: nat, c: Client, i: nat, j: nat, p: nat, q: nat)
    requires IsExecution(ss, steps) && n <= |steps|
    requires var s := ss[n].core;
             && c in s.clients && i < |s.fans| && j < |s.fans| && i in s.fans[j].after
             && p < |s.clients[c].log| && q < |s.clients[c].log|
             && s.clients[c].log[p] == Copy(i) && s.clients[c].log[q] == Copy(j)
    ensures p < q
  {
    ExecutionKeepsInv(ss, steps, n);
    CopiesInOrder(ss[n].core, c, i, j, p, q);
  }
}
