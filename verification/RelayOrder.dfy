/**
 The order and the completeness of relaying. The channel is first-in first-out and a relay
 finishes one packet before it takes the next, so what is published first reaches a remote
 hub's clients first; and a packet that reaches a hub and is not lost there is fanned out to
 every listed user.
 */
module RelayOrder {
  import opened Distinct
  import FanOut
  import opened Relaying

  /** One send was published before another. */
  ghost predicate Precedes(ks: seq<nat>, k: nat, l: nat) {
    exists x, y {:trigger ks[x], ks[y]} :: 0 <= x < y < |ks| && ks[x] == k && ks[y] == l
  }

  ghost predicate BeforeAll(ks: seq<nat>, k: nat, ps: seq<Packet>) {
    forall a | 0 <= a < |ps| :: Precedes(ks, k, ps[a].send)
  }

  ghost predicate Sorted(ks: seq<nat>, ps: seq<Packet>) {
    forall a, b | 0 <= a < b < |ps| :: Precedes(ks, ps[a].send, ps[b].send)
  }

  /** The packets a hub can still receive, in the order in which it would. */
  function Pending(s: State, h: nat): seq<Packet> {
    Inbox(s, h) + s.channel
  }

  predicate Remote(s: State, tag: FanOut.Tag) {
    tag.send < |s.sends| && tag.hub != s.sends[tag.send].hub
  }

  /** The fan-outs a relay has started are for its packet's users in turn, all over but the last. */
  ghost predicate RecordOk(s: State, h: nat, r: Relay)
    requires r.Busy?
  {
    && |r.fans| <= |r.packet.users|
    && forall x | 0 <= x < |r.fans| ::
         && r.fans[x] < |s.core.fans|
         && s.core.fans[r.fans[x]].tag == FanOut.Tag(r.packet.send, h, r.packet.users[x])
         && (x + 1 < |r.fans| ==> s.core.fans[r.fans[x]].Over())
  }

  ghost predicate HubOrder(s: State, h: nat) {
    && Sorted(s.published, Pending(s, h))
    && (RelayOf(s, h).Busy? ==>
          BeforeAll(s.published, RelayOf(s, h).packet.send, Pending(s, h)) && RecordOk(s, h, RelayOf(s, h)))
  }

  /** A relayed fan-out belongs to the packet being relayed, or to an earlier one and is over. */
  ghost predicate Placed(s: State, i: nat)
    requires i < |s.core.fans|
  {
    var f := s.core.fans[i];
    Remote(s, f.tag) ==>
      && f.tag.send in s.published && BeforeAll(s.published, f.tag.send, Pending(s, f.tag.hub))
      && match RelayOf(s, f.tag.hub)
         case Idle => f.Over()
         case Busy(p, _) => f.tag.send == p.send || (Precedes(s.published, f.tag.send, p.send) && f.Over())
  }

  /** Relayed fan-outs of different sends at one hub do not overlap and start in publication order. */
  ghost predicate InTurn(s: State, i: nat, j: nat)
    requires i < |s.core.fans| && j < |s.core.fans|
  {
    var f, g := s.core.fans[i], s.core.fans[j];
    Remote(s, f.tag) && Remote(s, g.tag) && f.tag.hub == g.tag.hub && f.tag.send != g.tag.send ==>
      Precedes(s.published, f.tag.send, g.tag.send) && i in g.after
  }

  ghost predicate OrderInv(s: State) {
    && (forall h: nat :: HubOrder(s, h))
    && (forall i | 0 <= i < |s.core.fans| :: Placed(s, i))
    && (forall i, j | 0 <= i < j < |s.core.fans| :: InTurn(s, i, j))
  }

  // ---- Publication order ----

  lemma PrecedesGrows(ks: seq<nat>, k: nat, l: nat, m: nat)
    requires Precedes(ks, k, l)
    ensures Precedes(ks + [m], k, l)
  {
    var x, y :| 0 <= x < y < |ks| && ks[x] == k && ks[y] == l;
    assert (ks + [m])[x] == k && (ks + [m])[y] == l;
  }

  lemma PrecedesNew(ks: seq<nat>, k: nat, m: nat)
    requires k in ks
    ensures Precedes(ks + [m], k, m)
  {
    var x :| 0 <= x < |ks| && ks[x] == k;
    assert (ks + [m])[x] == k && (ks + [m])[|ks|] == m;
  }

  lemma NotBoth(ks: seq<nat>, k: nat, l: nat)
    requires AllDistinct(ks) && Precedes(ks, k, l)
    ensures !Precedes(ks, l, k) && k != l
  {
    var x, y :| 0 <= x < y < |ks| && ks[x] == k && ks[y] == l;
    assert forall v | 0 <= v < |ks| && ks[v] == l :: v == y;
  }

  lemma BeforeAllGrows(ks: seq<nat>, k: nat, ps: seq<Packet>, m: nat)
    requires BeforeAll(ks, k, ps)
    ensures BeforeAll(ks + [m], k, ps)
  {
    forall a | 0 <= a < |ps|
      ensures Precedes(ks + [m], k, ps[a].send)
    {
      PrecedesGrows(ks, k, ps[a].send, m);
    }
  }

  /** Publishing may put the new packet last. */
  lemma PublishedLast(ks: seq<nat>, k: nat, ps: seq<Packet>, p: Packet)
    requires BeforeAll(ks, k, ps) && k in ks
    ensures BeforeAll(ks + [p.send], k, ps) && BeforeAll(ks + [p.send], k, ps + [p])
  {
    BeforeAllGrows(ks, k, ps, p.send);
    PrecedesNew(ks, k, p.send);
  }

  lemma SortedGrows(ks: seq<nat>, ps: seq<Packet>, p: Packet)
    requires Sorted(ks, ps) && forall a | 0 <= a < |ps| :: ps[a].send in ks
    ensures Sorted(ks + [p.send], ps) && Sorted(ks + [p.send], ps + [p])
  {
    forall a, b | 0 <= a < b < |ps|
      ensures Precedes(ks + [p.send], ps[a].send, ps[b].send)
    {
      PrecedesGrows(ks, ps[a].send, ps[b].send, p.send);
    }
    forall a | 0 <= a < |ps|
      ensures Precedes(ks + [p.send], ps[a].send, p.send)
    {
      PrecedesNew(ks, ps[a].send, p.send);
    }
  }

  function Drop(ps: seq<Packet>, x: nat): seq<Packet>
    requires x < |ps|
  {
    ps[..x] + ps[x + 1..]
  }

  lemma DropKeeps(ks: seq<nat>, ps: seq<Packet>, x: nat)
    requires x < |ps|
    ensures Sorted(ks, ps) ==> Sorted(ks, Drop(ps, x))
    ensures forall k :: BeforeAll(ks, k, ps) ==> BeforeAll(ks, k, Drop(ps, x))
  {
    var qs := Drop(ps, x);
    assert forall a | 0 <= a < |qs| :: qs[a] == ps[if a < x then a else a + 1];
  }

  // ---- Steps that touch neither packets nor relays ----

  ghost predicate Quiet(s: State, s': State) {
    && s'.channel == s.channel && s'.inbox == s.inbox && s'.relay == s.relay && s'.published == s.published
    && FanOut.FansKept(s.core, s'.core) && |s.sends| <= |s'.sends|
    && (forall k | 0 <= k < |s.sends| :: s'.sends[k].hub == s.sends[k].hub)
    && (forall i | |s.core.fans| <= i < |s'.core.fans| :: !Remote(s', s'.core.fans[i].tag))
  }

  lemma QuietKeeps(s: State, s': State)
    requires Relaying.Inv(s) && OrderInv(s) && Quiet(s, s')
    ensures OrderInv(s')
  {
    forall h: nat
      ensures HubOrder(s', h)
    {
      assert HubOrder(s, h);
    }
    forall i | 0 <= i < |s'.core.fans|
      ensures Placed(s', i)
    {
      if i < |s.core.fans| {
        assert Placed(s, i) && TagOk(s, s.core.fans[i].tag);
      }
    }
    forall i, j | 0 <= i < j < |s'.core.fans|
      ensures InTurn(s', i, j)
    {
      if j < |s.core.fans| {
        assert InTurn(s, i, j) && TagOk(s, s.core.fans[i].tag) && TagOk(s, s.core.fans[j].tag);
      }
    }
  }

  lemma IsQuiet(s: State, step: Step)
    requires Relaying.Inv(s) && Enabled(s, step)
    requires step.Local? || step.Begin? || step.NextUser? || step.ReturnUnpublished?
    ensures Quiet(s, Next(s, step))
  {
    match step
    case Local(st) => FanOut.NextKeepsFans(s.core, st);
    case Begin(_, _) =>
    case NextUser(k) =>
      FanOut.NextKeepsFans(s.core, FanOut.Start(FanOut.Tag(k, s.sends[k].hub, s.sends[k].users[s.sends[k].next])));
    case ReturnUnpublished(_) =>
  }

  // ---- Publishing ----

  /** Everything on its way, and everything that has arrived, was published before. */
  lemma PendingPublished(s: State, h: nat)
    requires Relaying.Inv(s)
    ensures forall a | 0 <= a < |Pending(s, h)| :: Pending(s, h)[a].send in s.published
    ensures RelayOf(s, h).Busy? ==> RelayOf(s, h).packet.send in s.published
  {
    assert HubOk(s, h);
  }

  lemma PublishHubOrder(s: State, s': State, p: Packet, h: nat, accepted: bool)
    requires Relaying.Inv(s) && HubOrder(s, h)
    requires s'.published == s.published + [p.send] && s'.core == s.core
    requires Pending(s', h) == Pending(s, h) + (if accepted then [p] else []) && RelayOf(s', h) == RelayOf(s, h)
    ensures HubOrder(s', h)
  {
    PendingPublished(s, h);
    SortedGrows(s.published, Pending(s, h), p);
    assert Pending(s, h) + [] == Pending(s, h);
    if RelayOf(s, h).Busy? {
      PublishedLast(s.published, RelayOf(s, h).packet.send, Pending(s, h), p);
    }
  }

  lemma PublishPlaced(s: State, s': State, p: Packet, i: nat, accepted: bool)
    requires i < |s.core.fans| && Placed(s, i) && TagOk(s, s.core.fans[i].tag)
    requires s'.published == s.published + [p.send] && s'.core == s.core && |s'.sends| == |s.sends|
    requires forall k | 0 <= k < |s.sends| :: s'.sends[k].hub == s.sends[k].hub
    requires var h := s.core.fans[i].tag.hub;
             Pending(s', h) == Pending(s, h) + (if accepted then [p] else []) && RelayOf(s', h) == RelayOf(s, h)
    ensures Placed(s', i)
  {
    var tag := s.core.fans[i].tag;
    if Remote(s, tag) {
      PublishedLast(s.published, tag.send, Pending(s, tag.hub), p);
      assert Pending(s, tag.hub) + [] == Pending(s, tag.hub);
      var r := RelayOf(s, tag.hub);
      if r.Busy? && tag.send != r.packet.send {
        PrecedesGrows(s.published, tag.send, r.packet.send, p.send);
      }
    }
  }

  lemma PublishPending(s: State, k: nat, accepted: bool, h: nat)
    requires Enabled(s, Publish(k, accepted))
    ensures var s', p := Next(s, Publish(k, accepted)), Packet(k, s.sends[k].hub, s.sends[k].unique);
            && Pending(s', h) == Pending(s, h) + (if accepted then [p] else [])
            && RelayOf(s', h) == RelayOf(s, h)
  {
  }

  lemma PublishKeepsOrder(s: State, k: nat, accepted: bool)
    requires Relaying.Inv(s) && OrderInv(s) && Enabled(s, Publish(k, accepted))
    ensures OrderInv(Next(s, Publish(k, accepted)))
  {
    var s', p := Next(s, Publish(k, accepted)), Packet(k, s.sends[k].hub, s.sends[k].unique);
    forall h: nat
      ensures HubOrder(s', h)
    {
      PublishPending(s, k, accepted, h);
      assert HubOrder(s, h);
      PublishHubOrder(s, s', p, h, accepted);
    }
    forall i | 0 <= i < |s'.core.fans|
      ensures Placed(s', i)
    {
      PublishPending(s, k, accepted, s.core.fans[i].tag.hub);
      PublishPlaced(s, s', p, i, accepted);
    }
    forall i, j | 0 <= i < j < |s'.core.fans|
      ensures InTurn(s', i, j)
    {
      assert InTurn(s, i, j);
      var a, b := s.core.fans[i].tag, s.core.fans[j].tag;
      if Precedes(s.published, a.send, b.send) {
        PrecedesGrows(s.published, a.send, b.send, k);
      }
    }
  }

  // ---- Packets moving, being lost, and being dropped at their origin ----

  /** Hub `h` may have one pending packet less. */
  ghost predicate Shrinks(s: State, s': State, h: nat) {
    && RelayOf(s', h) == RelayOf(s, h)
    && (Pending(s', h) == Pending(s, h)
        || exists x: nat :: x < |Pending(s, h)| && Pending(s', h) == Drop(Pending(s, h), x))
  }

  lemma ShrinksKeeps(s: State, s': State, h: nat)
    requires Shrinks(s, s', h) && s'.published == s.published
    ensures Sorted(s.published, Pending(s, h)) ==> Sorted(s.published, Pending(s', h))
    ensures forall k :: BeforeAll(s.published, k, Pending(s, h)) ==> BeforeAll(s.published, k, Pending(s', h))
  {
    if Pending(s', h) != Pending(s, h) {
      var x: nat :| x < |Pending(s, h)| && Pending(s', h) == Drop(Pending(s, h), x);
      DropKeeps(s.published, Pending(s, h), x);
    }
  }

  lemma MovingKeeps(s: State, s': State)
    requires OrderInv(s) && s'.core == s.core && s'.sends == s.sends && s'.published == s.published
    requires forall h: nat :: Shrinks(s, s', h)
    ensures OrderInv(s')
  {
    forall h: nat
      ensures HubOrder(s', h)
    {
      assert HubOrder(s, h) && Shrinks(s, s', h);
      ShrinksKeeps(s, s', h);
    }
    forall i | 0 <= i < |s'.core.fans|
      ensures Placed(s', i)
    {
      var h := s.core.fans[i].tag.hub;
      assert Placed(s, i) && Shrinks(s, s', h);
      ShrinksKeeps(s, s', h);
    }
    forall i, j | 0 <= i < j < |s'.core.fans|
      ensures InTurn(s', i, j)
    {
      assert InTurn(s, i, j);
    }
  }

  lemma HandOffShrinks(s: State, s': State, h: nat, here: bool)
    requires s.channel != [] && s'.channel == s.channel[1..] && RelayOf(s', h) == RelayOf(s, h)
    requires Inbox(s', h) == Inbox(s, h) + if here then [s.channel[0]] else []
    ensures Shrinks(s, s', h)
  {
    if here {
      assert Pending(s', h) == Pending(s, h);
    } else {
      assert Pending(s', h) == Drop(Pending(s, h), |Inbox(s, h)|);
    }
  }

  lemma TakingShrinks(s: State, s': State, h: nat, x: nat)
    requires x < |Inbox(s, h)| && Inbox(s', h) == Inbox(s, h)[..x] + Inbox(s, h)[x + 1..] && s'.channel == s.channel
    ensures Pending(s', h) == Drop(Pending(s, h), x)
  {
  }

  lemma HandOffKeepsOrder(s: State, reached: set<nat>)
    requires OrderInv(s) && s.channel != []
    ensures OrderInv(Next(s, HandOff(reached)))
  {
    var s' := Next(s, HandOff(reached));
    forall h: nat
      ensures Shrinks(s, s', h)
    {
      HandOffInbox(s, reached, h);
      HandOffShrinks(s, s', h, h in reached);
    }
    MovingKeeps(s, s');
  }

  lemma TakingKeepsOrder(s: State, s': State, h: nat, x: nat)
    requires OrderInv(s) && x < |Inbox(s, h)|
    requires s'.core == s.core && s'.sends == s.sends && s'.published == s.published && s'.channel == s.channel
    requires s'.inbox == s.inbox[h := Inbox(s, h)[..x] + Inbox(s, h)[x + 1..]]
    requires forall g: nat :: RelayOf(s', g) == RelayOf(s, g)
    ensures OrderInv(s')
  {
    TakingShrinks(s, s', h, x);
    forall g: nat
      ensures Shrinks(s, s', g)
    {
      assert g != h ==> Pending(s', g) == Pending(s, g);
    }
    MovingKeeps(s, s');
  }

  // ---- The relay ----

  lemma TakingUpHub(s: State, h: nat, g: nat)
    requires Relaying.Inv(s) && OrderInv(s) && Enabled(s, Receive(h)) && Inbox(s, h)[0].origin != h
    ensures HubOrder(Next(s, Receive(h)), g)
    ensures g != h ==> Pending(Next(s, Receive(h)), g) == Pending(s, g)
                       && RelayOf(Next(s, Receive(h)), g) == RelayOf(s, g)
  {
    var s', p := Next(s, Receive(h)), Inbox(s, h)[0];
    assert HubOrder(s, g);
    if g != h {
      assert Inbox(s', g) == Inbox(s, g) && RelayOf(s', g) == RelayOf(s, g);
    } else {
      assert Pending(s, h)[0] == p;
      assert Pending(s', h) == Pending(s, h)[1..] == Drop(Pending(s, h), 0);
      DropKeeps(s.published, Pending(s, h), 0);
      assert BeforeAll(s.published, p.send, Pending(s', h));
    }
  }

  lemma TakingUpPlaced(s: State, h: nat, i: nat)
    requires Relaying.Inv(s) && OrderInv(s) && Enabled(s, Receive(h)) && Inbox(s, h)[0].origin != h
    requires i < |s.core.fans|
    ensures Placed(Next(s, Receive(h)), i)
  {
    var s', g := Next(s, Receive(h)), s.core.fans[i].tag.hub;
    assert Placed(s, i) && HubOrder(s, h) && Pending(s, h)[0] == Inbox(s, h)[0];
    TakingUpHub(s, h, g);
    if g == h {
      assert Pending(s', h) == Pending(s, h)[1..];
    }
  }

  lemma TakingUpKeeps(s: State, h: nat)
    requires Relaying.Inv(s) && OrderInv(s) && Enabled(s, Receive(h)) && Inbox(s, h)[0].origin != h
    ensures OrderInv(Next(s, Receive(h)))
  {
    var s' := Next(s, Receive(h));
    forall g: nat
      ensures HubOrder(s', g)
    {
      TakingUpHub(s, h, g);
    }
    forall i | 0 <= i < |s'.core.fans|
      ensures Placed(s', i)
    {
      TakingUpPlaced(s, h, i);
    }
    forall i, j | 0 <= i < j < |s'.core.fans|
      ensures InTurn(s', i, j)
    {
      assert InTurn(s, i, j);
    }
  }

  /** Every fan-out of the packet being relayed is in the relay's record. */
  lemma InRecord(s: State, h: nat, i: nat)
    requires Relaying.Inv(s) && RelayOf(s, h).Busy? && RecordOk(s, h, RelayOf(s, h)) && i < |s.core.fans|
    requires Remote(s, s.core.fans[i].tag) && s.core.fans[i].tag.hub == h
    requires s.core.fans[i].tag.send == RelayOf(s, h).packet.send
    ensures i in RelayOf(s, h).fans
  {
    var r, tag := RelayOf(s, h), s.core.fans[i].tag;
    assert TagOk(s, tag);
    var x :| 0 <= x < |r.fans| && r.packet.users[..|r.fans|][x] == tag.user;
    assert s.core.fans[r.fans[x]].tag == tag;
  }

  lemma DonePlaced(s: State, h: nat, i: nat)
    requires Relaying.Inv(s) && OrderInv(s) && Enabled(s, RelayDone(h)) && i < |s.core.fans|
    ensures Placed(Next(s, RelayDone(h)), i)
  {
    var s', r, tag := Next(s, RelayDone(h)), RelayOf(s, h), s.core.fans[i].tag;
    assert HubOrder(s, h) && Placed(s, i) && Pending(s', tag.hub) == Pending(s, tag.hub);
    if Remote(s, tag) && tag.hub == h && tag.send == r.packet.send {
      InRecord(s, h, i);
    }
  }

  lemma DoneKeeps(s: State, h: nat)
    requires Relaying.Inv(s) && OrderInv(s) && Enabled(s, RelayDone(h))
    ensures OrderInv(Next(s, RelayDone(h)))
  {
    var s' := Next(s, RelayDone(h));
    forall g: nat
      ensures HubOrder(s', g)
    {
      assert HubOrder(s, g) && Pending(s', g) == Pending(s, g);
    }
    forall i | 0 <= i < |s'.core.fans|
      ensures Placed(s', i)
    {
      DonePlaced(s, h, i);
    }
    forall i, j | 0 <= i < j < |s'.core.fans|
      ensures InTurn(s', i, j)
    {
      assert InTurn(s, i, j);
    }
  }

  lemma RelayUserHubs(s: State, h: nat, g: nat)
    requires Relaying.Inv(s) && HubOrder(s, g) && Enabled(s, RelayUser(h))
    ensures HubOrder(Next(s, RelayUser(h)), g)
  {
    var s', r := Next(s, RelayUser(h)), RelayOf(s, h);
    FanOut.NextKeepsFans(s.core, FanOut.Start(FanOut.Tag(r.packet.send, h, r.packet.users[|r.fans|])));
    assert Pending(s', g) == Pending(s, g);
    assert g != h ==> RelayOf(s', g) == RelayOf(s, g);
  }

  lemma RelayUserPlaced(s: State, h: nat, i: nat)
    requires Relaying.Inv(s) && OrderInv(s) && Enabled(s, RelayUser(h)) && i <= |s.core.fans|
    ensures i < |Next(s, RelayUser(h)).core.fans| && Placed(Next(s, RelayUser(h)), i)
  {
    var s', r := Next(s, RelayUser(h)), RelayOf(s, h);
    assert HubOrder(s, h);
    PendingPublished(s, h);
    var g := s'.core.fans[i].tag.hub;
    assert Pending(s', g) == Pending(s, g);
    if i < |s.core.fans| {
      assert Placed(s, i);
    }
  }

  lemma RelayUserInTurn(s: State, h: nat, i: nat)
    requires Relaying.Inv(s) && OrderInv(s) && Enabled(s, RelayUser(h)) && i < |s.core.fans|
    ensures InTurn(Next(s, RelayUser(h)), i, |s.core.fans|)
  {
    assert Placed(s, i) && HubOrder(s, h);
  }

  lemma RelayUserKeepsOrder(s: State, h: nat)
    requires Relaying.Inv(s) && OrderInv(s) && Enabled(s, RelayUser(h))
    ensures OrderInv(Next(s, RelayUser(h)))
  {
    var s' := Next(s, RelayUser(h));
    forall g: nat
      ensures HubOrder(s', g)
    {
      assert HubOrder(s, g);
      RelayUserHubs(s, h, g);
    }
    forall i | 0 <= i < |s'.core.fans|
      ensures Placed(s', i)
    {
      RelayUserPlaced(s, h, i);
    }
    forall i, j | 0 <= i < j < |s'.core.fans|
      ensures InTurn(s', i, j)
    {
      if j < |s.core.fans| {
        assert InTurn(s, i, j);
      } else {
        RelayUserInTurn(s, h, i);
      }
    }
  }

  lemma NextKeepsOrder(s: State, step: Step)
    requires Relaying.Inv(s) && OrderInv(s) && Enabled(s, step)
    ensures OrderInv(Next(s, step))
  {
    var s' := Next(s, step);
    match step
    case Publish(k, accepted) => PublishKeepsOrder(s, k, accepted);
    case HandOff(reached) => HandOffKeepsOrder(s, reached);
    case Lose(h, x) => TakingKeepsOrder(s, s', h, x);
    case Receive(h) =>
      if Inbox(s, h)[0].origin != h {
        TakingUpKeeps(s, h);
      } else {
        assert Inbox(s, h)[..0] + Inbox(s, h)[1..] == Inbox(s, h)[1..];
        TakingKeepsOrder(s, s', h, 0);
      }
    case RelayUser(h) => RelayUserKeepsOrder(s, h);
    case RelayDone(h) => DoneKeeps(s, h);
    case _ =>
      IsQuiet(s, step);
      QuietKeeps(s, s');
  }

  lemma {:induction false} ExecutionKeepsOrder(ss: seq<State>, steps: seq<Step>, n: nat)
    requires IsExecution(ss, steps) && n <= |steps|
    ensures OrderInv(ss[n])
  {
    if n > 0 {
      ExecutionKeepsOrder(ss, steps, n - 1);
      ExecutionKeepsInv(ss, steps, n - 1);
      assert TakesStep(ss, steps, n - 1);
      NextKeepsOrder(ss[n - 1], steps[n - 1]);
    }
  }

  // ---- One moment and a later one ----

  /** What stays and what has been added between two moments of an execution. */
  ghost predicate Follows(s: State, s': State) {
    && FanOut.FansKept(s.core, s'.core)
    && (forall i, j | 0 <= i < |s.core.fans| <= j < |s'.core.fans| && s.core.fans[i].Over() :: i in s'.core.fans[j].after)
    && SendsFollow(s.sends, s'.sends)
    && s.published <= s'.published
    && (forall x | |s.published| <= x < |s'.published| :: NotYetReturned(s, s'.published[x]))
  }

  ghost predicate SendsFollow(ds: seq<Send>, ds': seq<Send>) {
    && |ds| <= |ds'|
    && forall k | 0 <= k < |ds| ::
         ds'[k].hub == ds[k].hub && ds'[k].users == ds[k].users && (ds[k].returned ==> ds'[k].returned)
  }

  predicate NotYetReturned(s: State, k: nat) {
    k < |s.sends| ==> !s.sends[k].returned
  }

  lemma FansFollow(s: State, step: Step)
    requires Enabled(s, step)
    ensures var s' := Next(s, step);
            && FanOut.FansKept(s.core, s'.core)
            && (forall i, j | 0 <= i < |s.core.fans| <= j < |s'.core.fans| && s.core.fans[i].Over() ::
                  i in s'.core.fans[j].after)
  {
    match step
    case Local(st) => FanOut.NextKeepsFans(s.core, st);
    case _ =>
  }

  lemma NextFollows(s: State, step: Step)
    requires Enabled(s, step)
    ensures Follows(s, Next(s, step))
  {
    FansFollow(s, step);
  }

  lemma FollowsOn(a: State, b: State, c: State)
    requires Follows(a, b) && Follows(b, c)
    ensures Follows(a, c)
  {
    forall i, j | 0 <= i < |a.core.fans| <= j < |c.core.fans| && a.core.fans[i].Over()
      ensures i in c.core.fans[j].after
    {
      assert j < |b.core.fans| ==> i in b.core.fans[j].after;
    }
    forall x | |a.published| <= x < |c.published|
      ensures NotYetReturned(a, c.published[x])
    {
      assert x < |b.published| ==> b.published[x] == c.published[x];
      assert x >= |b.published| ==> NotYetReturned(b, c.published[x]);
    }
  }

  lemma {:induction false} LaterFollows(ss: seq<State>, steps: seq<Step>, m: nat, n: nat)
    requires IsExecution(ss, steps) && m <= n <= |steps|
    ensures Follows(ss[m], ss[n])
    decreases n
  {
    if m < n {
      LaterFollows(ss, steps, m, n - 1);
      assert TakesStep(ss, steps, n - 1);
      NextFollows(ss[n - 1], steps[n - 1]);
      FollowsOn(ss[m], ss[n - 1], ss[n]);
    }
  }

  // ---- Order ----

  /** A queued copy comes from its send's fan-out for the client's user at the client's hub. */
  lemma CopyTag(s: State, c: FanOut.Client, p: nat, k: nat)
    requires Relaying.Inv(s) && IsCopyOf(s, c, p, k)
    ensures s.core.fans[s.core.clients[c].log[p].fan].tag == FanOut.Tag(k, c.hub, c.user) && k < |s.sends|
    ensures c.user in s.sends[k].unique && c.user in s.sends[k].users
  {
    var i := s.core.clients[c].log[p].fan;
    assert FanOut.ConnOk(s.core, c) && FanOut.ItemOk(s.core, c, s.core.clients[c].log[p]);
    assert FanOut.FanOk(s.core, i) && TagOk(s, s.core.fans[i].tag) && SendOk(s, k);
  }

  /** At a hub that neither comes from, of two sends the one published first arrives first, at every client. */
  lemma PublicationOrderKept(
    ss: seq<State>, steps: seq<Step>, n: nat, c: FanOut.Client, k: nat, l: nat, p: nat, q: nat)
    requires IsExecution(ss, steps) && n <= |steps|
    requires IsCopyOf(ss[n], c, p, k) && IsCopyOf(ss[n], c, q, l) && Precedes(ss[n].published, k, l)
    requires k < |ss[n].sends| && l < |ss[n].sends|
    requires c.hub != ss[n].sends[k].hub && c.hub != ss[n].sends[l].hub
    ensures p < q
  {
    var s := ss[n];
    ExecutionKeepsInv(ss, steps, n);
    ExecutionKeepsOrder(ss, steps, n);
    CopyTag(s, c, p, k);
    CopyTag(s, c, q, l);
    NotBoth(s.published, k, l);
    var i, j := s.core.clients[c].log[p].fan, s.core.clients[c].log[q].fan;
    assert i < j ==> InTurn(s, i, j);
    assert j < i ==> InTurn(s, j, i);
    FanOut.CopiesInOrder(s.core, c, i, j, p, q);
  }

  /** When a send returns, its fan-out for each listed user at its own hub is over. */
  lemma OwnFansOver(s: State, k: nat, u: FanOut.User) returns (i: nat)
    requires Relaying.Inv(s) && k < |s.sends| && s.sends[k].returned && u in s.sends[k].users
    ensures i < |s.core.fans| && s.core.fans[i].tag == FanOut.Tag(k, s.sends[k].hub, u) && s.core.fans[i].Over()
  {
    var d := s.sends[k];
    assert SendOk(s, k) && d.users[..d.next] == d.users;
    var x :| 0 <= x < |d.unique| && d.unique[x] == u;
    assert FanOfSend(s, k, x);
    i := d.fans[x];
  }

  /** Published sends that had returned at one moment precede those that began later. */
  lemma PublishedBefore(s: State, s': State, k: nat, l: nat)
    requires Relaying.Inv(s) && Follows(s, s') && k < |s.sends| <= l && s.sends[k].returned
    requires k in s'.published && l in s'.published
    ensures Precedes(s'.published, k, l)
  {
    var x :| 0 <= x < |s'.published| && s'.published[x] == k;
    var y :| 0 <= y < |s'.published| && s'.published[y] == l;
    assert x >= |s.published| ==> NotYetReturned(s, s'.published[x]);
    assert forall z | 0 <= z < |s.published| :: s.published[z] in s.published && s'.published[z] < |s.sends|;
  }

  /** No fan-out of a send that has not begun. */
  lemma BegunLater(s: State, s': State, l: nat, j: nat)
    requires Relaying.Inv(s) && Follows(s, s') && |s.sends| <= l && j < |s'.core.fans| && s'.core.fans[j].tag.send == l
    ensures |s.core.fans| <= j
  {
    assert forall i | 0 <= i < |s.core.fans| :: TagOk(s, s.core.fans[i].tag);
  }

  /**
   If send `k` has returned before send `l` begins, at the same hub or at another, then every
   client holding copies of both has that of `k` first, except at the hub where `l` begins
   when that is not where `k` came from: there the local fan-out does not wait for the relay.
   */
  lemma SendsArriveInOrder(
    ss: seq<State>, steps: seq<Step>, m: nat, n: nat, c: FanOut.Client, k: nat, l: nat, p: nat, q: nat)
    requires IsExecution(ss, steps) && m <= n <= |steps|
    requires k < |ss[m].sends| <= l < |ss[n].sends| && ss[m].sends[k].returned
    requires IsCopyOf(ss[n], c, p, k) && IsCopyOf(ss[n], c, q, l)
    requires c.hub == ss[m].sends[k].hub || c.hub != ss[n].sends[l].hub
    ensures p < q
  {
    var s, s' := ss[m], ss[n];
    ExecutionKeepsInv(ss, steps, m);
    ExecutionKeepsInv(ss, steps, n);
    LaterFollows(ss, steps, m, n);
    CopyTag(s', c, p, k);
    CopyTag(s', c, q, l);
    if c.hub == s.sends[k].hub {
      var i, j := s'.core.clients[c].log[p].fan, s'.core.clients[c].log[q].fan;
      var over := OwnFansOver(s, k, c.user);
      assert s'.core.fans[over].tag == s'.core.fans[i].tag;
      BegunLater(s, s', l, j);
      FanOut.CopiesInOrder(s'.core, c, i, j, p, q);
    } else {
      ExecutionKeepsOrder(ss, steps, n);
      assert Placed(s', s'.core.clients[c].log[p].fan) && Placed(s', s'.core.clients[c].log[q].fan);
      PublishedBefore(s, s', k, l);
      PublicationOrderKept(ss, steps, n, c, k, l, p, q);
    }
  }

  // ---- Completeness ----

  /** The packet waits at the hub or is being relayed there. */
  predicate Here(s: State, h: nat, k: nat) {
    !Absent(Inbox(s, h), k) || (RelayOf(s, h).Busy? && RelayOf(s, h).packet.send == k)
  }

  predicate Loses(s: State, step: Step, h: nat, k: nat) {
    step.Lose? && step.h == h && step.x < |Inbox(s, h)| && Inbox(s, h)[step.x].send == k
  }

  predicate Finishes(s: State, step: Step, h: nat, k: nat) {
    step == RelayDone(h) && RelayOf(s, h).Busy? && RelayOf(s, h).packet.send == k
  }

  lemma StillPresent(ps: seq<Packet>, x: nat, k: nat)
    requires x < |ps| && ps[x].send != k && !Absent(ps, k)
    ensures !Absent(ps[..x] + ps[x + 1..], k)
  {
    var a :| 0 <= a < |ps| && ps[a].send == k;
    assert (ps[..x] + ps[x + 1..])[if a < x then a else a - 1] == ps[a];
  }

  lemma PresentAfter(ps: seq<Packet>, qs: seq<Packet>, k: nat)
    requires !Absent(ps, k)
    ensures !Absent(ps + qs, k)
  {
    var a :| 0 <= a < |ps| && ps[a].send == k;
    assert (ps + qs)[a] == ps[a];
  }

  /** A packet stays at a hub until it is lost there or relayed there. */
  lemma StaysHere(s: State, step: Step, h: nat, k: nat)
    requires Relaying.Inv(s) && Enabled(s, step) && k < |s.sends| && s.sends[k].hub != h
    requires Here(s, h, k) && !Loses(s, step, h, k) && !Finishes(s, step, h, k)
    ensures Here(Next(s, step), h, k)
  {
    match step
    case HandOff(reached) =>
      HandOffInbox(s, reached, h);
      if !Absent(Inbox(s, h), k) {
        PresentAfter(Inbox(s, h), if h in reached then [s.channel[0]] else [], k);
      }
    case Lose(g, x) =>
      if g == h && !Absent(Inbox(s, h), k) {
        StillPresent(Inbox(s, h), x, k);
      }
    case Receive(g) =>
      if g == h {
        StaysReceived(s, h, k);
      }
    case _ =>
  }

  lemma StaysReceived(s: State, h: nat, k: nat)
    requires Relaying.Inv(s) && Enabled(s, Receive(h)) && k < |s.sends| && s.sends[k].hub != h && Here(s, h, k)
    ensures Here(Next(s, Receive(h)), h, k)
  {
    assert HubOk(s, h) && PacketOk(s, Inbox(s, h)[0]);
    if Inbox(s, h)[0].send != k {
      StillPresent(Inbox(s, h), 0, k);
      assert Inbox(s, h)[..0] + Inbox(s, h)[1..] == Inbox(s, h)[1..];
    }
  }

  /** Handed to the hub and not lost there, a packet is still there or its relay has finished. */
  lemma {:induction false} Whereabouts(ss: seq<State>, steps: seq<Step>, m: nat, n: nat, h: nat, k: nat) returns (a: nat)
    requires IsExecution(ss, steps) && m < n <= |steps| && HandedTo(ss[m], steps[m], h, k)
    requires k < |ss[m].sends| && ss[m].sends[k].hub != h
    requires forall b | m <= b < n :: !Loses(ss[b], steps[b], h, k)
    ensures Here(ss[n], h, k) || (m < a < n && Finishes(ss[a], steps[a], h, k))
    decreases n
  {
    a := n - 1;
    assert TakesStep(ss, steps, n - 1);
    if m == n - 1 {
      HandOffInbox(ss[m], steps[m].reached, h);
      assert Inbox(ss[n], h)[|Inbox(ss[m], h)|].send == k;
    } else {
      var b := Whereabouts(ss, steps, m, n - 1, h, k);
      if Here(ss[n - 1], h, k) {
        if !Finishes(ss[n - 1], steps[n - 1], h, k) {
          ExecutionKeepsInv(ss, steps, n - 1);
          LaterFollows(ss, steps, m, n - 1);
          StaysHere(ss[n - 1], steps[n - 1], h, k);
        }
      } else {
        a := b;
      }
    }
  }

  /** The broker hands the packet of send `k` to hub `h`. */
  predicate HandedTo(s: State, step: Step, h: nat, k: nat) {
    step.HandOff? && h in step.reached && s.channel != [] && s.channel[0].send == k
  }

  /** A relay that finishes a packet has fanned it out to each listed user. */
  lemma RelayedTo(s: State, h: nat, k: nat, u: FanOut.User) returns (i: nat)
    requires Relaying.Inv(s) && OrderInv(s) && Enabled(s, RelayDone(h)) && Finishes(s, RelayDone(h), h, k)
    requires k < |s.sends| && u in s.sends[k].users
    ensures i < |s.core.fans| && s.core.fans[i].tag == FanOut.Tag(k, h, u) && s.core.fans[i].Over()
  {
    var r, d := RelayOf(s, h), s.sends[k];
    assert HubOrder(s, h) && HubOk(s, h) && SendOk(s, k) && d.users[..d.next] == d.users;
    var x :| 0 <= x < |r.packet.users| && r.packet.users[x] == u;
    i := r.fans[x];
  }

  /** Before a packet reaches a hub, nothing of it has been fanned out there. */
  lemma NothingBefore(s: State, s': State, h: nat, k: nat, i: nat)
    requires Relaying.Inv(s) && Follows(s, s') && s.channel != [] && s.channel[0].send == k
    requires k < |s.sends| && s.sends[k].hub != h
    requires i < |s'.core.fans| && s'.core.fans[i].tag.send == k && s'.core.fans[i].tag.hub == h
    ensures |s.core.fans| <= i
  {
    assert forall j | 0 <= j < |s.core.fans| :: TagOk(s, s.core.fans[j].tag);
  }

  /**
   If the broker hands a packet to a remote hub, it is not lost there, and the hub is through
   with it, then every client of a listed user that was registered there when it was handed
   over and still is has exactly one copy.
   */
  lemma RemoteDelivery(ss: seq<State>, steps: seq<Step>, m: nat, n: nat, h: nat, k: nat, c: FanOut.Client)
    requires IsExecution(ss, steps) && m < n <= |steps| && HandedTo(ss[m], steps[m], h, k)
    requires k < |ss[m].sends| && ss[m].sends[k].hub != h
    requires (forall b | m <= b < n :: !Loses(ss[b], steps[b], h, k)) && !Here(ss[n], h, k)
    requires c.hub == h && c.user in ss[m].sends[k].users && c in ss[n].core.registered
    requires c in ss[n].core.clients && ss[n].core.clients[c].since <= |ss[m].core.fans|
    ensures exists p :: IsCopyOf(ss[n], c, p, k) && forall q | IsCopyOf(ss[n], c, q, k) :: q == p
  {
    var s := ss[n];
    var a := Whereabouts(ss, steps, m, n, h, k);
    ExecutionKeepsInv(ss, steps, m);
    ExecutionKeepsInv(ss, steps, a);
    ExecutionKeepsInv(ss, steps, n);
    ExecutionKeepsOrder(ss, steps, a);
    LaterFollows(ss, steps, m, a);
    LaterFollows(ss, steps, a, n);
    assert TakesStep(ss, steps, a);
    var i := RelayedTo(ss[a], h, k, c.user);
    NothingBefore(ss[m], ss[a], h, k, i);
    FanOut.NoSilentLoss(s.core, i, c);
    var p :| 0 <= p < |s.core.clients[c].log| && s.core.clients[c].log[p] == FanOut.Copy(i);
    assert IsCopyOf(s, c, p, k);
    forall q | IsCopyOf(s, c, q, k)
      ensures q == p
    {
      AtMostOneCopy(ss, steps, n, c, p, q, k);
    }
  }

  // ---- From publication to delivery ----

  /** An accepted publication puts one packet last in the channel: this send, this hub, each listed user once. */
  lemma PublishedReachesChannel(ss: seq<State>, steps: seq<Step>, n: nat, k: nat)
    requires IsExecution(ss, steps) && n < |steps| && steps[n] == Publish(k, true)
    ensures k < |ss[n].sends| && ss[n + 1].channel != []
    ensures |ss[n + 1].channel| == |ss[n].channel| + 1 && ss[n + 1].channel[..|ss[n].channel|] == ss[n].channel
    ensures var p := ss[n + 1].channel[|ss[n].channel|];
            && p.send == k && p.origin == ss[n].sends[k].hub && AllDistinct(p.users)
            && forall u :: u in p.users <==> u in ss[n].sends[k].users
  {
    assert TakesStep(ss, steps, n);
    ExecutionKeepsInv(ss, steps, n);
    var d := ss[n].sends[k];
    assert SendOk(ss[n], k) && d.users[..d.next] == d.users;
  }

  /** A refused one leaves the channel alone; either way the call returns. */
  lemma RefusedPublication(ss: seq<State>, steps: seq<Step>, n: nat, k: nat)
    requires IsExecution(ss, steps) && n < |steps|
    requires steps[n] == Publish(k, false) || steps[n] == ReturnUnpublished(k)
    ensures ss[n + 1].channel == ss[n].channel && k < |ss[n + 1].sends| && ss[n + 1].sends[k].returned
  {
    assert TakesStep(ss, steps, n);
  }

  lemma StaysInChannel(s: State, step: Step, k: nat)
    requires Enabled(s, step) && !Absent(s.channel, k) && !(step.HandOff? && s.channel[0].send == k)
    ensures !Absent(Next(s, step).channel, k)
  {
    var a :| 0 <= a < |s.channel| && s.channel[a].send == k;
    if step.HandOff? {
      assert Next(s, step).channel[a - 1].send == k;
    } else if step.Publish? {
      assert Next(s, step).channel[a].send == k;
    }
  }

  /** What was published is still in the channel or has been handed off. */
  lemma {:induction false} HandedOff(ss: seq<State>, steps: seq<Step>, m: nat, n: nat, k: nat) returns (a: nat)
    requires IsExecution(ss, steps) && m < n <= |steps| && steps[m] == Publish(k, true)
    ensures !Absent(ss[n].channel, k)
         || (m < a < n && steps[a].HandOff? && ss[a].channel != [] && ss[a].channel[0].send == k)
    decreases n
  {
    a := n - 1;
    assert TakesStep(ss, steps, n - 1);
    if m == n - 1 {
      PublishedReachesChannel(ss, steps, m, k);
    } else {
      var b := HandedOff(ss, steps, m, n - 1, k);
      if Absent(ss[n - 1].channel, k) {
        a := b;
      } else if !(steps[n - 1].HandOff? && ss[n - 1].channel[0].send == k) {
        StaysInChannel(ss[n - 1], steps[n - 1], k);
      }
    }
  }

  /**
   From end to end: once the broker has accepted a send's event and handed it to hub `h`, and
   unless it is lost there, every client of a listed user registered at `h` since the
   publication has exactly one copy when `h` is through with it.
   */
  lemma PublishedIsDelivered(ss: seq<State>, steps: seq<Step>, m: nat, n: nat, h: nat, k: nat, c: FanOut.Client)
    requires IsExecution(ss, steps) && m < n <= |steps| && steps[m] == Publish(k, true)
    requires k < |ss[m].sends| && ss[m].sends[k].hub != h
    requires forall a | m <= a < n && steps[a].HandOff? && ss[a].channel != [] && ss[a].channel[0].send == k :: h in steps[a].reached
    requires forall b | m <= b < n :: !Loses(ss[b], steps[b], h, k)
    requires Absent(ss[n].channel, k) && !Here(ss[n], h, k)
    requires c.hub == h && c.user in ss[m].sends[k].users && c in ss[n].core.registered
    requires c in ss[n].core.clients && ss[n].core.clients[c].since <= |ss[m].core.fans|
    ensures exists p :: IsCopyOf(ss[n], c, p, k) && forall q | IsCopyOf(ss[n], c, q, k) :: q == p
  {
    var a := HandedOff(ss, steps, m, n, k);
    LaterFollows(ss, steps, m, a);
    RemoteDelivery(ss, steps, a, n, h, k, c);
  }
}
