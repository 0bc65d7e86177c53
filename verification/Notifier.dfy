/**
 Who gets an event: the members of the chat, without the reader for a read position, and the
 sender's own connection first of all when it sent the message. `members` is what the chat
 service returned, None if the current user has no access.
 */
module Notifications {
  import opened Options
  import opened Distinct
  import opened FanOut
  import opened Hubs

  function Others(users: seq<User>, current: User): (r: seq<User>)
    ensures forall u :: u in r <==> u in users && u != current
  {
    if users == [] then []
    else
      var last := users[|users| - 1];
      Others(users[..|users| - 1], current) + if last == current then [] else [last]
  }

  /** Whom an event is for: nobody, if the current user has no access. */
  function Audience(members: Option<seq<User>>): seq<User> {
    if members.Some? then members.value else []
  }

  /** The clients with one of them, if it is among them, holding another queue. */
  ghost function Answered(q: Links, client: Connection, queue: seq<Payload>): Links {
    if client in q then q[client := Link(queue, q[client].closed)] else q
  }

  class MessageNotifier {
    const hub: Hub

    constructor (hub: Hub)
      ensures this.hub == hub
    {
      this.hub := hub;
    }

    /** Every member's clients get the event, the current user's included; the slow ones are evicted. */
    method NotifyChat(members: Option<seq<User>>, event: Payload) returns (ok: bool, ghost evicted: set<Connection>)
      requires hub.Valid()
      modifies hub`clients, hub.All()`send, hub.All()`closed
      modifies if hub.publisher != null then {hub.publisher.broker} else {}
      ensures ok <==> members.Some?
      ensures Told(old(LinksOf(hub.All())), LinksOf(old(hub.All())), Audience(members), event, evicted)
      ensures hub.Valid() && hub.clients == Without(old(hub.clients), evicted)
      ensures Channel(hub.publisher)
           == old(Channel(hub.publisher) + Publication(hub.publisher, Audience(members), event))
    {
      ok, evicted := members.Some?, {};
      if !ok {
        WithoutKeepsTidy(hub.clients, {});
        return;
      }
      var users := [];
      for i := 0 to |members.value|
        invariant users == members.value[..i]
      {
        users := users + [members.value[i]];
      }
      assert members.value[..|members.value|] == members.value;
      evicted := hub.SendToUsers(users, event);
    }

    /** A read position goes to the other members only. */
    method NotifyReadUpdated(current: User, members: Option<seq<User>>, event: Payload)
      returns (ok: bool, ghost evicted: set<Connection>)
      requires hub.Valid()
      modifies hub`clients, hub.All()`send, hub.All()`closed
      modifies if hub.publisher != null then {hub.publisher.broker} else {}
      ensures ok <==> members.Some?
      ensures var users := Others(Audience(members), current);
              Told(old(LinksOf(hub.All())), LinksOf(old(hub.All())), users, event, evicted)
      ensures hub.Valid() && hub.clients == Without(old(hub.clients), evicted)
      ensures Channel(hub.publisher)
           == old(Channel(hub.publisher) + Publication(hub.publisher, Others(Audience(members), current), event))
    {
      ok, evicted := members.Some?, {};
      if !ok {
        WithoutKeepsTidy(hub.clients, {});
        return;
      }
      var users := [];
      for i := 0 to |members.value|
        invariant users == Others(members.value[..i], current)
      {
        assert members.value[..i + 1][..i] == members.value[..i];
        if members.value[i] != current {
          users := users + [members.value[i]];
        }
      }
      assert members.value[..|members.value|] == members.value;
      evicted := hub.SendToUsers(users, event);
    }

    /** The reply to the connection itself, as seen among the hub's clients. */
    method Acknowledge(client: Connection, ack: Payload) returns (ghost acked: Links)
      requires hub.Valid()
      modifies client`send
      ensures client.send == Offered(old(client.send), ack)
      ensures hub.All() == old(hub.All()) && acked == LinksOf(hub.All())
      ensures acked == Answered(old(LinksOf(hub.All())), client, Offered(old(client.send), ack))
      ensures hub.Valid() && Channel(hub.publisher) == old(Channel(hub.publisher))
    {
      ghost var all := hub.All();
      if client in all {
        LinksSplit(all, client);
      }
      ghost var rest := LinksOf(all - {client});
      var _ := client.Send(ack);
      acked := LinksOf(all);
      if client in all {
        LinksSplit(all, client);
        assert LinksOf(all - {client}) == rest;
      } else {
        assert all - {client} == all;
      }
    }

    /**
     After a message was stored: the acknowledgement to the sending connection, then the
     broadcast. The sender's own queue therefore has the acknowledgement before the event.
     */
    method AcknowledgeAndBroadcast(client: Connection, members: Option<seq<User>>, ack: Payload, event: Payload)
      returns (ghost acked: Links, ghost evicted: set<Connection>)
      requires hub.Valid()
      modifies client`send, hub`clients, hub.All()`send, hub.All()`closed
      modifies if hub.publisher != null then {hub.publisher.broker} else {}
      ensures acked == Answered(old(LinksOf(hub.All())), client, Offered(old(client.send), ack))
      ensures Told(acked, LinksOf(old(hub.All())), Audience(members), event, evicted)
      ensures client !in old(hub.All()) ==> client.send == Offered(old(client.send), ack)
      ensures hub.Valid() && hub.clients == Without(old(hub.clients), evicted)
      ensures Channel(hub.publisher)
           == old(Channel(hub.publisher) + Publication(hub.publisher, Audience(members), event))
    {
      ghost var users, published := Audience(members), Publication(hub.publisher, Audience(members), event);
      acked := Acknowledge(client, ack);
      assert Publication(hub.publisher, users, event) == published;
      var ok;
      ok, evicted := NotifyChat(members, event);
    }
  }
}
