/** The older presence server: the same registry, broadcast and handlers as the current
    one, but without signalling, so a `webrtc-signal` message is of no known type. */
module LegacyRegistry {
  import opened Protocol
  import opened Registry

  /** The message handler of one legacy connection: `join`, `move` and `leave` act as on the
      current server; any other message, including a signal and one that does not parse,
      changes nothing and sends nothing. */
  method HandleLegacyMessage(srv: Server, s: Socket, msg: ClientMessage, newId: UserId, colorRoll: real)
    requires srv.Valid() && s in srv.sessions && 0.0 <= colorRoll < 1.0
    modifies srv
    ensures srv.Valid()
    ensures msg.Join? ==>
              && srv.sessions == old(srv.sessions)[s := Some(newId)]
              && srv.users == old(srv.users)[newId := JoinedUser(newId, msg.name, |old(srv.users)|, colorRoll)]
              && srv.connections == old(srv.connections)[newId := s]
              && srv.order == (if newId in old(srv.users) then old(srv.order) else old(srv.order) + [newId])
              && srv.outbox == old(srv.outbox) + [Envelope(s, Init(newId, srv.users[newId], Values(srv.order, srv.users)))]
                               + Fanout(srv.order, srv.connections, srv.open, Some(newId), UserJoined(srv.users[newId]))
    ensures msg.Move? ==>
              var id := old(srv.sessions)[s];
              && srv.connections == old(srv.connections) && srv.order == old(srv.order)
              && if Truthy(id) && id.value in old(srv.users) then
                   var moved := old(srv.users)[id.value].(x := msg.x, y := msg.y);
                   && srv.users == old(srv.users)[id.value := moved]
                   && srv.outbox == old(srv.outbox) + Fanout(srv.order, srv.connections, srv.open, id, UserMoved(Some(moved)))
                 else
                   srv.users == old(srv.users) && srv.outbox == old(srv.outbox)
    ensures msg.Leave? ==>
              var id := old(srv.sessions)[s];
              if Truthy(id) then
                && srv.users == old(srv.users) - {id.value}
                && srv.connections == old(srv.connections) - {id.value}
                && srv.order == Without(old(srv.order), id.value)
                && srv.outbox == old(srv.outbox) + Fanout(srv.order, srv.connections, srv.open, None, UserLeft(id.value))
              else
                && srv.users == old(srv.users) && srv.connections == old(srv.connections)
                && srv.order == old(srv.order) && srv.outbox == old(srv.outbox)
    ensures msg.Join? ==> srv.open == old(srv.open)
    ensures !msg.Join? ==> srv.sessions == old(srv.sessions) && srv.open == old(srv.open)
    ensures (msg.Signal? || msg.Unrecognized? || msg.Unparsable?) ==>
              && srv.users == old(srv.users) && srv.connections == old(srv.connections)
              && srv.order == old(srv.order) && srv.outbox == old(srv.outbox)
  {
    match msg {
      case Join(name) => srv.Join(s, name, newId, colorRoll);
      case Move(x, y) => srv.Move(s, x, y);
      case Leave => srv.Leave(s);
      case Signal(_, _) =>
      case Unrecognized =>
      case Unparsable =>
    }
  }

  /** The legacy `close` handler: as on the current server, the connection's user (if it
      ever joined) leaves both maps and everyone still open hears `user-left`. */
  method HandleLegacyClose(srv: Server, s: Socket)
    requires srv.Valid() && s in srv.sessions
    modifies srv
    ensures srv.Valid()
    ensures srv.sessions == old(srv.sessions) && srv.open == old(srv.open) - {s}
    ensures var id := srv.sessions[s];
            if Truthy(id) then
              && srv.users == old(srv.users) - {id.value}
              && srv.connections == old(srv.connections) - {id.value}
              && srv.order == Without(old(srv.order), id.value)
              && srv.outbox == old(srv.outbox) +
                   Fanout(srv.order, srv.connections, srv.open, None, UserLeft(id.value))
            else
              && srv.users == old(srv.users) && srv.connections == old(srv.connections)
              && srv.order == old(srv.order) && srv.outbox == old(srv.outbox)
  {
    srv.Close(s);
  }

  /** On the older server too, a connection that joins and then closes leaves no trace of
      its user in either map. */
  method LegacyJoinThenClose(s: Socket, id: UserId) returns (registered: bool, remains: bool)
    requires id != ""
    ensures registered && !remains
  {
    var srv := new Server();
    srv.Connect(s);
    HandleLegacyMessage(srv, s, Join(None), id, 0.0);
    registered := id in srv.users && id in srv.connections;
    HandleLegacyClose(srv, s);
    remains := id in srv.users || id in srv.connections;
  }
}
