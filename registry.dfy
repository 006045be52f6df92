/** The presence server: a registry of users and their connections, and the message protocol
    that keeps every client's view of the registry up to date. */
module Registry {
  import opened Protocol

  /** A socket, by handle. Whether it is open is tracked by the server's `open` set. */
  type Socket = nat

  /** One `ws.send`: the socket written to and the message written. */
  datatype Envelope = Envelope(to: Socket, msg: ServerMessage)

  // ---------------------------------------------------------------- small rules

  /** JavaScript truthiness of an optional string: present and not empty. */
  predicate Truthy(s: Option<string>) {
    s.Some? && s.value != ""
  }

  /** The eight avatar colours of `generateColor`. */
  const Palette: seq<string> :=
    ["#FF6B6B", "#4ECDC4", "#45B7D1", "#FFA07A", "#98D8C8", "#F7DC6F", "#BB8FCE", "#85C1E2"]

  /** `colors[Math.floor(Math.random() * colors.length)]`, with the random fraction given. */
  function ColorFor(roll: real): (c: string)
    requires 0.0 <= roll < 1.0
    ensures c in Palette
  {
    var k := (roll * (|Palette| as real)).Floor;
    Palette[k]
  }

  function DigitChar(d: nat): char
    requires d < 10
  {
    "0123456789"[d]
  }

  predicate IsDigit(c: char) {
    '0' <= c <= '9'
  }

  /** The decimal numeral of `n`, as a template literal prints it. */
  function Decimal(n: nat): (s: string)
    ensures |s| >= 1 && forall i :: 0 <= i < |s| ==> IsDigit(s[i])
    ensures s[0] == '0' ==> n == 0
  {
    if n < 10 then [DigitChar(n)] else Decimal(n / 10) + [DigitChar(n % 10)]
  }

  /** The value of a string of decimal digits. */
  function DecimalValue(s: string): nat
    requires forall i :: 0 <= i < |s| ==> IsDigit(s[i])
  {
    if s == [] then 0
    else
      var d := s[|s| - 1];
      assert IsDigit(d);
      DecimalValue(s[..|s| - 1]) * 10 + ((d as int) - ('0' as int))
  }

  /** Reading back the numeral gives the number. */
  lemma {:induction false} DecimalRoundTrip(n: nat)
    ensures DecimalValue(Decimal(n)) == n
  {
    var s := Decimal(n);
    if n >= 10 {
      DecimalRoundTrip(n / 10);
      assert s[..|s| - 1] == Decimal(n / 10);
    }
  }

  /** `message.name || \`User${users.size + 1}\``: the chosen name unless it is missing or
      empty; otherwise "User" followed by digits that read back as the registry size after
      the join. */
  function DisplayName(name: Option<string>, count: nat): (r: string)
    ensures Truthy(name) ==> r == name.value
    ensures !Truthy(name) ==>
              && |r| > 4 && r[..4] == "User" && (forall i :: 4 <= i < |r| ==> IsDigit(r[i]))
              && r[4] != '0' && DecimalValue(r[4..]) == count + 1
  {
    if Truthy(name) then name.value
    else
      var r := "User" + Decimal(count + 1);
      assert r[4..] == Decimal(count + 1);
      DecimalRoundTrip(count + 1);
      r
  }

  /** The user a `join` creates: the generated id, the chosen name or the fallback, the
      origin, and one of the palette colours. */
  function JoinedUser(id: UserId, name: Option<string>, count: nat, colorRoll: real): (u: User)
    requires 0.0 <= colorRoll < 1.0
    ensures u.id == id && u.x == 0.0 && u.y == 0.0 && u.color in Palette
    ensures u.name == DisplayName(name, count)
  {
    User(id, DisplayName(name, count), 0.0, 0.0, ColorFor(colorRoll))
  }

  // ---------------------------------------------------------------- ordered maps

  predicate Distinct<T(==)>(s: seq<T>) {
    forall i, j :: 0 <= i < j < |s| ==> s[i] != s[j]
  }

  /** `map.delete(id)` on the key order: every other key keeps its place. */
  function Without(order: seq<UserId>, id: UserId): (r: seq<UserId>)
    ensures forall x :: x in r <==> x in order && x != id
    ensures Distinct(order) ==> Distinct(r)
  {
    if order == [] then []
    else
      var rest := Without(order[1..], id);
      assert forall x :: x in order ==> x == order[0] || x in order[1..];
      assert Distinct(order) ==> Distinct(order[1..]) && order[0] !in order[1..];
      if order[0] == id then rest else [order[0]] + rest
  }

  /** `Array.from(users.values())`: the users in key order. */
  function Values(order: seq<UserId>, users: map<UserId, User>): (us: seq<User>)
    requires forall id :: id in order ==> id in users
    ensures |us| == |order|
    ensures forall k :: 0 <= k < |order| ==> us[k] == users[order[k]]
  {
    if order == [] then [] else [users[order[0]]] + Values(order[1..], users)
  }

  // ---------------------------------------------------------------- fan-out

  /** Whether `broadcast(..., exclude)` writes to the connection registered under `id`. */
  predicate Receives(connections: map<UserId, Socket>, open: set<Socket>, exclude: Option<UserId>, id: UserId) {
    id in connections && Some(id) != exclude && connections[id] in open
  }

  /** The ids `broadcast` writes to, in key order. */
  function FanoutIds(order: seq<UserId>, connections: map<UserId, Socket>, open: set<Socket>,
                     exclude: Option<UserId>): (ids: seq<UserId>)
    ensures forall id :: id in ids <==> id in order && Receives(connections, open, exclude, id)
    ensures Distinct(order) ==> Distinct(ids)
  {
    if order == [] then []
    else
      var init := order[..|order| - 1];
      var last := order[|order| - 1];
      var rest := FanoutIds(init, connections, open, exclude);
      assert forall x :: x in order <==> x in init || x == last;
      assert Distinct(order) ==> Distinct(init) && last !in init;
      rest + (if Receives(connections, open, exclude, last) then [last] else [])
  }

  /** One envelope per id, to that id's socket. */
  function Deliver(ids: seq<UserId>, connections: map<UserId, Socket>, msg: ServerMessage): (es: seq<Envelope>)
    requires forall id :: id in ids ==> id in connections
    ensures |es| == |ids|
    ensures forall k :: 0 <= k < |ids| ==> es[k] == Envelope(connections[ids[k]], msg)
  {
    if ids == [] then []
    else Deliver(ids[..|ids| - 1], connections, msg) + [Envelope(connections[ids[|ids| - 1]], msg)]
  }

  /** The envelopes `broadcast(msg, exclude)` writes, in key order. */
  function Fanout(order: seq<UserId>, connections: map<UserId, Socket>, open: set<Socket>,
                  exclude: Option<UserId>, msg: ServerMessage): seq<Envelope>
  {
    if order == [] then []
    else
      var last := order[|order| - 1];
      Fanout(order[..|order| - 1], connections, open, exclude, msg) +
      (if Receives(connections, open, exclude, last) then [Envelope(connections[last], msg)] else [])
  }

  /** Looking at one more id in key order. */
  lemma FanoutStep(order: seq<UserId>, id: UserId, connections: map<UserId, Socket>, open: set<Socket>,
                   exclude: Option<UserId>, msg: ServerMessage)
    ensures Fanout(order + [id], connections, open, exclude, msg) ==
            Fanout(order, connections, open, exclude, msg) +
            (if Receives(connections, open, exclude, id) then [Envelope(connections[id], msg)] else [])
  {
    assert (order + [id])[..|order|] == order;
  }

  /** The fan-out is one envelope to each receiving id, in key order. */
  lemma {:induction false} FanoutIsDeliver(order: seq<UserId>, connections: map<UserId, Socket>, open: set<Socket>,
                                           exclude: Option<UserId>, msg: ServerMessage)
    ensures Fanout(order, connections, open, exclude, msg) ==
            Deliver(FanoutIds(order, connections, open, exclude), connections, msg)
  {
    if order != [] {
      var init, last := order[..|order| - 1], order[|order| - 1];
      FanoutIsDeliver(init, connections, open, exclude, msg);
      var rest := FanoutIds(init, connections, open, exclude);
      if Receives(connections, open, exclude, last) {
        assert (rest + [last])[..|rest|] == rest;
      } else {
        assert rest + [] == rest;
        assert Fanout(order, connections, open, exclude, msg) ==
               Fanout(init, connections, open, exclude, msg) + [];
      }
    }
  }

  /** The ids that receive a broadcast: every registered id but the excluded one whose socket is open. */
  ghost function Recipients(connections: map<UserId, Socket>, open: set<Socket>, exclude: Option<UserId>): set<UserId> {
    set id | id in connections && Receives(connections, open, exclude, id)
  }

  /** A broadcast over the registry's key order writes exactly once to every recipient and to
      nobody else, and each write carries the message unchanged. */
  lemma FanoutExactlyOnce(order: seq<UserId>, connections: map<UserId, Socket>, open: set<Socket>,
                          exclude: Option<UserId>, msg: ServerMessage)
    requires Distinct(order) && (forall id :: id in order <==> id in connections)
    ensures var ids := FanoutIds(order, connections, open, exclude);
            && Distinct(ids)
            && (forall id :: id in ids <==> id in Recipients(connections, open, exclude))
            && |ids| == |Recipients(connections, open, exclude)|
            && Fanout(order, connections, open, exclude, msg) == Deliver(ids, connections, msg)
  {
    var ids := FanoutIds(order, connections, open, exclude);
    DistinctCard(ids, Recipients(connections, open, exclude));
    FanoutIsDeliver(order, connections, open, exclude, msg);
  }

  lemma {:induction false} DistinctCard<T>(s: seq<T>, elems: set<T>)
    requires Distinct(s) && forall x :: x in s <==> x in elems
    ensures |s| == |elems|
  {
    if s != [] {
      var rest := s[1..];
      assert forall x :: x in rest ==> x in s;
      assert s[0] !in rest;
      assert forall x :: x in rest <==> x in elems - {s[0]};
      DistinctCard(rest, elems - {s[0]});
    }
  }

  // ---------------------------------------------------------------- the server

  /** The module-level state of the server. `sessions` holds, per connected socket, the
      connection's own `userId` variable (`None` until its first `join`); `order` is the key
      order of `users` and `connections` (both are always changed together, so it is one
      order); `outbox` records every write in sequence. */
  class Server {
    var users: map<UserId, User>
    var connections: map<UserId, Socket>
    var order: seq<UserId>
    var sessions: map<Socket, Option<UserId>>
    var open: set<Socket>
    var outbox: seq<Envelope>

    /** The two maps have the same keys, each user is filed under its own id, and `order`
        lists each key once. */
    ghost predicate Valid()
      reads this`users, this`connections, this`order
    {
      && users.Keys == connections.Keys
      && (forall id :: id in users ==> users[id].id == id)
      && Distinct(order)
      && (forall id :: id in order <==> id in users)
    }

    constructor ()
      ensures Valid()
      ensures users == map[] && connections == map[] && order == []
      ensures sessions == map[] && open == {} && outbox == []
    {
      users := map[];
      connections := map[];
      order := [];
      sessions := map[];
      open := {};
      outbox := [];
    }

    /** `Array.from(users.values())`. */
    function Snapshot(): (us: seq<User>)
      reads this`users, this`connections, this`order
      requires Valid()
      ensures |us| == |users|
      ensures forall u :: u in us <==> exists id :: id in users && users[id] == u
    {
      var us := Values(order, users);
      DistinctCard(order, users.Keys);
      assert forall u :: u in us <==> exists k :: 0 <= k < |order| && users[order[k]] == u;
      forall u | exists id :: id in users && users[id] == u ensures u in us {
        var id :| id in users && users[id] == u;
        var k :| 0 <= k < |order| && order[k] == id;
        assert us[k] == u;
      }
      us
    }

    /** A new socket: its connection has no user yet, and the socket is open. */
    method Connect(s: Socket)
      requires Valid() && s !in sessions
      modifies this
      ensures Valid()
      ensures sessions == old(sessions)[s := None] && open == old(open) + {s}
      ensures users == old(users) && connections == old(connections) && order == old(order)
      ensures outbox == old(outbox)
    {
      sessions := sessions[s := None];
      open := open + {s};
    }

    /** `broadcast(message, excludeId)`: a write to every registered connection whose id is
        not excluded and whose socket is open, in key order, and no change to the registry.
        The writes are collected in order and appended to the outbox together. */
    method Broadcast(msg: ServerMessage, exclude: Option<UserId>)
      modifies this`outbox
      ensures outbox == old(outbox) + Fanout(order, connections, open, exclude, msg)
    {
      var keys, conns, live := order, connections, open;
      var writes: seq<Envelope> := [];
      for i := 0 to |keys|
        invariant writes == Fanout(keys[..i], conns, live, exclude, msg)
        invariant outbox == old(outbox)
      {
        var id := keys[i];
        assert keys[..i + 1] == keys[..i] + [id];
        FanoutStep(keys[..i], id, conns, live, exclude, msg);
        if id in conns && Some(id) != exclude && conns[id] in live {
          writes := writes + [Envelope(conns[id], msg)];
        }
      }
      assert keys[..|keys|] == keys;
      outbox := outbox + writes;
    }

    /** The `join` case: the connection takes the id `newId` (the generated one), the user
        is registered at the origin with a palette colour, the joiner alone receives `init`
        with a snapshot that already holds it, and everyone else gets `user-joined`. */
    method Join(s: Socket, name: Option<string>, newId: UserId, colorRoll: real)
      requires Valid() && s in sessions && 0.0 <= colorRoll < 1.0
      modifies this`sessions, this`users, this`connections, this`order, this`outbox
      ensures Valid()
      ensures sessions == old(sessions)[s := Some(newId)] && open == old(open)
      ensures users == old(users)[newId := JoinedUser(newId, name, |old(users)|, colorRoll)]
      ensures connections == old(connections)[newId := s]
      ensures order == if newId in old(users) then old(order) else old(order) + [newId]
      ensures outbox == old(outbox) + [Envelope(s, Init(newId, users[newId], Values(order, users)))]
                        + Fanout(order, connections, open, Some(newId), UserJoined(users[newId]))
    {
      var user := JoinedUser(newId, name, |users|, colorRoll);
      Enroll(s, newId, user);
      Greet(s, newId);
    }

    /** `users.set`, `connections.set` and `userId = id`: the registry files the user and the
        connection remembers its id. */
    method Enroll(s: Socket, id: UserId, user: User)
      requires Valid() && user.id == id
      modifies this`users, this`connections, this`order, this`sessions
      ensures Valid()
      ensures users == old(users)[id := user] && connections == old(connections)[id := s]
      ensures order == if id in old(users) then old(order) else old(order) + [id]
      ensures sessions == old(sessions)[s := Some(id)] && open == old(open)
    {
      Register(id, user, s);
      sessions := sessions[s := Some(id)];
    }

    /** `ws.send(init)` followed by `broadcast(user-joined, id)`: the joiner alone receives its
        id, its own user and the snapshot, and every other open connection the new user. */
    method Greet(s: Socket, id: UserId)
      requires Valid() && id in users
      modifies this`outbox
      ensures open == old(open)
      ensures outbox == old(outbox) + [Envelope(s, Init(id, users[id], Values(order, users)))]
                        + Fanout(order, connections, open, Some(id), UserJoined(users[id]))
    {
      var snapshot := Snapshot();
      assert snapshot == Values(order, users);
      outbox := outbox + [Envelope(s, Init(id, users[id], snapshot))];
      Broadcast(UserJoined(users[id]), Some(id));
    }

    /** `users.set(id, user); connections.set(id, ws)`: one entry in each map; a new key goes
        last in the key order and an existing one keeps its place. */
    method Register(id: UserId, user: User, s: Socket)
      requires Valid() && user.id == id
      modifies this`users, this`connections, this`order
      ensures Valid()
      ensures users == old(users)[id := user] && connections == old(connections)[id := s]
      ensures order == if id in old(users) then old(order) else old(order) + [id]
    {
      if id !in users {
        order := order + [id];
      }
      users := users[id := user];
      connections := connections[id := s];
    }

    /** The `move` case: only a connection whose user is still registered moves it, and
        then only that user's coordinates change and everyone else gets `user-moved`. */
    method Move(s: Socket, x: real, y: real)
      requires Valid() && s in sessions
      modifies this
      ensures Valid()
      ensures sessions == old(sessions) && open == old(open) && connections == old(connections)
      ensures order == old(order)
      ensures var id := sessions[s];
              if Truthy(id) && id.value in old(users) then
                var moved := old(users)[id.value].(x := x, y := y);
                && users == old(users)[id.value := moved]
                && outbox == old(outbox) + Fanout(order, connections, open, id, UserMoved(Some(moved)))
              else
                users == old(users) && outbox == old(outbox)
    {
      var id := sessions[s];
      if Truthy(id) && id.value in users {
        var moved := users[id.value].(x := x, y := y);
        users := users[id.value := moved];
        Broadcast(UserMoved(Some(moved)), id);
      }
    }

    /** What `leave` and `close` share: when the connection has a user id, it is dropped from
        both maps and every remaining open connection gets `user-left`. The connection's id is
        not cleared, so repeating this drops nothing more but announces the departure again. */
    method Depart(s: Socket)
      requires Valid() && s in sessions
      modifies this
      ensures Valid()
      ensures sessions == old(sessions) && open == old(open)
      ensures var id := sessions[s];
              if Truthy(id) then
                && users == old(users) - {id.value}
                && connections == old(connections) - {id.value}
                && order == Without(old(order), id.value)
                && outbox == old(outbox) + Fanout(order, connections, open, None, UserLeft(id.value))
              else
                users == old(users) && connections == old(connections) && order == old(order) &&
                outbox == old(outbox)
    {
      var id := sessions[s];
      if Truthy(id) {
        users := users - {id.value};
        connections := connections - {id.value};
        order := Without(order, id.value);
        Broadcast(UserLeft(id.value), None);
      }
    }

    /** The `leave` case. */
    method Leave(s: Socket)
      requires Valid() && s in sessions
      modifies this
      ensures Valid()
      ensures sessions == old(sessions) && open == old(open)
      ensures var id := sessions[s];
              if Truthy(id) then
                && users == old(users) - {id.value}
                && connections == old(connections) - {id.value}
                && order == Without(old(order), id.value)
                && outbox == old(outbox) + Fanout(order, connections, open, None, UserLeft(id.value))
              else
                users == old(users) && connections == old(connections) && order == old(order) &&
                outbox == old(outbox)
    {
      Depart(s);
    }

    /** The socket `close` handler. The socket is no longer open when the handler runs; the
        rest is as for `leave`. */
    method Close(s: Socket)
      requires Valid() && s in sessions
      modifies this
      ensures Valid()
      ensures sessions == old(sessions) && open == old(open) - {s}
      ensures var id := sessions[s];
              if Truthy(id) then
                && users == old(users) - {id.value}
                && connections == old(connections) - {id.value}
                && order == Without(old(order), id.value)
                && outbox == old(outbox) + Fanout(order, connections, open, None, UserLeft(id.value))
              else
                users == old(users) && connections == old(connections) && order == old(order) &&
                outbox == old(outbox)
    {
      open := open - {s};
      Depart(s);
    }

    /** The `webrtc-signal` case: with a sender id, a target and a signal, the signal goes
        unchanged to the target when it is registered and its socket is open. The sender need
        not still be registered. Nothing else changes. */
    method RelaySignal(s: Socket, targetUserId: Option<UserId>, signal: Option<Payload>)
      requires Valid() && s in sessions
      modifies this`outbox
      ensures var from := sessions[s];
              if Truthy(from) && Truthy(targetUserId) && signal.Some? &&
                 targetUserId.value in connections && connections[targetUserId.value] in open then
                outbox == old(outbox) + [Envelope(connections[targetUserId.value],
                                                  RelayedSignal(from.value, signal.value))]
              else
                outbox == old(outbox)
    {
      var from := sessions[s];
      if Truthy(from) && Truthy(targetUserId) && signal.Some? {
        var target := targetUserId.value;
        if target in connections && connections[target] in open {
          outbox := outbox + [Envelope(connections[target], RelayedSignal(from.value, signal.value))];
        }
      }
    }

    /** The message handler of one connection. `newId` and `colorRoll` stand for the values
        `generateId` and `Math.random` would produce should the message be a `join`. A message
        of an unknown type, or one that does not parse, changes nothing. */
    method HandleMessage(s: Socket, msg: ClientMessage, newId: UserId, colorRoll: real)
      requires Valid() && s in sessions && 0.0 <= colorRoll < 1.0
      modifies this
      ensures Valid()
      ensures msg.Join? ==>
                && sessions == old(sessions)[s := Some(newId)]
                && users == old(users)[newId := JoinedUser(newId, msg.name, |old(users)|, colorRoll)]
                && connections == old(connections)[newId := s]
                && order == (if newId in old(users) then old(order) else old(order) + [newId])
                && outbox == old(outbox) + [Envelope(s, Init(newId, users[newId], Values(order, users)))]
                             + Fanout(order, connections, open, Some(newId), UserJoined(users[newId]))
      ensures msg.Move? ==>
                var id := old(sessions)[s];
                && connections == old(connections) && order == old(order)
                && if Truthy(id) && id.value in old(users) then
                     var moved := old(users)[id.value].(x := msg.x, y := msg.y);
                     && users == old(users)[id.value := moved]
                     && outbox == old(outbox) + Fanout(order, connections, open, id, UserMoved(Some(moved)))
                   else
                     users == old(users) && outbox == old(outbox)
      ensures msg.Leave? ==>
                var id := old(sessions)[s];
                if Truthy(id) then
                  && users == old(users) - {id.value}
                  && connections == old(connections) - {id.value}
                  && order == Without(old(order), id.value)
                  && outbox == old(outbox) + Fanout(order, connections, open, None, UserLeft(id.value))
                else
                  users == old(users) && connections == old(connections) && order == old(order) &&
                  outbox == old(outbox)
      ensures msg.Signal? ==>
                var from, target := old(sessions)[s], msg.targetUserId;
                if Truthy(from) && Truthy(target) && msg.signal.Some? &&
                   target.value in connections && connections[target.value] in open then
                  outbox == old(outbox) + [Envelope(connections[target.value],
                                                    RelayedSignal(from.value, msg.signal.value))]
                else
                  outbox == old(outbox)
      ensures msg.Join? ==> open == old(open)
      ensures !msg.Join? ==> sessions == old(sessions) && open == old(open)
      ensures (msg.Unrecognized? || msg.Unparsable? || msg.Signal?) ==>
                users == old(users) && connections == old(connections) && order == old(order)
      ensures (msg.Unrecognized? || msg.Unparsable?) ==> outbox == old(outbox)
    {
      match msg {
        case Join(name) => Join(s, name, newId, colorRoll);
        case Move(x, y) => Move(s, x, y);
        case Leave => Leave(s);
        case Signal(target, signal) => RelaySignal(s, target, signal);
        case Unrecognized =>
        case Unparsable =>
      }
    }
  }

  /** A connection that joins twice registers a second id and leaves the first one in both
      maps; its `close` then removes only the id of the latest join. */
  method RejoinThenClose(s: Socket, first: UserId, second: UserId)
    returns (bothAfterRejoin: bool, firstAfterClose: bool, secondAfterClose: bool)
    requires first != second && second != ""
    ensures bothAfterRejoin && firstAfterClose && !secondAfterClose
  {
    var srv := new Server();
    srv.Connect(s);
    srv.Join(s, None, first, 0.0);
    srv.Join(s, None, second, 0.0);
    bothAfterRejoin := first in srv.users && second in srv.users &&
                       first in srv.connections && second in srv.connections;
    srv.Close(s);
    firstAfterClose := first in srv.users && first in srv.connections;
    secondAfterClose := second in srv.users || second in srv.connections;
  }

  /** Broadcasts go to registered ids, not to sockets: after a second `join` on one
      connection, the socket is still filed under the first id, so it hears its own
      `user-joined` right after its `init`. */
  method RejoinHearsOwnJoin(s: Socket, first: UserId, second: UserId) returns (notices: seq<Envelope>)
    requires first != second
    ensures notices == [Envelope(s, UserJoined(JoinedUser(second, None, 1, 0.0)))]
  {
    var srv := new Server();
    srv.Connect(s);
    srv.Join(s, None, first, 0.0);
    var before := srv.outbox;
    JoinAgain(srv, s, first, second);
    notices := srv.outbox[|before| + 1..];
  }

  /** The second `join` on a connection already filed under `first`: `init` and then one
      `user-joined`, which reaches the same socket through `first`. */
  method JoinAgain(srv: Server, s: Socket, first: UserId, second: UserId)
    requires srv.Valid() && s in srv.sessions && s in srv.open && first != second
    requires srv.connections == map[first := s] && srv.order == [first] && |srv.users| == 1
    modifies srv
    ensures |srv.outbox| == |old(srv.outbox)| + 2
    ensures srv.outbox[|old(srv.outbox)| + 1..] == [Envelope(s, UserJoined(JoinedUser(second, None, 1, 0.0)))]
  {
    srv.Join(s, None, second, 0.0);
    RejoinTail(old(srv.outbox), srv.outbox, first, second, s, srv.open, srv.order, srv.connections,
               UserJoined(srv.users[second]));
  }

  /** The writes of the second `join`, read off its outbox. */
  lemma RejoinTail(before: seq<Envelope>, after: seq<Envelope>, first: UserId, second: UserId, s: Socket,
                   open: set<Socket>, order: seq<UserId>, connections: map<UserId, Socket>, msg: ServerMessage)
    requires first != second && s in open
    requires order == [first] + [second] && connections == map[first := s][second := s]
    requires exists init :: after == before + [init] + Fanout(order, connections, open, Some(second), msg)
    ensures |after| == |before| + 2 && after[|before| + 1..] == [Envelope(s, msg)]
  {
    var init :| after == before + [init] + Fanout(order, connections, open, Some(second), msg);
    assert order == [first, second];
    assert connections == map[first := s, second := s];
    SharedSocketFanout(first, second, s, open, msg);
    assert after[|before| + 1] == Envelope(s, msg);
  }

  /** Two ids filed under one open socket: a broadcast excluding the second reaches the
      socket once, through the first. */
  lemma SharedSocketFanout(first: UserId, second: UserId, s: Socket, open: set<Socket>, msg: ServerMessage)
    requires first != second && s in open
    ensures Fanout([first, second], map[first := s, second := s], open, Some(second), msg) == [Envelope(s, msg)]
  {
    var conns := map[first := s, second := s];
    assert Receives(conns, open, Some(second), first) && !Receives(conns, open, Some(second), second);
    assert [first, second][..1] == [first] && [first][..0] == [];
    assert Fanout([first], conns, open, Some(second), msg) == [Envelope(s, msg)];
  }

  /** Two connections `s` and `t` that have joined as `first` and `second`. */
  method TwoJoined(s: Socket, t: Socket, first: UserId, second: UserId) returns (srv: Server)
    requires s != t && first != second
    ensures fresh(srv) && srv.Valid()
    ensures s in srv.sessions && srv.sessions[s] == Some(first)
    ensures srv.connections == map[first := s, second := t]
    ensures t in srv.open
  {
    srv := OneJoined(s, t, first);
    srv.Join(t, None, second, 0.0);
  }

  /** Connections `s` and `t`, of which `s` has joined as `first`. */
  method OneJoined(s: Socket, t: Socket, first: UserId) returns (srv: Server)
    requires s != t
    ensures fresh(srv) && srv.Valid()
    ensures s in srv.sessions && srv.sessions[s] == Some(first) && t in srv.sessions
    ensures srv.connections == map[first := s]
    ensures t in srv.open
  {
    srv := new Server();
    srv.Connect(s);
    srv.Connect(t);
    srv.Join(s, None, first, 0.0);
  }

  /** A connection that leaves twice: the second `leave` removes nothing more, yet the other
      connection hears `user-left` for the same id once per `leave`. */
  method LeaveTwice(s: Socket, t: Socket, first: UserId, second: UserId)
    returns (gone: bool, announcements: seq<Envelope>)
    requires s != t && first != second && first != "" && second != ""
    ensures gone
    ensures announcements == [Envelope(t, UserLeft(first)), Envelope(t, UserLeft(first))]
  {
    var srv := TwoJoined(s, t, first, second);
    var before := srv.outbox;
    var left := UserLeft(first);
    LeaveBesideOne(srv, s, t, first, second);
    LeaveBesideOne(srv, s, t, first, second);
    gone := first !in srv.users && first !in srv.connections;
    TailAfterTwo(before, Envelope(t, left));
    announcements := srv.outbox[|before|..];
  }

  /** `leave` from `s` while `second` stays connected on the open socket `t`. */
  method LeaveBesideOne(srv: Server, s: Socket, t: Socket, first: UserId, second: UserId)
    requires srv.Valid() && s in srv.sessions && srv.sessions[s] == Some(first) && first != ""
    requires first != second && t in srv.open
    requires srv.connections == map[first := s, second := t] || srv.connections == map[second := t]
    modifies srv
    ensures srv.Valid() && s in srv.sessions && srv.sessions[s] == Some(first) && t in srv.open
    ensures srv.connections == map[second := t] && first !in srv.users
    ensures srv.outbox == old(srv.outbox) + [Envelope(t, UserLeft(first))]
  {
    srv.Leave(s);
    OnlyKey(srv.order, srv.connections, second, t);
    Announce(second, t, srv.open, UserLeft(first));
  }

  /** A key order over a single registered id is that id alone. */
  lemma OnlyKey(order: seq<UserId>, connections: map<UserId, Socket>, id: UserId, t: Socket)
    requires connections == map[id := t]
    requires Distinct(order) && forall x :: x in order <==> x in connections
    ensures order == [id]
  {
    DistinctCard(order, {id});
    assert order[0] in order;
  }

  /** A broadcast over one open connection is one write. */
  lemma Announce(id: UserId, t: Socket, open: set<Socket>, msg: ServerMessage)
    requires t in open
    ensures Fanout([id], map[id := t], open, None, msg) == [Envelope(t, msg)]
  {
    FanoutStep([], id, map[id := t], open, None, msg);
  }

  lemma TailAfterTwo<T>(before: seq<T>, e: T)
    ensures (before + [e] + [e])[|before|..] == [e, e]
  {
    var all := before + [e] + [e];
    assert |all[|before|..]| == 2;
    assert all[|before|] == e && all[|before| + 1] == e;
  }

  /** The snapshot sent in `init` holds the joiner, as it was registered. */
  lemma SnapshotHoldsEveryUser(order: seq<UserId>, users: map<UserId, User>, id: UserId)
    requires forall x :: x in order <==> x in users
    requires id in users
    ensures users[id] in Values(order, users)
  {
    var k :| 0 <= k < |order| && order[k] == id;
    assert Values(order, users)[k] == users[id];
  }
}
