/** The shapes exchanged between the office server and its clients: a user record and the
    client-to-server and server-to-client messages. Wire encoding (JSON) is not modelled; a
    message that fails to parse is its own constructor. */
module Protocol {

  datatype Option<+T> = None | Some(value: T)

  /** User ids are generated strings. */
  type UserId = string

  /** A WebRTC signalling payload. The server never looks inside it. */
  datatype Payload = Payload(json: string)

  /** A participant: identity, display name, position in map coordinates and avatar colour. */
  datatype User = User(id: UserId, name: string, x: real, y: real, color: string)

  /** What a client may send. A field that is absent (or falsy in JavaScript) is `None`. */
  datatype ClientMessage =
    | Join(name: Option<string>)
    | Move(x: real, y: real)
    | Leave
    | Signal(targetUserId: Option<UserId>, signal: Option<Payload>)
    | Unrecognized   // parses, but its type tag matches no case of the handler
    | Unparsable     // JSON.parse throws

  /** What the server sends. `UserMoved` carries an optional user because the client checks for it. */
  datatype ServerMessage =
    | Init(userId: UserId, user: User, users: seq<User>)
    | UserJoined(user: User)
    | UserMoved(moved: Option<User>)
    | UserLeft(userId: UserId)
    | RelayedSignal(fromUserId: UserId, signal: Payload)

  /** The ids of a sequence of users. */
  function Ids(us: seq<User>): (ids: set<UserId>)
    ensures forall i :: 0 <= i < |us| ==> us[i].id in ids
    ensures forall a :: a in ids ==> exists i :: 0 <= i < |us| && us[i].id == a
  {
    set u | u in us :: u.id
  }

  /** No two entries of `us` share an id. */
  predicate DistinctIds(us: seq<User>) {
    forall i, j :: 0 <= i < |us| && 0 <= j < |us| && us[i].id == us[j].id ==> i == j
  }
}
