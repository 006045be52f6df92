/** The browser client's local picture of the office: its own avatar, a mirror of the
    server's registry kept up to date from the server's messages, and the per-frame movement
    rule that walks the avatar around the walls and reports each new position. */
module Client {
  import opened Protocol
  import opened Geometry
  import opened Office

  const MoveSpeed: real := 5.0
  /** The factor applied to `MoveSpeed` while shift is held. */
  const MoveSpeedFast: real := 2.0
  const AvatarRadius: real := AvatarSize / 2.0

  // ---------------------------------------------------------------- the mirrored registry

  /** The users of a list filed under their ids, one `set` after another in list order. */
  function KeyedById(us: seq<User>): (m: map<UserId, User>)
    ensures forall id :: id in m <==> exists k :: 0 <= k < |us| && us[k].id == id
    ensures forall id :: id in m ==> m[id].id == id
  {
    if us == [] then map[]
    else
      var init, last := us[..|us| - 1], us[|us| - 1];
      var m := KeyedById(init);
      assert forall k :: 0 <= k < |init| ==> us[k] == init[k];
      m[last.id := last]
  }

  /** Each user of the list is filed under its id unless a later one has the same id; with
      distinct ids, every user of the list is there. */
  lemma {:induction false} KeyedByIdLastWins(us: seq<User>, k: nat)
    requires k < |us|
    requires forall j :: k < j < |us| ==> us[j].id != us[k].id
    ensures us[k].id in KeyedById(us) && KeyedById(us)[us[k].id] == us[k]
  {
    if k < |us| - 1 {
      var init := us[..|us| - 1];
      KeyedByIdLastWins(init, k);
    }
  }

  /** A registry snapshot (distinct ids) becomes a map that holds exactly its users. */
  lemma KeyedByIdHoldsSnapshot(us: seq<User>)
    requires DistinctIds(us)
    ensures KeyedById(us).Keys == Ids(us)
    ensures forall k :: 0 <= k < |us| ==> KeyedById(us)[us[k].id] == us[k]
  {
    forall k | 0 <= k < |us| ensures KeyedById(us)[us[k].id] == us[k] {
      KeyedByIdLastWins(us, k);
    }
  }

  // ---------------------------------------------------------------- the movement rule

  predicate Up(keys: set<string>) { "w" in keys || "arrowup" in keys }
  predicate Down(keys: set<string>) { "s" in keys || "arrowdown" in keys }
  predicate LeftKey(keys: set<string>) { "a" in keys || "arrowleft" in keys }
  predicate RightKey(keys: set<string>) { "d" in keys || "arrowright" in keys }

  /** Whether any movement key is held: the frame's `moved` flag before the collision test. */
  predicate Moving(keys: set<string>) {
    Up(keys) || Down(keys) || LeftKey(keys) || RightKey(keys)
  }

  function Speed(keys: set<string>): real {
    if "shift" in keys then MoveSpeed * MoveSpeedFast else MoveSpeed
  }

  /** The position the keys ask for. Up is applied first and down afterwards, so down wins;
      likewise right wins over left. */
  function Target(keys: set<string>, x: real, y: real): Position {
    var s := Speed(keys);
    var ny := if Down(keys) then y + s else if Up(keys) then y - s else y;
    var nx := if RightKey(keys) then x + s else if LeftKey(keys) then x - s else x;
    Position(nx, ny)
  }

  /** Where one frame leaves the avatar: the horizontal step is taken when the circle at the
      new x and the old y clears every wall, then the vertical step when the circle at the
      (possibly updated) x and the new y does. */
  function Step(walls: seq<Rect>, keys: set<string>, x: real, y: real): Position {
    if !Moving(keys) then Position(x, y)
    else
      var t := Target(keys, x, y);
      var nx := if !Collides(walls, t.x, y, AvatarRadius) then t.x else x;
      var ny := if !Collides(walls, nx, t.y, AvatarRadius) then t.y else y;
      Position(nx, ny)
  }

  /** The step is 10 with shift held and 5 otherwise. */
  lemma SpeedChoice(keys: set<string>)
    ensures Speed(keys) == if "shift" in keys then 10.0 else 5.0
  {
  }

  /** With no movement key held the avatar stays put; otherwise each coordinate stays or moves
      by exactly one step, in the direction the keys resolve to. */
  lemma StepIsOneStep(walls: seq<Rect>, keys: set<string>, x: real, y: real)
    ensures var p, s := Step(walls, keys, x, y), Speed(keys);
            && (!Moving(keys) ==> p == Position(x, y))
            && (p.x == x || (RightKey(keys) && p.x == x + s) || (!RightKey(keys) && LeftKey(keys) && p.x == x - s))
            && (p.y == y || (Down(keys) && p.y == y + s) || (!Down(keys) && Up(keys) && p.y == y - s))
  {
  }

  /** A held down key (`s` or the arrow) moves down whatever else is held, and a held right
      key moves right: down overrides up, right overrides left. */
  lemma ConflictingKeys(keys: set<string>, x: real, y: real)
    ensures Down(keys) ==> Target(keys, x, y).y == y + Speed(keys)
    ensures RightKey(keys) ==> Target(keys, x, y).x == x + Speed(keys)
    ensures !Down(keys) && Up(keys) ==> Target(keys, x, y).y == y - Speed(keys)
    ensures !RightKey(keys) && LeftKey(keys) ==> Target(keys, x, y).x == x - Speed(keys)
  {
  }

  /** An avatar that clears every wall still does after a frame: each axis is only taken when
      the position it leads to is clear. */
  lemma {:induction false} StepStaysClear(walls: seq<Rect>, keys: set<string>, x: real, y: real)
    requires !Collides(walls, x, y, AvatarRadius)
    ensures var p := Step(walls, keys, x, y); !Collides(walls, p.x, p.y, AvatarRadius)
  {
    if Moving(keys) {
      var t := Target(keys, x, y);
      var nx := if !Collides(walls, t.x, y, AvatarRadius) then t.x else x;
      assert !Collides(walls, nx, y, AvatarRadius);
    }
  }

  /** A freshly placed avatar clears every wall of the layout, on a floor larger than 280 by
      280 (so that the spawn area has positive size). */
  lemma SpawnIsClear(m: OfficeMap, rx: real, ry: real)
    requires m.walls == LayoutWalls(m.width, m.height) && m.spawnZone == LayoutSpawn(m.width, m.height)
    requires m.width > 280.0 && m.height > 280.0 && 0.0 <= rx < 1.0 && 0.0 <= ry < 1.0
    ensures var p := m.GetRandomSpawnPosition(rx, ry); !Collides(m.walls, p.x, p.y, AvatarRadius)
  {
    var p := m.GetRandomSpawnPosition(rx, ry);
    SpawnAreaIsClear(m.width, m.height, p.x, p.y, AvatarRadius);
  }

  // ---------------------------------------------------------------- the client

  class VirtualOffice {
    var currentUser: Option<User>
    var users: map<UserId, User>
    var officeMap: OfficeMap?
    /** Every message sent to the server, in order. */
    var sent: seq<ClientMessage>

    /** A client whose canvas is `width` by `height`: a map of that size, no user yet. */
    constructor (width: real, height: real)
      ensures currentUser == None && users == map[] && sent == []
      ensures officeMap != null && fresh(officeMap)
      ensures officeMap.width == width && officeMap.height == height
      ensures officeMap.walls == LayoutWalls(width, height)
      ensures officeMap.spawnZone == LayoutSpawn(width, height)
    {
      currentUser := None;
      users := map[];
      sent := [];
      officeMap := new OfficeMap(width, height);
    }

    /** `handleMessage`. On `init` the client takes the user the server made for it, places it
        at a spawn position drawn from `rx` and `ry` (when there is a map) and reports that
        position, then replaces its whole view by the snapshot. `user-joined` and `user-moved`
        file one user under its id; `user-left` removes one id; a `user-moved` without a user
        and any other message change nothing. */
    method HandleMessage(msg: ServerMessage, rx: real, ry: real)
      modifies this`currentUser, this`users, this`sent
      ensures msg.Init? ==>
                && users == KeyedById(msg.users)
                && if officeMap != null then
                     var p := officeMap.GetRandomSpawnPosition(rx, ry);
                     currentUser == Some(msg.user.(x := p.x, y := p.y)) && sent == old(sent) + [Move(p.x, p.y)]
                   else
                     currentUser == Some(msg.user) && sent == old(sent)
      ensures !msg.Init? ==> currentUser == old(currentUser) && sent == old(sent)
      ensures msg.UserJoined? ==> users == old(users)[msg.user.id := msg.user]
      ensures msg.UserMoved? ==>
                users == if msg.moved.Some? then old(users)[msg.moved.value.id := msg.moved.value] else old(users)
      ensures msg.UserLeft? ==> users == old(users) - {msg.userId}
      ensures msg.RelayedSignal? ==> users == old(users)
    {
      match msg {
        case Init(_, user, snapshot) =>
          currentUser := Some(user);
          if officeMap != null {
            var p := officeMap.GetRandomSpawnPosition(rx, ry);
            currentUser := Some(user.(x := p.x, y := p.y));
            sent := sent + [Move(p.x, p.y)];
          }
          ReplaceView(snapshot);
        case UserJoined(user) =>
          users := users[user.id := user];
        case UserMoved(moved) =>
          if moved.Some? {
            users := users[moved.value.id := moved.value];
          }
        case UserLeft(id) =>
          users := users - {id};
        case RelayedSignal(_, _) =>
      }
    }

    /** `users.clear()` followed by one `set` per user of the snapshot. */
    method ReplaceView(snapshot: seq<User>)
      modifies this`users
      ensures users == KeyedById(snapshot)
    {
      users := map[];
      for i := 0 to |snapshot|
        invariant users == KeyedById(snapshot[..i])
      {
        var prefix := snapshot[..i + 1];
        assert prefix[..i] == snapshot[..i] && prefix[i] == snapshot[i];
        users := users[snapshot[i].id := snapshot[i]];
      }
      assert snapshot[..|snapshot|] == snapshot;
    }

    /** The movement part of a frame: the keys' step, each axis kept only when the map reports
        no collision there. */
    method Walk(keys: set<string>, x0: real, y0: real) returns (x: real, y: real)
      requires officeMap != null
      ensures Position(x, y) == Step(officeMap.walls, keys, x0, y0)
    {
      var moved := false;
      var speed := if "shift" in keys then MoveSpeed * MoveSpeedFast else MoveSpeed;
      var newX, newY := x0, y0;
      if "w" in keys || "arrowup" in keys {
        newY := y0 - speed;
        moved := true;
      }
      if "s" in keys || "arrowdown" in keys {
        newY := y0 + speed;
        moved := true;
      }
      if "a" in keys || "arrowleft" in keys {
        newX := x0 - speed;
        moved := true;
      }
      if "d" in keys || "arrowright" in keys {
        newX := x0 + speed;
        moved := true;
      }
      x, y := x0, y0;
      if moved {
        var blockedX := officeMap.CheckCollision(newX, y, AvatarRadius);
        if !blockedX {
          x := newX;
        }
        var blockedY := officeMap.CheckCollision(x, newY, AvatarRadius);
        if !blockedY {
          y := newY;
        }
      }
    }

    /** `update`, one animation frame with the keys held in `keys`: nothing without a user or
        a map; otherwise the avatar takes the `Step` and, when a movement key was held and its
        position changed, the client files its own entry anew and reports the position. An
        avatar clear of the walls stays clear. */
    method Update(keys: set<string>)
      modifies this`currentUser, this`users, this`sent
      ensures old(currentUser).None? || officeMap == null ==>
                currentUser == old(currentUser) && users == old(users) && sent == old(sent)
      ensures old(currentUser).Some? && officeMap != null ==>
                var u := old(currentUser).value;
                var p := Step(officeMap.walls, keys, u.x, u.y);
                var v := u.(x := p.x, y := p.y);
                && currentUser == Some(v)
                && if Moving(keys) && (p.x != u.x || p.y != u.y) then
                     users == old(users)[u.id := v] && sent == old(sent) + [Move(p.x, p.y)]
                   else
                     users == old(users) && sent == old(sent)
      ensures old(currentUser).Some? && officeMap != null &&
              !Collides(officeMap.walls, old(currentUser).value.x, old(currentUser).value.y, AvatarRadius) ==>
              currentUser.Some? && !Collides(officeMap.walls, currentUser.value.x, currentUser.value.y, AvatarRadius)
    {
      if currentUser.None? || officeMap == null {
        return;
      }
      var u := currentUser.value;
      var x, y := Walk(keys, u.x, u.y);
      assert !Collides(officeMap.walls, u.x, u.y, AvatarRadius) ==>
             !Collides(officeMap.walls, x, y, AvatarRadius) by {
        if !Collides(officeMap.walls, u.x, u.y, AvatarRadius) {
          StepStaysClear(officeMap.walls, keys, u.x, u.y);
        }
      }
      var moved := Moving(keys);
      var v := u.(x := x, y := y);
      currentUser := Some(v);
      if moved && (u.x != x || u.y != y) {
        users := users[u.id := v];
        sent := sent + [Move(x, y)];
      }
    }
  }

  /** Hearing about the same user twice, whether as `user-joined` or as `user-moved`, leaves
      the view as hearing it once. */
  method HeardTwice(u: User) returns (once: map<UserId, User>, twice: map<UserId, User>)
    ensures once == map[u.id := u] && twice == once
  {
    var office := new VirtualOffice(800.0, 600.0);
    office.HandleMessage(UserJoined(u), 0.0, 0.0);
    once := office.users;
    office.HandleMessage(UserMoved(Some(u)), 0.0, 0.0);
    twice := office.users;
  }
}
