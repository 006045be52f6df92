# Huddle presence and proximity, modelled in Dafny

Huddle is a small virtual office. Browser clients walk avatars around a floor plan, and a
WebSocket server keeps a registry of who is present. The client code also contains a
clustering engine (`ProximityManager`) that groups nearby users into conversation "bubbles";
none of the client files calls it. This project models the parts that carry logic:

- **Protocol** (`protocol.dfy`): the `User` record and the client and server message shapes,
  as datatypes. A message that fails to parse is its own constructor.
- **Registry** (`registry.dfy`): the presence server as a class. It holds the `users` and
  `connections` maps, their common key order, and each connection's `userId` variable
  (`sessions`). It also holds the set of open sockets and an `outbox` that records every
  `send` in order. The class has the `join`, `move`, `leave`, `webrtc-signal` and `close`
  handlers and `broadcast`.
- **LegacyRegistry** (`legacy_registry.dfy`): the older server. It uses the same registry
  without signalling, so a signal message is of unknown type there.
- **Geometry** (`geometry.dfy`): the plane position, `Math.max`/`Math.min`, the squared
  distance and the avatar size, which the map, the movement rule and the bubbles share.
- **Graphs** (`proximity_graph.dfy`): the strict "in range" graph, walks, reachability and
  connected components.
- **Proximity** (`proximity.dfy`): `buildProximityGraph`, with its nested loops, and
  `findConnectedComponents`, with its recursive search over a visited set. Both are
  methods, proved against the graph, the reachability and the component definitions.
- **Clusters** (`clusters.dfy`): `calculateClusters`, the bubble geometry and the membership
  queries, with the properties a caller relies on.
- **Office** (`office_map.dfy`): the floor plan (walls, zones, spawn area), the
  circle/rectangle collision test and the `OfficeMap` class.
- **Client** (`client.dfy`): the client's mirror of the registry (`handleMessage`) and the
  per-frame movement rule (`update`), as a class over the map.

Choices that shape the model:

- Values the source draws from the environment become parameters:
  - the generated id and the random fractions behind the colour and the spawn point;
  - `Math.sqrt`, a function parameter, so that no property depends on its values;
  - the pressed keys.
- Distances are compared squared. A lemma shows that this decides the same strict
  comparison as the square-rooted distance.
- JavaScript truthiness of an id or a name is "present and not empty".
- The iteration order of a JavaScript `Map` (insertion order) is the `order` sequence.
  `broadcast` and `Array.from(users.values())` follow that sequence.

## Model

| member | source | states |
|---|---|---|
| Registry.ColorFor | server/index.ts:15-27 | a random fraction in [0, 1) picks one of the eight palette colours |
| Registry.Decimal | server/index.ts:50 | the numeral of a number is a non-empty string of digits with no leading zero |
| Registry.DecimalRoundTrip | server/index.ts:50 | reading the numeral back gives the number |
| Registry.DisplayName | server/index.ts:50 | a present, non-empty name is kept; otherwise the name is "User" followed only by digits with no leading zero, and those digits read back as the number of users before the join plus one (so it is exactly the usual numeral) |
| Registry.JoinedUser | server/index.ts:48-55 | a joined user has the generated id, the display name, the origin and a palette colour |
| Registry.Without | server/index.ts:100-101 | deleting a key removes exactly that key from the key order, and the order stays duplicate-free |
| Registry.Values | server/index.ts:66 | the snapshot lists users in key order, one entry per key |
| Registry.Receives | server/index.ts:31-33 | a key is written to exactly when it has a connection, is not the excluded id and its socket is open |
| Registry.Fanout | server/index.ts:29-36 | the writes of `broadcast`: one envelope to each receiving key's socket, visited in key order |
| Registry.FanoutIds | server/index.ts:29-36 | broadcast writes to a key exactly when it is registered, it is not the excluded id and its socket is open; no key is written twice |
| Registry.FanoutStep | server/index.ts:31-35 | visiting one more key appends at most that key's write |
| Registry.FanoutIsDeliver | server/index.ts:29-36 | the writes of a broadcast are one envelope per receiving key, to its socket and with the message unchanged |
| Registry.FanoutExactlyOnce | server/index.ts:29-36 | over the registry's key order, a broadcast reaches every registered, non-excluded, open connection exactly once and nobody else |
| Registry.Server.constructor | server/index.ts:5-6 | the server starts with empty maps, no connection and nothing sent |
| Registry.Server.Snapshot | server/index.ts:66 | the snapshot has one entry per user and holds exactly the registered users |
| Registry.Server.Connect | server/index.ts:38-39 | a new connection starts without a user id and with an open socket; it changes nothing else |
| Registry.Server.Broadcast | server/index.ts:29-36 | broadcast appends exactly the fan-out over the key order to the outbox and changes no map |
| Registry.Server.Join | server/index.ts:46-80 | join records the id for the connection, registers the user in both maps and leaves the open sockets alone; the joiner gets `init`, whose snapshot already holds it, and `user-joined` goes to every registered id other than the new one whose socket is open |
| Registry.Server.Greet | server/index.ts:61-77 | the `init` to the joiner comes first, then the `user-joined` broadcast that skips the new id (not the socket: a socket still filed under an older id hears it) |
| Registry.Server.Enroll | server/index.ts:47-58 | the user is filed in both maps under its id and the connection remembers that id; nothing else changes |
| Registry.Server.Register | server/index.ts:57-58 | both maps get the entry; a new key goes last in the order and an existing key keeps its place; the maps keep one key set |
| Registry.Server.Move | server/index.ts:82-96 | without a registered user id, move does nothing; otherwise it overwrites only that user's x and y and broadcasts `user-moved` to every registered id but the mover's whose socket is open |
| Registry.Server.Depart | server/index.ts:98-108 | with a user id, it removes the id from both maps and announces `user-left` to all remaining connections; without one, it does nothing |
| Registry.Server.Leave | server/index.ts:98-108 | leave removes the connection's id from both maps and announces it; the connection's id is not cleared |
| Registry.Server.Close | server/index.ts:131-141 | close marks the socket closed, then removes and announces the connection's id as leave does |
| Registry.Server.RelaySignal | server/index.ts:110-124 | with a sender id, a target and a signal, exactly one unchanged signal goes to the target if it is registered and open; otherwise nothing is sent; no map changes |
| Registry.Server.HandleMessage | server/index.ts:41-129 | each message type has its handler's effect, and no message changes the open sockets; a message of unknown type, or one that does not parse, changes nothing and sends nothing |
| Registry.RejoinThenClose | server/index.ts:47-58 | a second join on one connection leaves the first id in both maps; a later close removes only the second |
| Registry.LeaveTwice | server/index.ts:98-108 | a second leave removes nothing more but announces `user-left` for the same id again |
| Registry.RejoinHearsOwnJoin | server/index.ts:71-77 | after a second join on one connection, that connection hears its own `user-joined`, because its socket is still filed under the first id |
| Registry.SnapshotHoldsEveryUser | server/index.ts:57-66 | the `init` snapshot holds the newly registered user |
| LegacyRegistry.HandleLegacyMessage | server.ts:62-134 | join, move and leave act as on the current server, and no message changes the open sockets; a signal, an unknown type or an unparsable message changes nothing and sends nothing |
| LegacyRegistry.HandleLegacyClose | server.ts:136-146 | close marks the socket closed, removes the connection's last id from both maps and the key order, and announces `user-left` to every remaining open connection; without an id nothing else changes |
| LegacyRegistry.LegacyJoinThenClose | server.ts:67-146 | a connection that joins and then closes leaves its user in neither map |
| Geometry.SqDist | src/proximity.ts:167-171 | the squared distance is never negative |
| Geometry.Max | src/proximity.ts:159-162 | `Math.max` of two numbers is one of them and at least both |
| Graphs.InRange | src/proximity.ts:92-94 | two users are in range when the threshold is positive and their squared distance is strictly below its square |
| Graphs.SqrtFreeCompare | src/proximity.ts:92-94 | comparing squares decides `distance < threshold` exactly, for any non-negative root |
| Graphs.InRangeSymmetric | src/proximity.ts:94-96 | being in range is symmetric |
| Graphs.ProximityGraph | src/proximity.ts:79-102 | the intended graph: one entry per user, holding the ids of every other user in range |
| Graphs.ProximityEdge | src/proximity.ts:79-102 | every user is a node, and an edge joins two positions exactly when they differ and are strictly within the threshold |
| Graphs.ProximityGraphShape | src/proximity.ts:79-102 | the graph is keyed by the users' ids and is undirected with no self-edges |
| Graphs.ReachSymmetric | src/proximity.ts:111-124 | in an undirected graph, reachability is symmetric |
| Graphs.ComponentOfMember | src/proximity.ts:111-124 | every member of a component has that same component |
| Graphs.NeighbourInComponent | src/proximity.ts:128 | a node with a neighbour has a component of at least two nodes |
| Graphs.ExploredIsComponent | src/proximity.ts:111-124 | a search that marks only reachable nodes and leaves each marked node's neighbours marked has marked exactly the component |
| Proximity.Link | src/proximity.ts:95-96 | recording an edge keeps the key set |
| Proximity.RecordPair | src/proximity.ts:89-97 | looking at the pair (i, j) extends the record of pairs seen, in both directions when in range |
| Proximity.EmptyAdjacency | src/proximity.ts:83-85 | every user's id gets an empty adjacency set |
| Proximity.LinkRow | src/proximity.ts:89-98 | the inner loop records every pair (i, j) with j > i |
| Proximity.BuildProximityGraph | src/proximity.ts:79-102 | the nested loops build exactly the specified in-range graph |
| Proximity.Find | src/proximity.ts:115 | find returns a user with the id from the list, and nothing exactly when no user has it |
| Proximity.Dfs | src/proximity.ts:111-124 | the search marks its start, marks only reachable nodes, gathers exactly the users it marks, each once, and leaves every newly marked node with its neighbours marked |
| Proximity.AddComponent | src/proximity.ts:127-132 | a search from an unmarked seed with a neighbour yields its whole component, disjoint from those before |
| Proximity.VisitSeed | src/proximity.ts:127-133 | each seed keeps the components found disjoint and covering the marked set; a seed with a neighbour ends up marked |
| Proximity.FindConnectedComponents | src/proximity.ts:104-136 | each result is a component of at least two distinct users; results are pairwise disjoint and cover every user who has a neighbour |
| Clusters.MaxOf | src/proximity.ts:149-155 | the maximum is an element that no element exceeds |
| Clusters.Centroid | src/proximity.ts:143-146 | the centre times the member count is the sum of the coordinates |
| Clusters.Distances | src/proximity.ts:150-154 | one distance per member, in member order |
| Clusters.BubbleRadius | src/proximity.ts:149-162 | the radius is at least the 80 minimum and covers every member's distance plus half an avatar and the 40 padding |
| Clusters.CreateClusterData | src/proximity.ts:138-165 | a bubble holds its members' ids, their centroid and a radius at least 80 that encloses every padded avatar |
| Clusters.CentroidWithinMembers | src/proximity.ts:143-146 | the centre lies in every box that holds all the members |
| Clusters.KeepPairs | src/proximity.ts:35 | the filter keeps exactly the components of two or more users; when all qualify, it keeps them all |
| Clusters.LoneUserHasNoNeighbour | src/proximity.ts:25 | with fewer than two users, nobody has a neighbour |
| Clusters.CalculateClusters | src/proximity.ts:23-37 | fewer than two users yield no bubble; otherwise the bubbles have two or more members, are disjoint, are each the component of every member, and cover everyone with a neighbour |
| Clusters.ClustersOfComponents | src/proximity.ts:34-36 | mapping the kept components to bubbles keeps every property of the components |
| Clusters.GetClustersForUser | src/proximity.ts:42-44 | a bubble is in the result exactly when it is one of the input bubbles and contains the user; the result is no longer than the input, and is the whole input when every bubble contains the user |
| Clusters.ClustersForUserKeepCopies | src/proximity.ts:42-44 | each bubble that contains the user occurs in the result exactly as often as in the input, and no other bubble occurs |
| Clusters.AreUsersInSameCluster | src/proximity.ts:69-77 | true exactly when some bubble holds both users |
| Clusters.GetUsersInProximity | src/proximity.ts:49-64 | the result is the other members of the user's bubbles and never the user |
| Clusters.ClusterMemberHasNeighbour | src/proximity.ts:128 | every bubble member has someone in range |
| Clusters.SameClusterIffReachable | src/proximity.ts:69-77 | two users share a bubble exactly when the first has a neighbour and a path of in-range edges leads to the second |
| Clusters.SameClusterSymmetric | src/proximity.ts:69-77 | for two different users, sharing a bubble is reachability and does not depend on argument order |
| Clusters.NoClusterForUser | src/proximity.ts:42-44 | a user in no bubble gets an empty list |
| Clusters.AtMostOneClusterPerUser | src/proximity.ts:42-44 | with disjoint bubbles, a user is in at most one |
| Clusters.CompanionsIffSameCluster | src/proximity.ts:49-64 | a user is in proximity exactly when it is a different user sharing a bubble |
| Clusters.CompanionsAreComponent | src/proximity.ts:49-64 | a user's companions are the rest of its component when it has a neighbour, and nobody otherwise |
| Clusters.NoCompanionsIffUnclustered | src/proximity.ts:49-64 | nobody is in proximity exactly when the user is in no bubble |
| Clusters.PairGraph | src/proximity.ts:88-97 | for two users, each lists the other exactly when they are in range |
| Clusters.NearbyBubblesArePair | src/proximity.ts:23-37 | two users 50 apart form bubbles that hold both of them |
| Clusters.NearbyPairShareOneBubble | src/proximity.ts:23-37 | two users 50 apart share exactly one bubble, centred halfway between them |
| Clusters.PairAtThresholdHasNoBubble | src/proximity.ts:94 | two users exactly 120 apart are not in range, so they form no bubble |
| Office.CircleRectCollision | src/map.ts:141-157 | a circle hits a rectangle when the squared distance from its centre to the clamped point is strictly below the squared radius |
| Office.Collides | src/map.ts:131-139 | some wall of the list hits the circle |
| Office.ClosestPointInside | src/map.ts:148-149 | the clamped point lies in the rectangle and is the centre itself when the centre is inside |
| Office.ClosestIsNearest | src/map.ts:147-149 | no point of the rectangle is nearer the centre than the clamped point |
| Office.CollisionIffPointWithinRadius | src/map.ts:141-157 | a collision is reported exactly when some point of the rectangle is strictly within the radius |
| Office.TouchingDoesNotCollide | src/map.ts:156 | a circle that only touches a wall does not collide |
| Office.CentreInsideCollides | src/map.ts:148-156 | a circle of positive radius whose centre is on the wall collides |
| Office.ApartFrom | src/map.ts:141-157 | a circle at least its radius beyond a wall along one axis does not collide |
| Office.LayoutWalls | src/map.ts:37-85 | the four outer walls, the two pieces of the vertical divider and the horizontal divider, in that order |
| Office.LayoutZones | src/map.ts:88-113 | the Entry, Meeting Room and Open Office zones with their colours |
| Office.LayoutSpawn | src/map.ts:116-121 | the spawn area starts 70 in from the corner and is w/2 - 140 by h/2 - 140 |
| Office.LayoutShape | src/map.ts:37-121 | seven walls (four outer, three dividers) with their colours, three named zones, and the spawn area at (70, 70) of size w/2 - 140 by h/2 - 140 |
| Office.SpawnInEntry | src/map.ts:88-121 | on a floor of at least 280 by 280, the spawn area lies in the entry zone |
| Office.SpawnAreaIsClear | src/map.ts:37-121 | no wall comes within 50 of any point of the spawn area |
| Office.CentreIsClear | src/map.ts:61-76 | the doorway leaves the centre of the floor free for an avatar |
| Office.OfficeMap.constructor | src/map.ts:24-29 | a new map has its size and the layout for that size |
| Office.OfficeMap.CreateOfficeLayout | src/map.ts:31-122 | the layout appends the walls and the zones and sets the spawn area |
| Office.OfficeMap.GetRandomSpawnPosition | src/map.ts:124-129 | fractions in [0, 1) give a point in the half-open spawn area |
| Office.OfficeMap.CheckCollision | src/map.ts:131-139 | true exactly when some wall collides with the circle |
| Client.KeyedById | src/main.ts:152-155 | the view holds exactly the ids of the list, each filed under its own id |
| Client.KeyedByIdLastWins | src/main.ts:153-155 | each user is filed under its id unless a later one shares it |
| Client.KeyedByIdHoldsSnapshot | src/main.ts:152-155 | a snapshot with distinct ids becomes a view holding exactly its users |
| Client.Speed | src/main.ts:209-211 | the step length, doubled while shift is held |
| Client.Target | src/main.ts:217-232 | the position the held keys ask for, one step along each axis |
| Client.Step | src/main.ts:214-247 | one frame's move: the horizontal step when it is clear, then the vertical step when it is clear |
| Client.SpeedChoice | src/main.ts:209-211 | the step is 10 with shift and 5 without |
| Client.StepIsOneStep | src/main.ts:214-247 | with no movement key the avatar stays; otherwise each coordinate stays or moves one step in the resolved direction |
| Client.ConflictingKeys | src/main.ts:217-232 | for any set of held keys, a down key (`s` or the arrow) moves down one step whatever else is held, and a right key moves right; up moves up only without a down key, and left moves left only without a right key |
| Client.StepStaysClear | src/main.ts:235-247 | an avatar clear of every wall stays clear after a frame |
| Client.SpawnIsClear | src/main.ts:137-140 | a freshly spawned avatar clears every wall of the layout |
| Client.VirtualOffice.constructor | src/main.ts:72-73 | a client starts with no user, an empty view and a map of its canvas size |
| Client.VirtualOffice.HandleMessage | src/main.ts:131-175 | `init` sets the user at a spawn point, reports it, and replaces the view with the snapshot; `user-joined` and `user-moved` file one user; `user-left` removes one id; a `user-moved` without a user changes nothing |
| Client.VirtualOffice.ReplaceView | src/main.ts:152-155 | after clearing and refilling, the view is exactly the snapshot keyed by id |
| Client.VirtualOffice.Walk | src/main.ts:204-247 | the movement code computes the step: x is taken when (new x, old y) is clear, then y when (current x, new y) is clear |
| Client.VirtualOffice.Update | src/main.ts:201-260 | nothing happens without a user or a map; otherwise the avatar takes the step, and the view is updated and a move sent exactly when a movement key was held and the position changed; a clear avatar stays clear |
| Client.HeardTwice | src/main.ts:159-168 | filing the same user twice gives the same view as once |

## Left out

- Audio and WebRTC peer management (`src/audio.ts`): asynchronous media code whose behaviour
  depends on the interleaving of awaits. The server's relay of signals is modelled.
- Canvas rendering (`src/renderer.ts`, the client's `render` and draw helpers,
  `OfficeMap.render`): drawing only.
- The transport and input layer: the WebSocket wrapper, `connect` and `disconnect`, key
  listeners, the login bootstrap and the HTTP `listen` calls. The pressed keys are a set given
  to `update`, and the client's sends are recorded in `sent`. `ws?.send` is taken to have a
  socket.
- `setupCanvas` and window resizing: the client's map is made once, in the constructor, at
  the given size.
- `startGameLoop` and `updateUserCount`: UI scheduling and a text label.
- JSON encoding and decoding: messages are datatypes. A payload that fails to parse is
  `Unparsable`, and a type tag outside the handler's cases is `Unrecognized`.
- `Math.random`, `generateId` and `Math.sqrt` are parameters. Id uniqueness is never checked
  by the server, so the model does not check it either; a repeated id overwrites both map
  entries, as `Map.set` does.
- IEEE floating point: coordinates are reals. Rounding and `NaN` are not modelled, including a
  `move` whose `x` or `y` is missing.
- `readyState`: an open socket is membership in `open`, and `close` removes it. `init` is sent
  to the joiner's socket without a readiness test, as in the source.
- The `users` server message type: it is declared in the types but never sent or handled.
- The initiator tie-break and per-pair connection states: no modelled file implements them.
- Object aliasing on the client: `currentUser` and its entry in the view are values. After
  `update` files the avatar anew they agree, as they do when the source shares one object.
- Clusters.GetClustersForUser: its contracts fix which bubbles occur and how often, but not their order. The definition keeps the input order, as `filter` does.
- Clusters.CalculateClusters: requires the users to have distinct ids. The source passes the values of a `Map` keyed by user id, so no id repeats there.
- Proximity.BuildProximityGraph: requires distinct ids, for the same reason as CalculateClusters.
- Graphs.ProximityGraph: defined only for users with distinct ids, since it is keyed by id.
- Registry.Server.Broadcast: it collects the writes of one broadcast and appends them
  together; the outbox order is the same as writing them one at a time.
