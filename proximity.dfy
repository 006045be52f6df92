/** The proximity graph and its connected components: the search half of
    `ProximityManager`. */
module Proximity {
  import opened Protocol
  import opened Graphs

  // ---------------------------------------------------------------- the graph

  /** Which unordered pairs the nested loops have looked at when the outer index is `i` and
      the inner one `j`. */
  ghost predicate PairDone(p: nat, q: nat, i: nat, j: nat) {
    p < i || q < i || (p == i && q < j) || (q == i && p < j)
  }

  ghost predicate EdgesSoFar(users: seq<User>, threshold: real, g: Graph, i: nat, j: nat) {
    && g.Keys == Ids(users)
    && (forall a :: a in g ==> g[a] <= Ids(users))
    && PairsRecorded(users, threshold, g, i, j)
  }

  ghost predicate PairsRecorded(users: seq<User>, threshold: real, g: Graph, i: nat, j: nat)
    requires g.Keys == Ids(users)
  {
    forall p, q :: 0 <= p < |users| && 0 <= q < |users| ==>
      (users[q].id in g[users[p].id] <==>
         p != q && InRange(users[p], users[q], threshold) && PairDone(p, q, i, j))
  }

  /** The two `add` calls that record an edge in both adjacency sets. */
  function Link(g: Graph, a: UserId, b: UserId): (g': Graph)
    requires a in g && b in g
    ensures g'.Keys == g.Keys
  {
    var g1 := g[a := g[a] + {b}];
    g1[b := g1[b] + {a}]
  }

  /** The two `add` calls for the pair `(i, j)` when it is in range, nothing otherwise; this
      advances the inner loop by one pair. */
  function RecordPair(users: seq<User>, threshold: real, g: Graph, i: nat, j: nat): (g': Graph)
    requires DistinctIds(users) && i < j < |users|
    requires EdgesSoFar(users, threshold, g, i, j)
    ensures EdgesSoFar(users, threshold, g', i, j + 1)
  {
    InRangeSymmetric(users[i], users[j], threshold);
    if InRange(users[i], users[j], threshold) then
      LinkPair(users, threshold, g, i, j);
      Link(g, users[i].id, users[j].id)
    else
      g
  }

  lemma LinkPair(users: seq<User>, threshold: real, g: Graph, i: nat, j: nat)
    requires DistinctIds(users) && i < j < |users|
    requires EdgesSoFar(users, threshold, g, i, j)
    requires InRange(users[i], users[j], threshold)
    ensures EdgesSoFar(users, threshold, Link(g, users[i].id, users[j].id), i, j + 1)
  {
    InRangeSymmetric(users[i], users[j], threshold);
    forall p | 0 <= p < |users| {
      LinkedRow(users, threshold, g, i, j, p);
    }
  }

  /** Row `p` of the graph after recording the in-range pair `(i, j)`. */
  lemma LinkedRow(users: seq<User>, threshold: real, g: Graph, i: nat, j: nat, p: nat)
    requires DistinctIds(users) && i < j < |users| && p < |users|
    requires EdgesSoFar(users, threshold, g, i, j)
    requires InRange(users[i], users[j], threshold) && InRange(users[j], users[i], threshold)
    ensures forall q :: 0 <= q < |users| ==>
      (users[q].id in Link(g, users[i].id, users[j].id)[users[p].id] <==>
         p != q && InRange(users[p], users[q], threshold) && PairDone(p, q, i, j + 1))
  {
    var a, b := users[i].id, users[j].id;
    var g' := Link(g, a, b);
    if p == i {
      assert g'[users[p].id] == g[a] + {b};
    } else if p == j {
      assert g'[users[p].id] == g[b] + {a};
    } else {
      assert g'[users[p].id] == g[users[p].id];
    }
  }

  /** A finished row `i` is the same as an unstarted row `i + 1`. */
  lemma RowStep(users: seq<User>, threshold: real, g: Graph, i: nat)
    requires i < |users|
    requires EdgesSoFar(users, threshold, g, i, |users|)
    ensures EdgesSoFar(users, threshold, g, i + 1, i + 2)
  {
    forall p, q | 0 <= p < |users| && 0 <= q < |users| && p != q
      ensures PairDone(p, q, i, |users|) == PairDone(p, q, i + 1, i + 2)
    {
    }
  }

  /** `users.forEach((u) => graph.set(u.id, new Set()))`. */
  method EmptyAdjacency(users: seq<User>) returns (g: Graph)
    ensures g.Keys == Ids(users)
    ensures forall a :: a in g ==> g[a] == {}
  {
    g := map[];
    for k := 0 to |users|
      invariant g.Keys == Ids(users[..k])
      invariant forall a :: a in g ==> g[a] == {}
    {
      assert users[..k + 1] == users[..k] + [users[k]];
      g := g[users[k].id := {}];
    }
    assert users[..|users|] == users;
  }

  lemma NoPairsYet(users: seq<User>, threshold: real, g: Graph)
    requires g.Keys == Ids(users)
    requires forall a :: a in g ==> g[a] == {}
    ensures EdgesSoFar(users, threshold, g, 0, 1)
  {
    forall p, q | 0 <= p < |users| && 0 <= q < |users|
      ensures users[q].id !in g[users[p].id]
      ensures !(p != q && PairDone(p, q, 0, 1))
    {
    }
  }

  /** One pass of the inner loop of `buildProximityGraph`: user `i` against every later
      user, recording each pair in range in both adjacency sets. */
  method LinkRow(users: seq<User>, threshold: real, g: Graph, i: nat) returns (g': Graph)
    requires DistinctIds(users) && i < |users|
    requires EdgesSoFar(users, threshold, g, i, i + 1)
    ensures EdgesSoFar(users, threshold, g', i + 1, i + 2)
  {
    g' := g;
    for j := i + 1 to |users|
      invariant EdgesSoFar(users, threshold, g', i, j)
    {
      g' := RecordPair(users, threshold, g', i, j);
    }
    RowStep(users, threshold, g', i);
  }

  /** `buildProximityGraph`: an empty set per user, then every pair `i < j` compared once and,
      when in range, recorded in both directions. The result is the specified graph. */
  method BuildProximityGraph(users: seq<User>, threshold: real) returns (g: Graph)
    requires DistinctIds(users)
    ensures g == ProximityGraph(users, threshold)
  {
    g := EmptyAdjacency(users);
    NoPairsYet(users, threshold, g);
    for i := 0 to |users|
      invariant EdgesSoFar(users, threshold, g, i, i + 1)
    {
      g := LinkRow(users, threshold, g, i);
    }
    MatchesProximityGraph(users, threshold, g);
  }

  /** Once every pair has been looked at, the graph is the specified one. */
  lemma MatchesProximityGraph(users: seq<User>, threshold: real, g: Graph)
    requires DistinctIds(users)
    requires EdgesSoFar(users, threshold, g, |users|, |users| + 1)
    ensures g == ProximityGraph(users, threshold)
  {
    ProximityGraphShape(users, threshold);
    forall a | a in g ensures g[a] == ProximityGraph(users, threshold)[a] {
      var p :| 0 <= p < |users| && users[p].id == a;
      EntryMatches(users, threshold, g, p);
    }
  }

  lemma EntryMatches(users: seq<User>, threshold: real, g: Graph, p: nat)
    requires DistinctIds(users) && p < |users|
    requires EdgesSoFar(users, threshold, g, |users|, |users| + 1)
    ensures g[users[p].id] == ProximityGraph(users, threshold)[users[p].id]
  {
    var a := users[p].id;
    var spec := ProximityGraph(users, threshold);
    ProximityGraphShape(users, threshold);
    assert spec[a] <= Ids(users) && g[a] <= Ids(users);
    forall b | b in Ids(users) ensures b in g[a] <==> b in spec[a] {
      var q :| 0 <= q < |users| && users[q].id == b;
      EdgeMatches(users, threshold, g, p, q);
    }
  }

  lemma EdgeMatches(users: seq<User>, threshold: real, g: Graph, p: nat, q: nat)
    requires DistinctIds(users) && p < |users| && q < |users|
    requires EdgesSoFar(users, threshold, g, |users|, |users| + 1)
    ensures users[q].id in g[users[p].id] <==> users[q].id in ProximityGraph(users, threshold)[users[p].id]
  {
    assert PairDone(p, q, |users|, |users| + 1);
    ProximityEdge(users, threshold, p, q);
  }

  // ---------------------------------------------------------------- components

  /** `users.find(u => u.id === id)`: the first user with that id. */
  function Find(users: seq<User>, id: UserId): (r: Option<User>)
    ensures r.Some? ==> r.value in users && r.value.id == id
    ensures r.None? <==> id !in Ids(users)
  {
    if users == [] then None
    else if users[0].id == id then Some(users[0])
    else
      var r := Find(users[1..], id);
      assert forall i :: 1 <= i < |users| ==> users[i] == users[1..][i - 1];
      r
  }

  /** The users gathered so far all come from `users`, are distinct and are already marked. */
  ghost predicate Gathered(users: seq<User>, cluster: seq<User>, visited: set<UserId>) {
    && (forall x :: x in cluster ==> x in users)
    && DistinctIds(cluster)
    && Ids(cluster) <= visited
  }

  lemma GatherOne(users: seq<User>, cluster: seq<User>, visited: set<UserId>, x: User)
    requires Gathered(users, cluster, visited) && x in users && x.id !in visited
    ensures Gathered(users, cluster + [x], visited + {x.id})
    ensures Ids(cluster + [x]) == Ids(cluster) + {x.id}
  {
    var c := cluster + [x];
    assert forall i :: 0 <= i < |cluster| ==> c[i] == cluster[i];
  }

  /** A search from `u` that started with `visited` marked and `cluster` gathered has marked
      only nodes reachable from `u` and gathered exactly their users. */
  ghost predicate SearchedFrom(users: seq<User>, g: Graph, u: UserId,
                               visited: set<UserId>, visited': set<UserId>,
                               cluster: seq<User>, cluster': seq<User>)
  {
    && visited <= visited'
    && (forall w :: w in visited' - visited ==> Reach(g, u, w))
    && Gathered(users, cluster', visited')
    && Ids(cluster') == Ids(cluster) + (visited' - visited)
  }

  /** Every node marked since `visited`, except those in `pending`, has all its neighbours
      marked. */
  ghost predicate ClosedExcept(g: Graph, visited: set<UserId>, visited': set<UserId>, pending: set<UserId>) {
    forall w :: w in visited' - visited && w !in pending ==> w in g && g[w] <= visited'
  }

  /** One neighbour's search, as seen from the search at `u` that made it. */
  lemma ChildSearch(users: seq<User>, g: Graph, u: UserId, n: UserId,
                    visited: set<UserId>, v1: set<UserId>, v2: set<UserId>,
                    cluster: seq<User>, c1: seq<User>, c2: seq<User>)
    requires u in g && n in g[u]
    requires SearchedFrom(users, g, u, visited, v1, cluster, c1)
    requires ClosedExcept(g, visited, v1, {u})
    requires SearchedFrom(users, g, n, v1, v2, c1, c2)
    requires ClosedExcept(g, v1, v2, {})
    ensures SearchedFrom(users, g, u, visited, v2, cluster, c2)
    ensures ClosedExcept(g, visited, v2, {u})
  {
    forall w | w in v2 - v1 ensures Reach(g, u, w) {
      ReachStep(g, u, n, w);
    }
  }

  /** The recursive `dfs` closure of `findConnectedComponents`: mark `u`, add its user to the
      cluster and search from each neighbour. Started outside the marked set, it marks only
      nodes reachable from `u`, and leaves every newly marked node with all its neighbours
      marked. */
  method Dfs(users: seq<User>, g: Graph, u: UserId, visited: set<UserId>, cluster: seq<User>)
    returns (visited': set<UserId>, cluster': seq<User>)
    requires WellFormed(g) && g.Keys == Ids(users)
    requires u in g
    requires Gathered(users, cluster, visited)
    ensures u in visited'
    ensures SearchedFrom(users, g, u, visited, visited', cluster, cluster')
    ensures ClosedExcept(g, visited, visited', {})
    decreases g.Keys - visited
  {
    if u in visited {
      return visited, cluster;
    }
    visited' := visited + {u};
    var found := Find(users, u);
    match found {
      case Some(user) =>
        GatherOne(users, cluster, visited, user);
        cluster' := cluster + [user];
        ReachSelf(g, u);
        var todo := g[u];
        while todo != {}
          invariant todo <= g[u]
          invariant visited + {u} <= visited'
          invariant g[u] - todo <= visited'
          invariant SearchedFrom(users, g, u, visited, visited', cluster, cluster')
          invariant ClosedExcept(g, visited, visited', {u})
          decreases todo
        {
          var n :| n in todo;
          todo := todo - {n};
          ghost var v1, c1 := visited', cluster';
          assert g.Keys - v1 < g.Keys - visited by {
            assert u in g.Keys - visited && u !in g.Keys - v1;
          }
          visited', cluster' := Dfs(users, g, n, visited', cluster');
          ChildSearch(users, g, u, n, visited, v1, visited', cluster, c1, cluster');
        }
    }
  }

  /** What `findConnectedComponents` promises of one returned set: distinct users taken from
      `users`, at least two of them, whose ids form the component of each member. */
  ghost predicate IsComponentOf(users: seq<User>, g: Graph, c: seq<User>) {
    && (forall x :: x in c ==> x in users)
    && DistinctIds(c)
    && |c| >= 2
    && forall a :: a in Ids(c) ==> Ids(c) == Component(g, a)
  }

  lemma TwoIdsTwoUsers(c: seq<User>, a: UserId, b: UserId)
    requires a in Ids(c) && b in Ids(c) && a != b
    ensures |c| >= 2
  {
    var i :| 0 <= i < |c| && c[i].id == a;
    var j :| 0 <= j < |c| && c[j].id == b;
  }

  /** The state of `findConnectedComponents` between seeds: the marked set is closed under
      edges and is exactly covered by the components found, which are disjoint. */
  ghost predicate ComponentsSoFar(users: seq<User>, g: Graph, components: seq<seq<User>>, visited: set<UserId>) {
    && (forall w :: w in visited ==> w in g && g[w] <= visited)
    && (forall k :: 0 <= k < |components| ==> IsComponentOf(users, g, components[k]))
    && (forall k :: 0 <= k < |components| ==> Ids(components[k]) <= visited)
    && (forall k, l :: 0 <= k < l < |components| ==> Ids(components[k]) !! Ids(components[l]))
    && (forall w :: w in visited ==> exists k :: 0 <= k < |components| && w in Ids(components[k]))
  }

  /** A search from an unmarked seed that has a neighbour yields one more component. */
  lemma AddComponent(users: seq<User>, g: Graph, components: seq<seq<User>>,
                     before: set<UserId>, visited: set<UserId>, seed: UserId, c: seq<User>)
    requires WellFormed(g) && g.Keys == Ids(users)
    requires ComponentsSoFar(users, g, components, before)
    requires seed in g && seed !in before && g[seed] != {}
    requires seed in visited
    requires SearchedFrom(users, g, seed, before, visited, [], c)
    requires ClosedExcept(g, before, visited, {})
    ensures ComponentsSoFar(users, g, components + [c], visited)
    ensures Ids(c) == Component(g, seed)
  {
    ExploredIsComponent(g, before, visited, seed);
    assert Ids(c) == Component(g, seed);
    var n :| n in g[seed];
    NeighbourInComponent(g, seed, n);
    TwoIdsTwoUsers(c, seed, n);
    forall a | a in Ids(c) ensures Ids(c) == Component(g, a) {
      ComponentOfMember(g, seed, a);
    }
    assert IsComponentOf(users, g, c);
    ExtendComponents(users, g, components, before, visited, c);
  }

  lemma ExtendComponents(users: seq<User>, g: Graph, components: seq<seq<User>>,
                         before: set<UserId>, visited: set<UserId>, c: seq<User>)
    requires ComponentsSoFar(users, g, components, before)
    requires IsComponentOf(users, g, c)
    requires before <= visited && Ids(c) == visited - before
    requires ClosedExcept(g, before, visited, {})
    ensures ComponentsSoFar(users, g, components + [c], visited)
  {
    var cs := components + [c];
    forall w | w in visited ensures w in g && g[w] <= visited {
      if w in before {
        assert g[w] <= before;
      } else {
        assert w in visited - before;
      }
    }
    forall k | 0 <= k < |cs|
      ensures IsComponentOf(users, g, cs[k]) && Ids(cs[k]) <= visited
    {
      if k < |components| {
        assert cs[k] == components[k];
        assert Ids(components[k]) <= before;
      }
    }
    forall k, l | 0 <= k < l < |cs| ensures Ids(cs[k]) !! Ids(cs[l]) {
      assert cs[k] == components[k];
      if l < |components| {
        assert cs[l] == components[l];
      } else {
        assert cs[l] == c;
        assert Ids(components[k]) <= before;
      }
    }
    forall w | w in visited ensures exists k :: 0 <= k < |cs| && w in Ids(cs[k]) {
      if w in before {
        var k :| 0 <= k < |components| && w in Ids(components[k]);
        assert cs[k] == components[k];
      } else {
        assert w in Ids(cs[|components|]);
      }
    }
  }

  /** `findConnectedComponents`: a search from every not-yet-marked user that has a
      neighbour. The results are components of the graph, pairwise disjoint, and together
      they cover every user that has a neighbour. */
  method FindConnectedComponents(users: seq<User>, g: Graph) returns (components: seq<seq<User>>)
    requires WellFormed(g) && g.Keys == Ids(users)
    ensures forall k :: 0 <= k < |components| ==> IsComponentOf(users, g, components[k])
    ensures forall k, l :: 0 <= k < l < |components| ==> Ids(components[k]) !! Ids(components[l])
    ensures forall a :: a in g && g[a] != {} ==>
              exists k :: 0 <= k < |components| && a in Ids(components[k])
  {
    components := [];
    var visited: set<UserId> := {};
    for i := 0 to |users|
      invariant ComponentsSoFar(users, g, components, visited)
      invariant SeedsDone(users, g, visited, i)
    {
      components, visited := VisitSeed(users, g, components, visited, i);
    }
    AllSeedsDone(users, g, components, visited);
  }

  /** Every user before position `i` that has a neighbour is marked. */
  ghost predicate SeedsDone(users: seq<User>, g: Graph, visited: set<UserId>, i: nat)
    requires g.Keys == Ids(users)
  {
    forall j :: 0 <= j < i && j < |users| && g[users[j].id] != {} ==> users[j].id in visited
  }

  /** One round of `findConnectedComponents`: a search from `users[i]` when it is unmarked and
      has a neighbour. */
  method VisitSeed(users: seq<User>, g: Graph, components: seq<seq<User>>, visited: set<UserId>, i: nat)
    returns (components': seq<seq<User>>, visited': set<UserId>)
    requires WellFormed(g) && g.Keys == Ids(users) && i < |users|
    requires ComponentsSoFar(users, g, components, visited) && SeedsDone(users, g, visited, i)
    ensures ComponentsSoFar(users, g, components', visited') && SeedsDone(users, g, visited', i + 1)
  {
    components', visited' := components, visited;
    var seed := users[i].id;
    if seed !in visited && g[seed] != {} {
      var c;
      visited', c := Dfs(users, g, seed, visited, []);
      AddComponent(users, g, components, visited, visited', seed, c);
      components' := components + [c];
      assert visited <= visited';
    }
  }

  /** Once every seed is done, the components cover every user that has a neighbour. */
  lemma AllSeedsDone(users: seq<User>, g: Graph, components: seq<seq<User>>, visited: set<UserId>)
    requires g.Keys == Ids(users)
    requires ComponentsSoFar(users, g, components, visited) && SeedsDone(users, g, visited, |users|)
    ensures forall a :: a in g && g[a] != {} ==>
              exists k :: 0 <= k < |components| && a in Ids(components[k])
  {
    forall a | a in g && g[a] != {}
      ensures exists k :: 0 <= k < |components| && a in Ids(components[k])
    {
      var j :| 0 <= j < |users| && users[j].id == a;
    }
  }


}
