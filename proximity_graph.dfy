/** The "in range" graph of the proximity engine: which users are close enough to talk,
    and the walks, reachability and components over it. */
module Graphs {
  import opened Protocol
  import opened Geometry

  /** Adjacency sets keyed by user id, as `buildProximityGraph` returns them. */
  type Graph = map<UserId, set<UserId>>

  /** `distance(a, b) < threshold`, written without a square root. */
  predicate InRange(a: User, b: User, threshold: real) {
    0.0 < threshold && SqDist(a.x, a.y, b.x, b.y) < threshold * threshold
  }

  /** Comparing squared values decides the same strict inequality as comparing the distance
      itself: for any non-negative `d` whose square is `sq`, `d < threshold` exactly when
      `InRange`'s test holds. */
  lemma SqrtFreeCompare(d: real, sq: real, threshold: real)
    requires 0.0 <= d && d * d == sq
    ensures d < threshold <==> (0.0 < threshold && sq < threshold * threshold)
  {
    var dd, dt, tt := d * d, d * threshold, threshold * threshold;
    if d < threshold {
      assert dd <= dt;
      assert dt < tt;
    } else if 0.0 < threshold {
      assert tt <= dt <= dd;
    }
  }

  lemma InRangeSymmetric(a: User, b: User, threshold: real)
    ensures InRange(a, b, threshold) == InRange(b, a, threshold)
  {
    assert (a.x - b.x) * (a.x - b.x) == (b.x - a.x) * (b.x - a.x);
    assert (a.y - b.y) * (a.y - b.y) == (b.y - a.y) * (b.y - a.y);
  }

  /** The ids of the users in range of `users[p]`, itself excluded. */
  ghost function NeighbourIds(users: seq<User>, threshold: real, p: nat): set<UserId>
    requires p < |users|
  {
    set q | 0 <= q < |users| && q != p && InRange(users[p], users[q], threshold) :: users[q].id
  }

  /** The graph `buildProximityGraph` is meant to build: one entry per user, holding the ids
      of everybody strictly within the threshold. */
  ghost function ProximityGraph(users: seq<User>, threshold: real): Graph
    requires DistinctIds(users)
  {
    map p | 0 <= p < |users| :: users[p].id := NeighbourIds(users, threshold, p)
  }

  /** An undirected simple graph on its own key set. */
  ghost predicate WellFormed(g: Graph) {
    && (forall a :: a in g ==> g[a] <= g.Keys && a !in g[a])
    && (forall a, b :: a in g && b in g[a] ==> a in g[b])
  }

  /** Every user is a node and an edge joins two users exactly when they are strictly in
      range; no user is its own neighbour and the relation is symmetric. */
  lemma {:induction false} ProximityEdge(users: seq<User>, threshold: real, p: nat, q: nat)
    requires DistinctIds(users) && p < |users| && q < |users|
    ensures users[p].id in ProximityGraph(users, threshold)
    ensures users[q].id in ProximityGraph(users, threshold)[users[p].id]
        <==> p != q && InRange(users[p], users[q], threshold)
  {
    var g := ProximityGraph(users, threshold);
    assert g[users[p].id] == NeighbourIds(users, threshold, p);
    if users[q].id in NeighbourIds(users, threshold, p) {
      var q' :| 0 <= q' < |users| && q' != p && InRange(users[p], users[q'], threshold)
             && users[q'].id == users[q].id;
      assert q' == q;
    }
  }

  lemma ProximityGraphShape(users: seq<User>, threshold: real)
    requires DistinctIds(users)
    ensures ProximityGraph(users, threshold).Keys == Ids(users)
    ensures WellFormed(ProximityGraph(users, threshold))
  {
    var g := ProximityGraph(users, threshold);
    forall a | a in g
      ensures g[a] <= g.Keys && a !in g[a]
    {
      var p :| 0 <= p < |users| && users[p].id == a;
      ProximityEdge(users, threshold, p, p);
    }
    forall a, b | a in g && b in g[a]
      ensures a in g[b]
    {
      var p :| 0 <= p < |users| && users[p].id == a;
      var q :| 0 <= q < |users| && q != p && InRange(users[p], users[q], threshold)
             && users[q].id == b;
      InRangeSymmetric(users[p], users[q], threshold);
      ProximityEdge(users, threshold, q, p);
    }
  }

  /** A walk: a non-empty sequence of nodes, each one a neighbour of the one before. */
  ghost predicate IsWalk(g: Graph, w: seq<UserId>) {
    && |w| >= 1
    && (forall i :: 0 <= i < |w| ==> w[i] in g)
    && (forall i :: 0 <= i < |w| - 1 ==> w[i + 1] in g[w[i]])
  }

  /** `b` can be reached from `a` by following edges (a node reaches itself). */
  ghost predicate Reach(g: Graph, a: UserId, b: UserId) {
    exists w :: IsWalk(g, w) && w[0] == a && w[|w| - 1] == b
  }

  /** The connected component of `a`: every node reachable from it. */
  ghost function Component(g: Graph, a: UserId): set<UserId> {
    set b | b in g.Keys && Reach(g, a, b)
  }

  lemma ReachSelf(g: Graph, a: UserId)
    requires a in g
    ensures Reach(g, a, a)
  {
    assert IsWalk(g, [a]);
  }

  lemma ReachEndsInGraph(g: Graph, a: UserId, b: UserId)
    requires Reach(g, a, b)
    ensures a in g && b in g
  {
    var w :| IsWalk(g, w) && w[0] == a && w[|w| - 1] == b;
  }

  /** Prepending an edge `a -> n` to a walk from `n`. */
  lemma ReachStep(g: Graph, a: UserId, n: UserId, b: UserId)
    requires a in g && n in g[a] && Reach(g, n, b)
    ensures Reach(g, a, b)
  {
    var w :| IsWalk(g, w) && w[0] == n && w[|w| - 1] == b;
    var w' := [a] + w;
    assert forall i :: 0 < i < |w'| ==> w'[i] == w[i - 1];
    assert IsWalk(g, w');
  }

  lemma ReachTransitive(g: Graph, a: UserId, b: UserId, c: UserId)
    requires Reach(g, a, b) && Reach(g, b, c)
    ensures Reach(g, a, c)
  {
    var u :| IsWalk(g, u) && u[0] == a && u[|u| - 1] == b;
    var v :| IsWalk(g, v) && v[0] == b && v[|v| - 1] == c;
    var w := u + v[1..];
    assert forall i :: |u| <= i < |w| ==> w[i] == v[i - |u| + 1];
    assert IsWalk(g, w);
  }

  lemma ReachSymmetric(g: Graph, a: UserId, b: UserId)
    requires WellFormed(g) && Reach(g, a, b)
    ensures Reach(g, b, a)
  {
    var w :| IsWalk(g, w) && w[0] == a && w[|w| - 1] == b;
    var r := seq(|w|, i requires 0 <= i < |w| => w[|w| - 1 - i]);
    assert forall i :: 0 <= i < |r| - 1 ==> r[i + 1] in g[r[i]] by {
      forall i | 0 <= i < |r| - 1 ensures r[i + 1] in g[r[i]] {
        assert w[|w| - 1 - i] in g[w[|w| - 2 - i]];
      }
    }
    assert IsWalk(g, r);
  }

  /** Nodes of one component share that component. */
  lemma ComponentOfMember(g: Graph, s: UserId, a: UserId)
    requires WellFormed(g) && a in Component(g, s)
    ensures Component(g, a) == Component(g, s)
  {
    ReachSymmetric(g, s, a);
    forall b | b in Component(g, a) ensures b in Component(g, s) {
      ReachTransitive(g, s, a, b);
    }
    forall b | b in Component(g, s) ensures b in Component(g, a) {
      ReachTransitive(g, a, s, b);
    }
  }

  /** A node with a neighbour has a component of at least two nodes. */
  lemma NeighbourInComponent(g: Graph, s: UserId, n: UserId)
    requires WellFormed(g) && s in g && n in g[s]
    ensures n in Component(g, s) && s in Component(g, s) && n != s
  {
    ReachSelf(g, n);
    ReachStep(g, s, n, n);
    ReachSelf(g, s);
  }

  /** If `V` is closed under edges and a search from `s` outside `V` marked `V' - V`, each
      marked node being reachable from `s` and having all its neighbours marked, then the
      search marked exactly the component of `s`. */
  lemma ExploredIsComponent(g: Graph, V: set<UserId>, V': set<UserId>, s: UserId)
    requires WellFormed(g)
    requires forall w :: w in V ==> w in g && g[w] <= V
    requires s in g && s !in V && s in V' && V <= V'
    requires forall w :: w in V' - V ==> w in g && g[w] <= V'
    requires forall w :: w in V' - V ==> Reach(g, s, w)
    ensures V' - V == Component(g, s)
  {
    forall b | b in Component(g, s) ensures b in V' - V {
      var w :| IsWalk(g, w) && w[0] == s && w[|w| - 1] == b;
      WalkStaysInside(g, V, V', w, |w| - 1);
    }
  }

  lemma {:induction false} WalkStaysInside(g: Graph, V: set<UserId>, V': set<UserId>, w: seq<UserId>, i: nat)
    requires WellFormed(g)
    requires forall x :: x in V ==> x in g && g[x] <= V
    requires forall x :: x in V' - V ==> x in g && g[x] <= V'
    requires IsWalk(g, w) && w[0] in V' - V && i < |w|
    ensures w[i] in V' - V
  {
    if i > 0 {
      WalkStaysInside(g, V, V', w, i - 1);
      assert w[i] in g[w[i - 1]];
    }
  }
}
