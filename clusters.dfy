/** `ProximityManager`: groups users into conversation clusters, the connected components of
    size two or more of the strict "in range" graph, and answers membership queries. */
module Clusters {
  import opened Protocol
  import opened Geometry
  import opened Graphs
  import opened Proximity

  /** The constructor's default proximity distance. */
  const DefaultProximityDistance: real := 120.0
  const BubblePadding: real := 40.0
  const BubbleMinRadius: real := 80.0

  /** A conversation bubble: its members (as ids and as users), centre and radius. */
  datatype Cluster = Cluster(userIds: set<UserId>, users: seq<User>, center: Position, radius: real)

  // ---------------------------------------------------------------- geometry

  /** `users.reduce((sum, u) => sum + u.x, 0)`. */
  function SumX(us: seq<User>): real {
    if us == [] then 0.0 else SumX(us[..|us| - 1]) + us[|us| - 1].x
  }

  /** `users.reduce((sum, u) => sum + u.y, 0)`. */
  function SumY(us: seq<User>): real {
    if us == [] then 0.0 else SumY(us[..|us| - 1]) + us[|us| - 1].y
  }

  /** `Math.max(...xs)` of a non-empty list: an element that no element exceeds. */
  function MaxOf(xs: seq<real>): (m: real)
    requires |xs| > 0
    ensures forall i :: 0 <= i < |xs| ==> xs[i] <= m
    ensures m in xs
  {
    if |xs| == 1 then xs[0]
    else
      var rest := MaxOf(xs[1..]);
      assert forall i :: 1 <= i < |xs| ==> xs[i] == xs[1..][i - 1];
      Max(xs[0], rest)
  }

  /** The centroid: the mean of the members' coordinates. */
  function Centroid(members: seq<User>): (center: Position)
    requires |members| > 0
    ensures center.x * (|members| as real) == SumX(members)
    ensures center.y * (|members| as real) == SumY(members)
  {
    var n := |members| as real;
    Position(SumX(members) / n, SumY(members) / n)
  }

  /** The avatar's distance from `center`, through the given square root. */
  function DistanceFrom(u: User, center: Position, sqrt: real -> real): real {
    sqrt(SqDist(u.x, u.y, center.x, center.y))
  }

  /** `users.map(...)` of the members' distances from `center`. */
  function Distances(members: seq<User>, center: Position, sqrt: real -> real): (ds: seq<real>)
    ensures |ds| == |members|
    ensures forall i :: 0 <= i < |members| ==> ds[i] == DistanceFrom(members[i], center, sqrt)
  {
    if members == [] then []
    else [DistanceFrom(members[0], center, sqrt)] + Distances(members[1..], center, sqrt)
  }

  /** The largest member distance plus half an avatar and the padding, but never less than
      the minimum radius. */
  function BubbleRadius(members: seq<User>, center: Position, sqrt: real -> real): (r: real)
    requires |members| > 0
    ensures r >= BubbleMinRadius
    ensures forall i :: 0 <= i < |members| ==>
              DistanceFrom(members[i], center, sqrt) + AvatarSize / 2.0 + BubblePadding <= r
  {
    var distances := Distances(members, center, sqrt);
    var maxDistance := MaxOf(distances);
    Max(maxDistance + AvatarSize / 2.0 + BubblePadding, BubbleMinRadius)
  }

  /** `createClusterData`: the members' ids, their centroid, and a bubble radius that is at
      least the minimum and leaves every avatar, with padding, inside the bubble. The square
      root is `Math.sqrt`, a parameter here; nothing below depends on its values. */
  function CreateClusterData(members: seq<User>, sqrt: real -> real): (c: Cluster)
    requires |members| > 0
    ensures c.userIds == Ids(members) && c.users == members
    ensures c.center == Centroid(members)
    ensures c.radius >= BubbleMinRadius
    ensures forall i :: 0 <= i < |members| ==>
              DistanceFrom(members[i], c.center, sqrt) + AvatarSize / 2.0 + BubblePadding <= c.radius
  {
    var center := Centroid(members);
    Cluster(Ids(members), members, center, BubbleRadius(members, center, sqrt))
  }

  /** `a` added up `n` times. */
  function Times(a: real, n: nat): real {
    if n == 0 then 0.0 else Times(a, n - 1) + a
  }

  lemma {:induction false} TimesIsProduct(a: real, n: nat)
    ensures Times(a, n) == a * (n as real)
  {
    if n > 0 {
      TimesIsProduct(a, n - 1);
      assert a * ((n - 1) as real) + a == a * (n as real);
    }
  }

  /** Member coordinates within [lo, hi] add up to between n lo and n hi. */
  lemma {:induction false} SumXBounds(us: seq<User>, lo: real, hi: real)
    requires forall u :: u in us ==> lo <= u.x <= hi
    ensures Times(lo, |us|) <= SumX(us) <= Times(hi, |us|)
  {
    if us != [] {
      var init := us[..|us| - 1];
      assert forall u :: u in init ==> u in us;
      SumXBounds(init, lo, hi);
      assert us[|us| - 1] in us;
    }
  }

  lemma {:induction false} SumYBounds(us: seq<User>, lo: real, hi: real)
    requires forall u :: u in us ==> lo <= u.y <= hi
    ensures Times(lo, |us|) <= SumY(us) <= Times(hi, |us|)
  {
    if us != [] {
      var init := us[..|us| - 1];
      assert forall u :: u in init ==> u in us;
      SumYBounds(init, lo, hi);
      assert us[|us| - 1] in us;
    }
  }

  /** The centre of a bubble lies in every axis-aligned box that holds all its members. */
  lemma CentroidWithinMembers(members: seq<User>, loX: real, hiX: real, loY: real, hiY: real)
    requires |members| > 0
    requires forall u :: u in members ==> loX <= u.x <= hiX && loY <= u.y <= hiY
    ensures loX <= Centroid(members).x <= hiX && loY <= Centroid(members).y <= hiY
  {
    CentroidXWithin(members, loX, hiX);
    CentroidYWithin(members, loY, hiY);
  }

  lemma CentroidXWithin(members: seq<User>, lo: real, hi: real)
    requires |members| > 0
    requires forall u :: u in members ==> lo <= u.x <= hi
    ensures lo <= Centroid(members).x <= hi
  {
    var v, n := Centroid(members).x, |members| as real;
    SumXBounds(members, lo, hi);
    TimesIsProduct(lo, |members|);
    TimesIsProduct(hi, |members|);
    calc {
      lo * n;
    ==
      Times(lo, |members|);
    <=
      SumX(members);
    ==
      v * n;
    }
    calc {
      v * n;
    ==
      SumX(members);
    <=
      Times(hi, |members|);
    ==
      hi * n;
    }
    ScaleBounds(v, n, lo, hi);
  }

  lemma CentroidYWithin(members: seq<User>, lo: real, hi: real)
    requires |members| > 0
    requires forall u :: u in members ==> lo <= u.y <= hi
    ensures lo <= Centroid(members).y <= hi
  {
    var v, n := Centroid(members).y, |members| as real;
    SumYBounds(members, lo, hi);
    TimesIsProduct(lo, |members|);
    TimesIsProduct(hi, |members|);
    calc {
      lo * n;
    ==
      Times(lo, |members|);
    <=
      SumY(members);
    ==
      v * n;
    }
    calc {
      v * n;
    ==
      SumY(members);
    <=
      Times(hi, |members|);
    ==
      hi * n;
    }
    ScaleBounds(v, n, lo, hi);
  }

  lemma ScaleBounds(v: real, n: real, lo: real, hi: real)
    requires n > 0.0 && lo * n <= v * n <= hi * n
    ensures lo <= v <= hi
  {
    ScaleOrder(lo, v, n);
    ScaleOrder(v, hi, n);
  }

  lemma ScaleOrder(a: real, b: real, n: real)
    requires n > 0.0
    ensures a <= b <==> a * n <= b * n
  {
    if a <= b {
      assert (b - a) * n >= 0.0;
    } else {
      assert (a - b) * n > 0.0;
    }
  }

  // ---------------------------------------------------------------- clusters

  /** What `calculateClusters` promises about cluster membership, relative to the graph:
      clusters have two or more members, are pairwise disjoint, each is the component of
      every member, and every user with a neighbour is in one. */
  ghost predicate IsClustering(g: Graph, clusters: seq<Cluster>) {
    && (forall k :: 0 <= k < |clusters| ==> |clusters[k].userIds| >= 2)
    && (forall k, l :: 0 <= k < l < |clusters| ==> clusters[k].userIds !! clusters[l].userIds)
    && (forall k, a :: 0 <= k < |clusters| && a in clusters[k].userIds ==>
          clusters[k].userIds == Component(g, a))
    && (forall a :: a in g && g[a] != {} ==>
          exists k :: 0 <= k < |clusters| && a in clusters[k].userIds)
  }

  /** The whole promise of `calculateClusters` for `users` and `threshold`. */
  ghost predicate CalculatedFrom(users: seq<User>, threshold: real, sqrt: real -> real, clusters: seq<Cluster>)
    requires DistinctIds(users)
  {
    && IsClustering(ProximityGraph(users, threshold), clusters)
    && forall k :: 0 <= k < |clusters| ==>
         && |clusters[k].users| >= 2
         && DistinctIds(clusters[k].users)
         && (forall x :: x in clusters[k].users ==> x in users)
         && clusters[k] == CreateClusterData(clusters[k].users, sqrt)
  }

  /** `clusters.filter((cluster) => cluster.size >= 2)`. */
  function KeepPairs(cs: seq<seq<User>>): (r: seq<seq<User>>)
    ensures forall c :: c in r <==> c in cs && |c| >= 2
    ensures (forall k :: 0 <= k < |cs| ==> |cs[k]| >= 2) ==> r == cs
  {
    if cs == [] then []
    else
      var rest := KeepPairs(cs[1..]);
      assert forall c :: c in cs[1..] ==> c in cs;
      assert forall c :: c in cs ==> c == cs[0] || c in cs[1..];
      (if |cs[0]| >= 2 then [cs[0]] else []) + rest
  }

  lemma {:induction false} SubsetCard<T>(a: set<T>, b: set<T>)
    requires a <= b
    ensures |a| <= |b|
    decreases b
  {
    if a != {} {
      var x :| x in a;
      SubsetCard(a - {x}, b - {x});
    }
  }

  lemma TwoUsersTwoIds(c: seq<User>)
    requires |c| >= 2 && DistinctIds(c)
    ensures |Ids(c)| >= 2
  {
    SubsetCard({c[0].id, c[1].id}, Ids(c));
  }

  lemma LoneUserHasNoNeighbour(users: seq<User>, threshold: real)
    requires DistinctIds(users) && |users| < 2
    ensures forall a :: a in ProximityGraph(users, threshold) ==> ProximityGraph(users, threshold)[a] == {}
  {
    ProximityGraphShape(users, threshold);
    forall a | a in ProximityGraph(users, threshold) ensures ProximityGraph(users, threshold)[a] == {} {
      var g := ProximityGraph(users, threshold);
      if b :| b in g[a] {
        assert false;
      }
    }
  }

  /** `calculateClusters`: nothing for fewer than two users; otherwise build the graph, take
      its components, keep those with two or more users and give each its geometry. */
  method CalculateClusters(users: seq<User>, threshold: real, sqrt: real -> real)
    returns (clusters: seq<Cluster>)
    requires DistinctIds(users)
    ensures |users| < 2 ==> clusters == []
    ensures CalculatedFrom(users, threshold, sqrt, clusters)
  {
    ProximityGraphShape(users, threshold);
    if |users| < 2 {
      LoneUserHasNoNeighbour(users, threshold);
      return [];
    }
    var inRange := BuildProximityGraph(users, threshold);
    var components := FindConnectedComponents(users, inRange);
    var kept := KeepPairs(components);
    assert kept == components;
    clusters := seq(|kept|, k requires 0 <= k < |kept| => CreateClusterData(kept[k], sqrt));
    ClustersOfComponents(users, threshold, sqrt, inRange, kept, clusters);
  }

  /** The bubbles made from the components of the graph satisfy the whole promise. */
  lemma ClustersOfComponents(users: seq<User>, threshold: real, sqrt: real -> real, g: Graph,
                             components: seq<seq<User>>, clusters: seq<Cluster>)
    requires DistinctIds(users) && g == ProximityGraph(users, threshold)
    requires WellFormed(g) && g.Keys == Ids(users)
    requires forall k :: 0 <= k < |components| ==> IsComponentOf(users, g, components[k])
    requires forall k, l :: 0 <= k < l < |components| ==> Ids(components[k]) !! Ids(components[l])
    requires forall a :: a in g && g[a] != {} ==>
               exists k :: 0 <= k < |components| && a in Ids(components[k])
    requires |clusters| == |components|
    requires forall k :: 0 <= k < |components| ==>
               |components[k]| >= 2 && clusters[k] == CreateClusterData(components[k], sqrt)
    ensures CalculatedFrom(users, threshold, sqrt, clusters)
  {
    forall k | 0 <= k < |clusters|
      ensures clusters[k].userIds == Ids(components[k]) && clusters[k].users == components[k]
    {
    }
    ClusterSizes(components, clusters);
    ClustersCover(g, components, clusters);
    assert IsClustering(g, clusters);
  }

  lemma ClusterSizes(components: seq<seq<User>>, clusters: seq<Cluster>)
    requires |clusters| == |components|
    requires forall k :: 0 <= k < |components| ==> |components[k]| >= 2 && DistinctIds(components[k])
    requires forall k :: 0 <= k < |clusters| ==> clusters[k].userIds == Ids(components[k])
    ensures forall k :: 0 <= k < |clusters| ==> |clusters[k].userIds| >= 2
  {
    forall k | 0 <= k < |clusters| ensures |clusters[k].userIds| >= 2 {
      TwoUsersTwoIds(components[k]);
    }
  }

  lemma ClustersCover(g: Graph, components: seq<seq<User>>, clusters: seq<Cluster>)
    requires |clusters| == |components|
    requires forall a :: a in g && g[a] != {} ==>
               exists k :: 0 <= k < |components| && a in Ids(components[k])
    requires forall k :: 0 <= k < |clusters| ==> clusters[k].userIds == Ids(components[k])
    ensures forall a :: a in g && g[a] != {} ==>
              exists k :: 0 <= k < |clusters| && a in clusters[k].userIds
  {
    forall a | a in g && g[a] != {}
      ensures exists k :: 0 <= k < |clusters| && a in clusters[k].userIds
    {
      var k :| 0 <= k < |components| && a in Ids(components[k]);
      assert a in clusters[k].userIds;
    }
  }

  // ---------------------------------------------------------------- queries

  /** `getClustersForUser`: the clusters that contain `userId`, in their original order. */
  function GetClustersForUser(userId: UserId, allClusters: seq<Cluster>): (r: seq<Cluster>)
    ensures forall c :: c in r <==> c in allClusters && userId in c.userIds
    ensures |r| <= |allClusters|
    ensures (forall k :: 0 <= k < |allClusters| ==> userId in allClusters[k].userIds) ==> r == allClusters
  {
    if allClusters == [] then []
    else
      var head, tail := allClusters[0], allClusters[1..];
      var rest := GetClustersForUser(userId, tail);
      assert allClusters == [head] + tail;
      assert forall c :: c in allClusters <==> c == head || c in tail;
      assert (forall k :: 0 <= k < |allClusters| ==> userId in allClusters[k].userIds) ==>
             userId in head.userIds && forall k :: 0 <= k < |tail| ==> userId in tail[k].userIds;
      (if userId in head.userIds then [head] else []) + rest
  }

  /** The filter keeps every bubble that holds the user exactly as often as it occurs in the
      input, and no other bubble. */
  lemma {:induction false} ClustersForUserKeepCopies(userId: UserId, allClusters: seq<Cluster>)
    ensures var r := GetClustersForUser(userId, allClusters);
            forall c :: multiset(r)[c] == if userId in c.userIds then multiset(allClusters)[c] else 0
  {
    if allClusters != [] {
      var head, tail := allClusters[0], allClusters[1..];
      ClustersForUserKeepCopies(userId, tail);
      var r, rest := GetClustersForUser(userId, allClusters), GetClustersForUser(userId, tail);
      var h := if userId in head.userIds then [head] else [];
      assert r == h + rest;
      assert allClusters == [head] + tail;
      assert multiset(r) == multiset(h) + multiset(rest);
      assert multiset(allClusters) == multiset([head]) + multiset(tail);
      forall c: Cluster
        ensures multiset(r)[c] == if userId in c.userIds then multiset(allClusters)[c] else 0
      {
        assert multiset(r)[c] == multiset(h)[c] + multiset(rest)[c];
        assert multiset(allClusters)[c] == multiset([head])[c] + multiset(tail)[c];
      }
    }
  }

  /** `areUsersInSameCluster`: some cluster holds both. */
  function AreUsersInSameCluster(userId1: UserId, userId2: UserId, clusters: seq<Cluster>): (r: bool)
    ensures r <==> exists k :: 0 <= k < |clusters| &&
                     userId1 in clusters[k].userIds && userId2 in clusters[k].userIds
  {
    if clusters == [] then false
    else if userId1 in clusters[0].userIds && userId2 in clusters[0].userIds then true
    else
      var rest := AreUsersInSameCluster(userId1, userId2, clusters[1..]);
      assert forall k :: 1 <= k < |clusters| ==> clusters[k] == clusters[1..][k - 1];
      rest
  }

  /** The other members of every cluster that contains `userId`. */
  ghost function Companions(userId: UserId, allClusters: seq<Cluster>): set<UserId> {
    set c, v | c in allClusters && userId in c.userIds && v in c.userIds && v != userId :: v
  }

  /** `getUsersInProximity`: walks the user's clusters and collects every other member. */
  method GetUsersInProximity(userId: UserId, allClusters: seq<Cluster>) returns (near: set<UserId>)
    ensures near == Companions(userId, allClusters)
    ensures userId !in near
  {
    near := {};
    var mine := GetClustersForUser(userId, allClusters);
    for i := 0 to |mine|
      invariant forall v :: v in near <==> v != userId && exists k :: 0 <= k < i && v in mine[k].userIds
    {
      var todo := mine[i].userIds;
      while todo != {}
        invariant todo <= mine[i].userIds
        invariant forall v :: v in near <==>
                    v != userId && ((exists k :: 0 <= k < i && v in mine[k].userIds) || v in mine[i].userIds - todo)
        decreases todo
      {
        var id :| id in todo;
        todo := todo - {id};
        if id != userId {
          near := near + {id};
        }
      }
    }
    forall v ensures v in near <==> v in Companions(userId, allClusters) {
      if v in near {
        var k :| 0 <= k < |mine| && v in mine[k].userIds;
        assert mine[k] in mine;
      }
      if v in Companions(userId, allClusters) {
        var c :| c in allClusters && userId in c.userIds && v in c.userIds && v != userId;
        assert c in mine;
        var k :| 0 <= k < |mine| && mine[k] == c;
      }
    }
  }

  // ---------------------------------------------------------------- properties

  lemma TwoElements<T>(s: set<T>, a: T) returns (c: T)
    requires |s| >= 2
    ensures c in s && c != a
  {
    if s <= {a} {
      SubsetCard(s, {a});
      assert false;
    }
    c :| c in s && c != a;
  }

  /** Every member of a cluster has someone in range. */
  lemma ClusterMemberHasNeighbour(g: Graph, clusters: seq<Cluster>, k: nat, a: UserId)
    requires WellFormed(g) && IsClustering(g, clusters)
    requires k < |clusters| && a in clusters[k].userIds
    ensures a in g && g[a] != {}
  {
    var ids := clusters[k].userIds;
    assert ids == Component(g, a);
    var c := TwoElements(ids, a);
    var w :| IsWalk(g, w) && w[0] == a && w[|w| - 1] == c;
    assert w[1] in g[a];
  }

  /** Two users share a cluster exactly when the first has someone in range and the second
      can be reached from it along in-range edges. */
  lemma SameClusterIffReachable(g: Graph, clusters: seq<Cluster>, a: UserId, b: UserId)
    requires WellFormed(g) && IsClustering(g, clusters)
    ensures AreUsersInSameCluster(a, b, clusters) <==> a in g && g[a] != {} && Reach(g, a, b)
  {
    if AreUsersInSameCluster(a, b, clusters) {
      var k :| 0 <= k < |clusters| && a in clusters[k].userIds && b in clusters[k].userIds;
      ClusterMemberHasNeighbour(g, clusters, k, a);
      assert b in Component(g, a);
    }
    if a in g && g[a] != {} && Reach(g, a, b) {
      var k :| 0 <= k < |clusters| && a in clusters[k].userIds;
      ReachEndsInGraph(g, a, b);
      assert b in Component(g, a);
      assert b in clusters[k].userIds;
    }
  }

  /** For two different users, sharing a cluster is plain reachability; for that reason it
      does not matter which of the two is asked about first. */
  lemma SameClusterSymmetric(g: Graph, clusters: seq<Cluster>, a: UserId, b: UserId)
    requires WellFormed(g) && IsClustering(g, clusters) && a != b
    ensures AreUsersInSameCluster(a, b, clusters) <==> Reach(g, a, b)
    ensures AreUsersInSameCluster(a, b, clusters) == AreUsersInSameCluster(b, a, clusters)
  {
    SameClusterIffReachable(g, clusters, a, b);
    SameClusterIffReachable(g, clusters, b, a);
    if Reach(g, a, b) {
      var w :| IsWalk(g, w) && w[0] == a && w[|w| - 1] == b;
      assert w[1] in g[a];
      ReachSymmetric(g, a, b);
      var r :| IsWalk(g, r) && r[0] == b && r[|r| - 1] == a;
      assert r[1] in g[b];
    }
    if Reach(g, b, a) {
      ReachSymmetric(g, b, a);
    }
  }

  lemma {:induction false} NoClusterForUser(userId: UserId, clusters: seq<Cluster>)
    requires forall k :: 0 <= k < |clusters| ==> userId !in clusters[k].userIds
    ensures GetClustersForUser(userId, clusters) == []
  {
    if clusters != [] {
      assert forall k :: 0 <= k < |clusters[1..]| ==> clusters[1..][k] == clusters[k + 1];
      NoClusterForUser(userId, clusters[1..]);
    }
  }

  /** Disjoint clusters: a user is in at most one. */
  lemma {:induction false} AtMostOneClusterPerUser(userId: UserId, clusters: seq<Cluster>)
    requires forall k, l :: 0 <= k < l < |clusters| ==> clusters[k].userIds !! clusters[l].userIds
    ensures |GetClustersForUser(userId, clusters)| <= 1
  {
    if clusters != [] {
      var rest := clusters[1..];
      assert forall k :: 0 <= k < |rest| ==> rest[k] == clusters[k + 1];
      if userId in clusters[0].userIds {
        forall l | 0 <= l < |rest| ensures userId !in rest[l].userIds {
          assert clusters[0].userIds !! clusters[l + 1].userIds;
        }
        NoClusterForUser(userId, rest);
      } else {
        AtMostOneClusterPerUser(userId, rest);
      }
    }
  }

  lemma CompanionsIffSameCluster(userId: UserId, clusters: seq<Cluster>)
    ensures forall v :: v in Companions(userId, clusters) <==>
              v != userId && AreUsersInSameCluster(userId, v, clusters)
  {
    forall v ensures v in Companions(userId, clusters) <==>
                       v != userId && AreUsersInSameCluster(userId, v, clusters) {
      if v != userId && AreUsersInSameCluster(userId, v, clusters) {
        var k :| 0 <= k < |clusters| && userId in clusters[k].userIds && v in clusters[k].userIds;
        assert clusters[k] in clusters;
      }
    }
  }

  /** The users in proximity of `userId` are the rest of its component when it has someone
      in range, and nobody otherwise. */
  lemma CompanionsAreComponent(g: Graph, clusters: seq<Cluster>, userId: UserId)
    requires WellFormed(g) && IsClustering(g, clusters)
    ensures Companions(userId, clusters) ==
              if userId in g && g[userId] != {} then Component(g, userId) - {userId} else {}
  {
    CompanionsIffSameCluster(userId, clusters);
    var near := Companions(userId, clusters);
    forall v ensures v in near <==> v != userId && userId in g && g[userId] != {} && Reach(g, userId, v) {
      SameClusterIffReachable(g, clusters, userId, v);
    }
    if userId in g && g[userId] != {} {
      forall v | v in near ensures v in Component(g, userId) {
        ReachEndsInGraph(g, userId, v);
      }
    }
  }

  /** Nobody is in proximity of a user exactly when the user is in no cluster. */
  lemma NoCompanionsIffUnclustered(g: Graph, clusters: seq<Cluster>, userId: UserId)
    requires WellFormed(g) && IsClustering(g, clusters)
    ensures Companions(userId, clusters) == {} <==> GetClustersForUser(userId, clusters) == []
  {
    CompanionsAreComponent(g, clusters, userId);
    if userId in g && g[userId] != {} {
      var n :| n in g[userId];
      NeighbourInComponent(g, userId, n);
      assert n in Companions(userId, clusters);
      var k :| 0 <= k < |clusters| && userId in clusters[k].userIds;
      assert clusters[k] in GetClustersForUser(userId, clusters);
    } else {
      forall k | 0 <= k < |clusters| ensures userId !in clusters[k].userIds {
        if userId in clusters[k].userIds {
          ClusterMemberHasNeighbour(g, clusters, k, userId);
          assert false;
        }
      }
      NoClusterForUser(userId, clusters);
    }
  }

  // ---------------------------------------------------------------- scenarios

  const Ann: User := User("a1", "Ann", 0.0, 0.0, "#FF6B6B")
  const Bob: User := User("a2", "Bob", 50.0, 0.0, "#4ECDC4")
  /** Bob exactly the default distance away from Ann. */
  const FarBob: User := User("a2", "Bob", 120.0, 0.0, "#4ECDC4")

  /** The proximity graph of two users: an edge in both directions exactly when in range. */
  lemma PairGraph(x: User, y: User, threshold: real)
    requires x.id != y.id
    ensures DistinctIds([x, y])
    ensures var g := ProximityGraph([x, y], threshold);
            && g.Keys == {x.id, y.id}
            && g[x.id] == (if InRange(x, y, threshold) then {y.id} else {})
            && g[y.id] == (if InRange(x, y, threshold) then {x.id} else {})
  {
    var us := [x, y];
    assert DistinctIds(us);
    ProximityGraphShape(us, threshold);
    InRangeSymmetric(x, y, threshold);
    assert Ids(us) == {x.id, y.id};
    ProximityEdge(us, threshold, 0, 0);
    ProximityEdge(us, threshold, 0, 1);
    ProximityEdge(us, threshold, 1, 0);
    ProximityEdge(us, threshold, 1, 1);
  }

  /** A set of at least two drawn from `{x, y}` is all of it. */
  lemma FullPair(ids: set<UserId>, x: UserId, y: UserId)
    requires ids <= {x, y} && |ids| >= 2
    ensures ids == {x, y}
  {
    if x !in ids {
      SubsetCard(ids, {y});
      assert false;
    }
    if y !in ids {
      SubsetCard(ids, {x});
      assert false;
    }
  }

  lemma {:induction false} IdsCount(m: seq<User>)
    requires DistinctIds(m)
    ensures |Ids(m)| == |m|
  {
    if m != [] {
      var init := m[..|m| - 1];
      assert DistinctIds(init);
      IdsCount(init);
      assert Ids(m) == Ids(init) + {m[|m| - 1].id};
      assert m[|m| - 1].id !in Ids(init);
    }
  }

  /** Distinct users drawn from two users are at most those two. */
  lemma AtMostTwo(m: seq<User>, x: User, y: User)
    requires DistinctIds(m) && forall u :: u in m ==> u == x || u == y
    requires |m| >= 2
    ensures m == [x, y] || m == [y, x]
  {
    IdsCount(m);
    SubsetCard(Ids(m), {x.id, y.id});
    assert m[0] in m && m[1] in m;
  }

  /** Every bubble that Ann and Bob, 50 apart, can form holds both of them. */
  lemma NearbyBubblesArePair(sqrt: real -> real, clusters: seq<Cluster>)
    requires DistinctIds([Ann, Bob])
    requires CalculatedFrom([Ann, Bob], DefaultProximityDistance, sqrt, clusters)
    ensures forall k :: 0 <= k < |clusters| ==> clusters[k].userIds == {"a1", "a2"}
    ensures "a1" in ProximityGraph([Ann, Bob], DefaultProximityDistance)
    ensures ProximityGraph([Ann, Bob], DefaultProximityDistance)["a1"] != {}
  {
    var g := ProximityGraph([Ann, Bob], DefaultProximityDistance);
    PairGraph(Ann, Bob, DefaultProximityDistance);
    assert SqDist(Ann.x, Ann.y, Bob.x, Bob.y) == 2500.0;
    assert InRange(Ann, Bob, DefaultProximityDistance);
    forall k | 0 <= k < |clusters| ensures clusters[k].userIds == {"a1", "a2"} {
      var ids := clusters[k].userIds;
      var a := TwoElements(ids, "");
      assert ids == Component(g, a);
      FullPair(ids, "a1", "a2");
    }
  }

  /** Ann and Bob 50 apart share one bubble centred halfway between them. */
  lemma NearbyPairShareOneBubble(sqrt: real -> real, clusters: seq<Cluster>)
    requires DistinctIds([Ann, Bob])
    requires CalculatedFrom([Ann, Bob], DefaultProximityDistance, sqrt, clusters)
    ensures |clusters| == 1
    ensures clusters[0].userIds == {"a1", "a2"}
    ensures clusters[0].center == Position(25.0, 0.0)
  {
    NearbyBubblesArePair(sqrt, clusters);
    var k :| 0 <= k < |clusters| && "a1" in clusters[k].userIds;
    AtMostOneClusterPerUser("a1", clusters);
    PairCentroid(clusters[0].users);
  }

  lemma SumsOfPair(x: User, y: User)
    ensures SumX([x, y]) == x.x + y.x && SumY([x, y]) == x.y + y.y
  {
    assert [x, y][..1] == [x];
    assert [x][..0] == [];
    assert SumX([x]) == x.x && SumY([x]) == x.y;
  }

  lemma PairCentroid(m: seq<User>)
    requires DistinctIds(m) && forall u :: u in m ==> u in [Ann, Bob]
    requires |m| >= 2
    ensures Centroid(m) == Position(25.0, 0.0)
  {
    AtMostTwo(m, Ann, Bob);
    SumsOfPair(Ann, Bob);
    SumsOfPair(Bob, Ann);
  }

  /** Ann and Bob exactly the threshold apart are not in range, so there is no bubble. */
  lemma PairAtThresholdHasNoBubble(sqrt: real -> real, clusters: seq<Cluster>)
    requires DistinctIds([Ann, FarBob])
    requires CalculatedFrom([Ann, FarBob], DefaultProximityDistance, sqrt, clusters)
    ensures clusters == []
  {
    var g := ProximityGraph([Ann, FarBob], DefaultProximityDistance);
    PairGraph(Ann, FarBob, DefaultProximityDistance);
    assert SqDist(Ann.x, Ann.y, FarBob.x, FarBob.y) == 14400.0;
    assert !InRange(Ann, FarBob, DefaultProximityDistance);
    if clusters != [] {
      var a := TwoElements(clusters[0].userIds, "");
      ClusterMemberHasNeighbour(g, clusters, 0, a);
      assert false;
    }
  }
}
