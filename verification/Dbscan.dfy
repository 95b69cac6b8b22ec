/** The three DBSCAN loops, over the same neighbour relation read in three ways. */
module Dbscan {
  import opened Graphs
  import opened Density

  // ---------------------------------------------------------------- neighbour lists

  /** Ascending list of the j below n, other than i, that are near i. */
  function NeighborsBelow(near: Step, i: nat, n: nat): (s: seq<nat>)
    ensures forall j: nat :: j in s <==> j < n && j != i && near(i, j)
    ensures forall k :: 0 <= k < |s| ==> s[k] < n
  {
    if n == 0 then []
    else
      var t := NeighborsBelow(near, i, n - 1);
      if n - 1 != i && near(i, n - 1) then t + [n - 1] else t
  }

  lemma {:induction false} NeighborsAscend(near: Step, i: nat, n: nat)
    ensures Ascending(NeighborsBelow(near, i, n))
  {
    if n > 0 { NeighborsAscend(near, i, n - 1); }
  }

  ghost function Lists(near: Step, n: nat): (adj: Adjacency)
    ensures |adj| == n && InRange(adj)
    ensures forall i: nat :: i < n ==> adj[i] == NeighborsBelow(near, i, n)
  {
    seq(n, i requires 0 <= i < n => NeighborsBelow(near, i, n))
  }

  lemma ListsSymmetric(near: Step, n: nat)
    requires forall i: nat, j: nat :: i < n && j < n ==> near(i, j) == near(j, i)
    ensures Symmetric(Lists(near, n))
  {
  }

  // ---------------------------------------------------------------- the loops between two steps

  /** Where the loops are heading: the founder and final label of every point, and the founders below every index. */
  datatype Plan = Plan(founder: seq<nat>, goal: seq<int>, rank: seq<int>)

  ghost predicate ClosedUnderGrowth(adj: Adjacency, m: int, points: set<nat>) {
    forall a: nat, b: nat :: a in points && Grow(adj, m)(a, b) ==> b in points
  }

  ghost predicate Sound(adj: Adjacency, m: int, plan: Plan) {
    && |plan.founder| == |plan.goal| == |adj| && |plan.rank| == |adj| + 1 && plan.rank[0] == 0
    && (forall x :: 0 <= x < |adj| ==>
          && plan.founder[x] <= x && plan.founder[plan.founder[x]] == plan.founder[x]
          && plan.goal[x] == plan.rank[plan.founder[x]] >= 0)
    && (forall i :: 0 <= i < |adj| ==> plan.rank[i + 1] == plan.rank[i] + if plan.founder[i] == i then 1 else 0)
    && (forall a: nat, b: nat :: Core(adj, m, a) && b in adj[a] && b < |adj| ==> plan.founder[b] <= plan.founder[a])
    && (forall x :: 0 <= x < |adj| && plan.founder[x] != x ==> Core(adj, m, plan.founder[x]))
    && (forall points: set<nat>, x: nat {:trigger ClosedUnderGrowth(adj, m, points), plan.founder[x]} ::
          x < |adj| && ClosedUnderGrowth(adj, m, points) && plan.founder[x] in points ==> x in points)
  }

  ghost predicate PlanOf(adj: Adjacency, m: int, plan: Plan) {
    && |plan.founder| == |plan.goal| == |adj| && |plan.rank| == |adj| + 1
    && (forall x: nat :: x < |adj| ==> plan.founder[x] == Founder(adj, m, x))
    && (forall x: nat :: x < |adj| ==> plan.goal[x] == Rank(adj, m, Founder(adj, m, x)))
    && (forall i: nat :: i <= |adj| ==> plan.rank[i] == Rank(adj, m, i))
  }

  lemma FounderPlanned(adj: Adjacency, m: int, plan: Plan, x: nat)
    requires PlanOf(adj, m, plan) && x < |adj|
    ensures plan.founder[x] <= x && plan.founder[plan.founder[x]] == plan.founder[x]
    ensures plan.founder[x] != x ==> Core(adj, m, plan.founder[x])
    ensures plan.goal[x] == plan.rank[plan.founder[x]] >= 0
  {
    var f := Founder(adj, m, x);
    FounderFixed(adj, m, x);
    assert f <= x;
    if f != x { ReachFromCore(adj, m, f, x); }
  }

  lemma RankPlanned(adj: Adjacency, m: int, plan: Plan, i: nat)
    requires PlanOf(adj, m, plan) && i < |adj|
    ensures plan.rank[i + 1] == plan.rank[i] + if plan.founder[i] == i then 1 else 0
  {
  }

  lemma PlanSound(adj: Adjacency, m: int, plan: Plan)
    requires PlanOf(adj, m, plan)
    ensures Sound(adj, m, plan)
  {
    forall x | 0 <= x < |adj|
      ensures plan.founder[x] <= x && plan.founder[plan.founder[x]] == plan.founder[x] && plan.goal[x] == plan.rank[plan.founder[x]] >= 0
      ensures plan.founder[x] != x ==> Core(adj, m, plan.founder[x])
    {
      FounderPlanned(adj, m, plan, x);
    }
    forall i | 0 <= i < |adj| ensures plan.rank[i + 1] == plan.rank[i] + if plan.founder[i] == i then 1 else 0 {
      RankPlanned(adj, m, plan, i);
    }
    forall a: nat, b: nat | Core(adj, m, a) && b in adj[a] && b < |adj| ensures plan.founder[b] <= plan.founder[a] {
      FounderOfNeighbor(adj, m, a, b);
    }
    forall points: set<nat>, x: nat | x < |adj| && ClosedUnderGrowth(adj, m, points) && plan.founder[x] in points
      ensures x in points
    {
      ReachClosed(Grow(adj, m), points, Founder(adj, m, x), x);
    }
  }

  lemma MakePlan(adj: Adjacency, m: int) returns (plan: Plan)
    ensures Sound(adj, m, plan) && IsLabeling(adj, m, plan.goal)
  {
    plan := Plan(seq(|adj|, x requires 0 <= x < |adj| => Founder(adj, m, x)),
                 seq(|adj|, x requires 0 <= x < |adj| => Rank(adj, m, Founder(adj, m, x))),
                 seq(|adj| + 1, x requires 0 <= x => Rank(adj, m, x)));
    PlanSound(adj, m, plan);
  }

  function Unvisited(visited: seq<bool>): set<nat> {
    set x: nat | x < |visited| && !visited[x]
  }

  /** Visited points carry their final label, the others none. */
  ghost predicate Labelled(plan: Plan, visited: seq<bool>, labels: seq<int>) {
    && |plan.goal| == |visited| == |labels|
    && forall x :: 0 <= x < |visited| ==> labels[x] == if visited[x] then plan.goal[x] else -1
  }

  /** The outer loop at i: exactly the points founded below i are visited. */
  ghost predicate Sweep(plan: Plan, i: nat, visited: seq<bool>, labels: seq<int>, clusterID: int) {
    && Labelled(plan, visited, labels) && |plan.founder| == |visited|
    && (forall x :: 0 <= x < |visited| ==> (visited[x] <==> plan.founder[x] < i))
    && i < |plan.rank| && clusterID == plan.rank[i]
  }

  /** The cluster of founder i is being grown and `rest` of the queue is still to be read. */
  ghost predicate Growing(adj: Adjacency, m: int, plan: Plan, i: nat, visited: seq<bool>, labels: seq<int>, rest: seq<nat>) {
    && |plan.founder| == |adj| && Labelled(plan, visited, labels) && i < |adj| == |visited| && visited[i]
    && (forall x :: 0 <= x < |adj| ==>
          (plan.founder[x] < i ==> visited[x]) && (visited[x] ==> plan.founder[x] <= i))
    && (forall s :: s in rest ==> s < |adj| && plan.founder[s] <= i)
    && (forall a: nat, b: nat :: Core(adj, m, a) && visited[a] && plan.founder[a] == i && b in adj[a] && b < |adj| ==>
          visited[b] || b in rest)
  }

  lemma SweepSkips(adj: Adjacency, m: int, plan: Plan, i: nat, visited: seq<bool>, labels: seq<int>, clusterID: int)
    requires Sound(adj, m, plan) && i < |adj| && Sweep(plan, i, visited, labels, clusterID) && visited[i]
    ensures Sweep(plan, i + 1, visited, labels, clusterID)
  {
    forall x | 0 <= x < |adj| ensures plan.founder[x] != i {
      assert plan.founder[plan.founder[x]] == plan.founder[x];
    }
  }

  /** Too few neighbours: i founds a cluster of its own that nothing else joins. */
  lemma SweepSingleton(adj: Adjacency, m: int, plan: Plan, i: nat, visited: seq<bool>, labels: seq<int>, clusterID: int)
    requires Sound(adj, m, plan) && i < |adj| && Sweep(plan, i, visited, labels, clusterID) && !visited[i]
    requires !Core(adj, m, i)
    ensures Sweep(plan, i + 1, visited[i := true], labels[i := clusterID], clusterID + 1)
  {
  }

  lemma GrowingStart(adj: Adjacency, m: int, plan: Plan, i: nat, visited: seq<bool>, labels: seq<int>, clusterID: int)
    requires Sound(adj, m, plan) && InRange(adj) && i < |adj| && Sweep(plan, i, visited, labels, clusterID) && !visited[i]
    requires Core(adj, m, i)
    ensures Growing(adj, m, plan, i, visited[i := true], labels[i := clusterID], adj[i])
    ensures plan.founder[i] == i && clusterID == plan.goal[i] && plan.rank[i + 1] == clusterID + 1
  {
    forall s | s in adj[i] ensures s < |adj| && plan.founder[s] <= i {
      var k :| 0 <= k < |adj[i]| && adj[i][k] == s;
    }
  }

  lemma SeedInRange(adj: Adjacency, m: int, plan: Plan, i: nat, visited: seq<bool>, labels: seq<int>, seeds: seq<nat>, j: nat)
    requires j < |seeds| && Growing(adj, m, plan, i, visited, labels, seeds[j..])
    ensures seeds[j] < |adj|
  {
    assert seeds[j] in seeds[j..];
  }

  lemma QueueTail(seeds: seq<nat>, j: nat)
    requires j < |seeds|
    ensures forall b :: b in seeds[j..] <==> b == seeds[j] || b in seeds[j + 1..]
  {
    assert seeds[j..] == [seeds[j]] + seeds[j + 1..];
  }

  lemma GrowingOld(adj: Adjacency, m: int, plan: Plan, i: nat, visited: seq<bool>, labels: seq<int>, seeds: seq<nat>, j: nat)
    requires j < |seeds| && Growing(adj, m, plan, i, visited, labels, seeds[j..]) && seeds[j] < |visited| && visited[seeds[j]]
    ensures Growing(adj, m, plan, i, visited, labels, seeds[j + 1..])
  {
    QueueTail(seeds, j);
  }

  /** A new seed is labelled, and if it is core its unvisited neighbours are queued behind the rest. */
  lemma GrowingNew(adj: Adjacency, m: int, plan: Plan, i: nat, visited: seq<bool>, labels: seq<int>, rest: seq<nat>, more: seq<nat>)
    requires InRange(adj) && Sound(adj, m, plan) && Growing(adj, m, plan, i, visited, labels, rest)
    requires rest != [] && rest[0] < |visited| && !visited[rest[0]]
    requires forall b :: b in more ==> Core(adj, m, rest[0]) && b in adj[rest[0]]
    requires Core(adj, m, rest[0]) ==> forall b :: b in adj[rest[0]] ==> b in more || (b < |visited| && visited[rest[0] := true][b])
    ensures plan.founder[rest[0]] == i && labels[rest[0]] == -1
    ensures Growing(adj, m, plan, i, visited[rest[0] := true], labels[rest[0] := plan.goal[rest[0]]], rest[1..] + more)
    ensures Unvisited(visited[rest[0] := true]) < Unvisited(visited)
  {
    var s := rest[0];
    var v' := visited[s := true];
    assert s in Unvisited(visited) && s !in Unvisited(v');
    assert s in rest;
    forall b | b in rest[1..] + more ensures b < |adj| && plan.founder[b] <= i {
      if b in more {
        var k :| 0 <= k < |adj[s]| && adj[s][k] == b;
      } else {
        assert b in rest;
      }
    }
    forall a: nat, b: nat | Core(adj, m, a) && v'[a] && plan.founder[a] == i && b in adj[a] && b < |adj|
      ensures v'[b] || b in rest[1..] + more
    {
      if a != s && !visited[b] {
        assert b in rest;
        assert b == s || b in rest[1..];
      }
    }
  }

  lemma GrowingEnds(adj: Adjacency, m: int, plan: Plan, i: nat, visited: seq<bool>, labels: seq<int>)
    requires InRange(adj) && Sound(adj, m, plan) && Growing(adj, m, plan, i, visited, labels, [])
    ensures Sweep(plan, i + 1, visited, labels, plan.rank[i + 1])
  {
    var all := set x: nat | x < |visited| && visited[x];
    forall a: nat, b: nat | a in all && Grow(adj, m)(a, b) ensures b in all {
      var k :| 0 <= k < |adj[a]| && adj[a][k] == b;
    }
    assert ClosedUnderGrowth(adj, m, all);
    forall x: nat | x < |adj| && plan.founder[x] == i ensures visited[x] {
      assert x in all;
    }
  }

  lemma SweepEnds(adj: Adjacency, m: int, plan: Plan, visited: seq<bool>, labels: seq<int>, clusterID: int)
    requires Sound(adj, m, plan) && Sweep(plan, |adj|, visited, labels, clusterID)
    ensures labels == plan.goal
  {
  }

  // ---------------------------------------------------------------- service/faces.go

  /** Which indices are within epsilon of each other, by an abstract distance on vectors. */
  ghost function Within<V(!new)>(vecs: seq<V>, dist: (V, V) -> real, epsilon: real): Step {
    (i: nat, j: nat) => i < |vecs| && j < |vecs| && dist(vecs[i], vecs[j]) <= epsilon
  }

  method RegionQuery<V(!new)>(vecs: seq<V>, dist: (V, V) -> real, idx: nat, epsilon: real) returns (neighbors: seq<nat>)
    requires idx < |vecs|
    ensures neighbors == NeighborsBelow(Within(vecs, dist, epsilon), idx, |vecs|)
    ensures Ascending(neighbors) && forall j: nat :: j in neighbors <==> j < |vecs| && j != idx && dist(vecs[idx], vecs[j]) <= epsilon
  {
    neighbors := [];
    NeighborsAscend(Within(vecs, dist, epsilon), idx, |vecs|);
    for j := 0 to |vecs|
      invariant neighbors == NeighborsBelow(Within(vecs, dist, epsilon), idx, j)
    {
      if j != idx && dist(vecs[idx], vecs[j]) <= epsilon {
        neighbors := neighbors + [j];
      }
    }
  }

  // ---------------------------------------------------------------- cmd/cluster-analysis/main.go

  /** Where a row-major n x n table keeps the distance between a and b. */
  function Cell(n: nat, a: nat, b: nat): nat { a * n + b }

  /** The matrix holds a cell for every pair below n, and every index names one of its rows. */
  ghost predicate Tabled(indices: seq<nat>, mat: seq<real>, n: nat) {
    && (forall a: nat, b: nat :: a < n && b < n ==> Cell(n, a, b) < |mat|)
    && forall k :: 0 <= k < |indices| ==> indices[k] < n
  }

  /** Which local indices are within epsilon of each other according to the matrix. */
  ghost function WithinMatrix(indices: seq<nat>, mat: seq<real>, n: nat, epsilon: real): Step {
    (i: nat, j: nat) => i < |indices| && j < |indices| && Cell(n, indices[i], indices[j]) < |mat|
                        && mat[Cell(n, indices[i], indices[j])] <= epsilon
  }

  ghost function MatrixLists(indices: seq<nat>, mat: seq<real>, n: nat, epsilon: real): (adj: Adjacency)
    ensures |adj| == |indices| && InRange(adj)
    ensures forall i: nat :: i < |indices| ==> adj[i] == NeighborsBelow(WithinMatrix(indices, mat, n, epsilon), i, |indices|)
  {
    Lists(WithinMatrix(indices, mat, n, epsilon), |indices|)
  }

  lemma CellInRange(n: nat, a: nat, b: nat)
    requires a < n && b < n
    ensures Cell(n, a, b) < n * n
  {
    assert a * n <= (n - 1) * n;
  }

  lemma RowAbove(n: nat, a: nat, b: nat, c: nat)
    requires a < c && b < n
    ensures a * n + b < c * n
  {
    assert (a + 1) * n <= c * n;
    assert (a + 1) * n == a * n + n;
  }

  lemma CellsDistinct(n: nat, a: nat, b: nat, c: nat, d: nat)
    requires b < n && d < n && Cell(n, a, b) == Cell(n, c, d)
    ensures a == c && b == d
  {
    if a < c { RowAbove(n, a, b, c); }
    if c < a { RowAbove(n, c, d, a); }
  }

  lemma MatrixNear(indices: seq<nat>, mat: seq<real>, n: nat, li: nat, epsilon: real)
    requires li < |indices|
    ensures forall j: nat :: WithinMatrix(indices, mat, n, epsilon)(li, j) <==>
              j < |indices| && indices[li] * n + indices[j] < |mat| && mat[indices[li] * n + indices[j]] <= epsilon
  {
  }

  method RegionQueryMatrix(indices: seq<nat>, mat: seq<real>, n: nat, li: nat, epsilon: real) returns (neighbors: seq<nat>)
    requires Tabled(indices, mat, n) && li < |indices|
    ensures neighbors == NeighborsBelow(WithinMatrix(indices, mat, n, epsilon), li, |indices|)
    ensures Ascending(neighbors)
    ensures forall j: nat :: j in neighbors <==>
              j < |indices| && j != li && indices[li] * n + indices[j] < |mat| && mat[indices[li] * n + indices[j]] <= epsilon
  {
    neighbors := [];
    NeighborsAscend(WithinMatrix(indices, mat, n, epsilon), li, |indices|);
    for lj := 0 to |indices|
      invariant neighbors == NeighborsBelow(WithinMatrix(indices, mat, n, epsilon), li, lj)
    {
      if lj != li && mat[Cell(n, indices[li], indices[lj])] <= epsilon {
        neighbors := neighbors + [lj];
      }
    }
    MatrixNear(indices, mat, n, li, epsilon);
  }

  // ---------------------------------------------------------------- the loops

  /** Where the three implementations read neighbours from: the vectors, precomputed lists, or a distance matrix. Their loops
      are the same statement for statement. */
  datatype Source<!V(!new)> =
    | Vectors(vecs: seq<V>, dist: (V, V) -> real, epsilon: real)
    | Rows(lists: Adjacency)
    | Matrix(indices: seq<nat>, mat: seq<real>, n: nat, radius: real)

  ghost predicate Usable<V(!new)>(src: Source<V>) {
    match src
    case Vectors(_, _, _) => true
    case Rows(lists) => InRange(lists)
    case Matrix(indices, mat, n, _) => Tabled(indices, mat, n)
  }

  ghost function AdjacencyOf<V(!new)>(src: Source<V>): (adj: Adjacency)
    ensures Usable(src) ==> InRange(adj)
  {
    match src
    case Vectors(vecs, dist, epsilon) => Lists(Within(vecs, dist, epsilon), |vecs|)
    case Rows(lists) => lists
    case Matrix(indices, mat, n, radius) => MatrixLists(indices, mat, n, radius)
  }

  function SizeOf<V(!new)>(src: Source<V>): (n: nat)
    ensures n == |AdjacencyOf(src)|
  {
    match src
    case Vectors(vecs, _, _) => |vecs|
    case Rows(lists) => |lists|
    case Matrix(indices, _, _, _) => |indices|
  }

  method NeighborsOf<V(!new)>(src: Source<V>, s: nat) returns (neighbors: seq<nat>)
    requires Usable(src) && s < |AdjacencyOf(src)|
    ensures neighbors == AdjacencyOf(src)[s]
  {
    match src {
      case Vectors(vecs, dist, epsilon) => neighbors := RegionQuery(vecs, dist, s, epsilon);
      case Rows(lists) => neighbors := lists[s];
      case Matrix(indices, mat, n, radius) => neighbors := RegionQueryMatrix(indices, mat, n, s, radius);
    }
  }

  /** Appends the unvisited ones of a core seed's neighbours to the queue. */
  method AppendUnvisited(seeds: seq<nat>, neighbors: seq<nat>, visited: array<bool>) returns (seeds': seq<nat>, ghost more: seq<nat>)
    requires forall k :: 0 <= k < |neighbors| ==> neighbors[k] < visited.Length
    ensures seeds' == seeds + more
    ensures forall b :: b in more <==> b in neighbors && !visited[b]
  {
    seeds', more := seeds, [];
    for k := 0 to |neighbors|
      invariant seeds' == seeds + more
      invariant forall b :: b in more <==> b in neighbors[..k] && !visited[b]
    {
      var s2 := neighbors[k];
      assert neighbors[..k + 1] == neighbors[..k] + [s2];
      if !visited[s2] {
        seeds' := seeds' + [s2];
        more := more + [s2];
      }
    }
    assert neighbors[..|neighbors|] == neighbors;
  }

  /** Reads seed j of the queue when it is still unvisited; `neighbors` is its neighbour list. */
  method TakeSeed(ghost adj: Adjacency, minPoints: int, ghost plan: Plan, ghost i: nat, clusterID: int,
                  seeds: seq<nat>, j: nat, neighbors: seq<nat>, visited: array<bool>, labels: array<int>)
    returns (seeds': seq<nat>)
    requires InRange(adj) && Sound(adj, minPoints, plan) && visited.Length == |adj| == labels.Length
    requires j < |seeds| && Growing(adj, minPoints, plan, i, visited[..], labels[..], seeds[j..])
    requires seeds[j] < |adj| && !visited[seeds[j]] && neighbors == adj[seeds[j]]
    requires plan.founder[i] == i && clusterID == plan.goal[i]
    modifies visited, labels
    ensures |seeds'| > j && Growing(adj, minPoints, plan, i, visited[..], labels[..], seeds'[j + 1..])
    ensures Unvisited(visited[..]) < old(Unvisited(visited[..]))
  {
    ghost var v, l, rest := visited[..], labels[..], seeds[j..];
    var s := seeds[j];
    visited[s] := true;
    ghost var more := [];
    seeds' := seeds;
    if |neighbors| >= minPoints {
      seeds', more := AppendUnvisited(seeds, neighbors, visited);
    }
    GrowingNew(adj, minPoints, plan, i, v, l, rest, more);
    if labels[s] == -1 {
      labels[s] := clusterID;
    }
    assert visited[..] == v[s := true] && labels[..] == l[s := plan.goal[s]];
    assert seeds'[j + 1..] == rest[1..] + more;
  }

  /** Reads seed j of the queue when it has been visited before: it has its label already. */
  method SkipSeed(ghost adj: Adjacency, minPoints: int, ghost plan: Plan, ghost i: nat, clusterID: int,
                  seeds: seq<nat>, j: nat, visited: array<bool>, labels: array<int>)
    requires Sound(adj, minPoints, plan) && visited.Length == |adj| == labels.Length
    requires j < |seeds| && Growing(adj, minPoints, plan, i, visited[..], labels[..], seeds[j..])
    requires seeds[j] < |adj| && visited[seeds[j]]
    modifies labels
    ensures Growing(adj, minPoints, plan, i, visited[..], labels[..], seeds[j + 1..])
  {
    ghost var l := labels[..];
    var s := seeds[j];
    GrowingOld(adj, minPoints, plan, i, visited[..], l, seeds, j);
    labels[s] := if labels[s] == -1 then clusterID else labels[s];
    assert labels[..] == l;
  }

  /** One turn of the queue loop. */
  method ReadSeed<V(!new)>(src: Source<V>, minPoints: int, ghost adj: Adjacency, ghost plan: Plan, ghost i: nat,
                           clusterID: int, seeds: seq<nat>, j: nat, visited: array<bool>, labels: array<int>)
    returns (seeds': seq<nat>)
    requires Usable(src) && adj == AdjacencyOf(src) && Sound(adj, minPoints, plan) && visited.Length == |adj| == labels.Length
    requires j < |seeds| && Growing(adj, minPoints, plan, i, visited[..], labels[..], seeds[j..])
    requires plan.founder[i] == i && clusterID == plan.goal[i]
    modifies visited, labels
    ensures |seeds'| > j && Growing(adj, minPoints, plan, i, visited[..], labels[..], seeds'[j + 1..])
    ensures Unvisited(visited[..]) < old(Unvisited(visited[..])) || (visited[..] == old(visited[..]) && seeds' == seeds)
  {
    var s := seeds[j];
    SeedInRange(adj, minPoints, plan, i, visited[..], labels[..], seeds, j);
    if !visited[s] {
      var sNeighbors := NeighborsOf(src, s);
      seeds' := TakeSeed(adj, minPoints, plan, i, clusterID, seeds, j, sNeighbors, visited, labels);
    } else {
      seeds' := seeds;
      SkipSeed(adj, minPoints, plan, i, clusterID, seeds, j, visited, labels);
    }
  }

  /** The queue loop: `seeds` repeats and grows while it is read. */
  method GrowCluster<V(!new)>(src: Source<V>, minPoints: int, ghost adj: Adjacency, ghost plan: Plan, ghost i: nat,
                       clusterID: int, neighbors: seq<nat>, visited: array<bool>, labels: array<int>)
    requires Usable(src) && adj == AdjacencyOf(src) && Sound(adj, minPoints, plan) && visited.Length == |adj| == labels.Length
    requires Growing(adj, minPoints, plan, i, visited[..], labels[..], neighbors)
    requires plan.founder[i] == i && clusterID == plan.goal[i]
    modifies visited, labels
    ensures Sweep(plan, i + 1, visited[..], labels[..], plan.rank[i + 1])
  {
    var seeds := neighbors;
    var j := 0;
    while j < |seeds|
      invariant j <= |seeds| && Growing(adj, minPoints, plan, i, visited[..], labels[..], seeds[j..])
      decreases Unvisited(visited[..]), |seeds| - j
    {
      seeds := ReadSeed(src, minPoints, adj, plan, i, clusterID, seeds, j, visited, labels);
      j := j + 1;
    }
    GrowingEnds(adj, minPoints, plan, i, visited[..], labels[..]);
  }

  /** One turn of the outer loop. */
  method Turn<V(!new)>(src: Source<V>, minPoints: int, ghost adj: Adjacency, ghost plan: Plan, i: nat,
                       clusterID: int, visited: array<bool>, labels: array<int>) returns (clusterID': int)
    requires Usable(src) && adj == AdjacencyOf(src) && Sound(adj, minPoints, plan) && visited.Length == |adj| == labels.Length
    requires i < |adj| && Sweep(plan, i, visited[..], labels[..], clusterID)
    modifies visited, labels
    ensures Sweep(plan, i + 1, visited[..], labels[..], clusterID')
  {
    ghost var v, l := visited[..], labels[..];
    if visited[i] {
      SweepSkips(adj, minPoints, plan, i, v, l, clusterID);
      return clusterID;
    }
    visited[i] := true;
    var neighbors := NeighborsOf(src, i);
    labels[i] := clusterID;
    assert visited[..] == v[i := true] && labels[..] == l[i := clusterID];
    if |neighbors| < minPoints {
      SweepSingleton(adj, minPoints, plan, i, v, l, clusterID);
    } else {
      GrowingStart(adj, minPoints, plan, i, v, l, clusterID);
      GrowCluster(src, minPoints, adj, plan, i, clusterID, neighbors, visited, labels);
    }
    clusterID' := clusterID + 1;
  }

  method Cluster<V(!new)>(src: Source<V>, minPoints: int) returns (labels: array<int>)
    requires Usable(src)
    ensures IsLabeling(AdjacencyOf(src), minPoints, labels[..])
  {
    var n := SizeOf(src);
    ghost var adj := AdjacencyOf(src);
    ghost var plan := MakePlan(adj, minPoints);
    labels := new int[n](_ => -1);
    var visited := new bool[n](_ => false);
    var clusterID := 0;
    for i := 0 to n
      invariant Sweep(plan, i, visited[..], labels[..], clusterID)
    {
      clusterID := Turn(src, minPoints, adj, plan, i, clusterID, visited, labels);
    }
    SweepEnds(adj, minPoints, plan, visited[..], labels[..], clusterID);
  }

  method DBSCAN<V(!new)>(vecs: seq<V>, dist: (V, V) -> real, epsilon: real, minPoints: int) returns (labels: array<int>)
    ensures IsLabeling(Lists(Within(vecs, dist, epsilon), |vecs|), minPoints, labels[..])
  {
    labels := Cluster(Vectors(vecs, dist, epsilon), minPoints);
  }

  /** The serial second phase of DBSCANWithProgress, over the rows the workers computed. */
  method ClusterLists(lists: Adjacency, minPoints: int) returns (labels: array<int>)
    requires InRange(lists)
    ensures IsLabeling(lists, minPoints, labels[..])
  {
    var src: Source<int> := Rows(lists);
    labels := Cluster(src, minPoints);
  }

  method DbscanSubset(indices: seq<nat>, mat: seq<real>, size: nat, epsilon: real, minPoints: int) returns (labels: array<int>)
    requires Tabled(indices, mat, size)
    ensures IsLabeling(MatrixLists(indices, mat, size, epsilon), minPoints, labels[..])
  {
    var src: Source<int> := Matrix(indices, mat, size, epsilon);
    labels := Cluster(src, minPoints);
  }

  // ---------------------------------------------------------------- the graph and the matrix of the analysis tool

  /** The induced subgraph of the chaining analysis, as adjacency lists over local indices. */
  method BuildGraph(indices: seq<nat>, mat: seq<real>, n: nat, eps: real) returns (adj: Adjacency)
    requires Tabled(indices, mat, n)
    ensures adj == MatrixLists(indices, mat, n, eps) && InRange(adj)
    ensures |adj| == |indices|
    ensures forall i: nat, j: nat :: i < |adj| ==>
              (j in adj[i] <==> j < |indices| && j != i && indices[i] * n + indices[j] < |mat| && mat[indices[i] * n + indices[j]] <= eps)
    ensures SymmetricMatrix(mat, n) ==> Symmetric(adj)
  {
    adj := [];
    for i := 0 to |indices|
      invariant |adj| == i && forall k :: 0 <= k < i ==> adj[k] == NeighborsBelow(WithinMatrix(indices, mat, n, eps), k, |indices|)
    {
      var row := RegionQueryMatrix(indices, mat, n, i, eps);
      adj := adj + [row];
    }
    assert adj == Lists(WithinMatrix(indices, mat, n, eps), |indices|);
    if SymmetricMatrix(mat, n) {
      ListsSymmetric(WithinMatrix(indices, mat, n, eps), |indices|);
    }
  }

  ghost predicate SymmetricMatrix(mat: seq<real>, n: nat) {
    forall a: nat, b: nat :: a < n && b < n && Cell(n, a, b) < |mat| && Cell(n, b, a) < |mat| ==> mat[Cell(n, a, b)] == mat[Cell(n, b, a)]
  }

  /** What the matrix holds once the rows in `done` are written: each pair is written by its smaller index. */
  ghost predicate Filled<V(!new)>(vecs: seq<V>, dist: (V, V) -> real, done: set<nat>, mat: seq<real>) {
    && |mat| == |vecs| * |vecs|
    && forall a: nat, b: nat :: a < |vecs| && b < |vecs| && a != b && (if a < b then a else b) in done && Cell(|vecs|, a, b) < |mat| ==>
         mat[Cell(|vecs|, a, b)] == dist(vecs[a], vecs[b])
  }

  /** Cells of different unordered pairs are different cells. */
  lemma OtherCells(n: nat, i: nat, j: nat, a: nat, b: nat)
    requires i < n && j < n && a < n && b < n
    ensures Cell(n, a, b) == Cell(n, i, j) <==> a == i && b == j
  {
    if Cell(n, a, b) == Cell(n, i, j) { CellsDistinct(n, a, b, i, j); }
  }

  /** Row i is written up to column j, and so is its mirror; other rows are as in `before`. */
  ghost predicate RowFilled<V(!new)>(vecs: seq<V>, dist: (V, V) -> real, i: nat, j: nat, before: seq<real>, mat: seq<real>)
    requires |before| == |mat|
  {
    && (forall b: nat :: i < b < j && b < |vecs| && i < |vecs| && Cell(|vecs|, i, b) < |mat| && Cell(|vecs|, b, i) < |mat| ==>
          mat[Cell(|vecs|, i, b)] == dist(vecs[i], vecs[b]) == mat[Cell(|vecs|, b, i)])
    && (forall a: nat, b: nat :: a < |vecs| && b < |vecs| && (if a < b then a else b) != i && Cell(|vecs|, a, b) < |mat| ==>
          mat[Cell(|vecs|, a, b)] == before[Cell(|vecs|, a, b)])
  }

  lemma RowStep<V(!new)>(vecs: seq<V>, dist: (V, V) -> real, i: nat, j: nat, before: seq<real>, mat: seq<real>, mat': seq<real>)
    requires i < j < |vecs| && |before| == |mat| == |mat'| == |vecs| * |vecs| && RowFilled(vecs, dist, i, j, before, mat)
    requires Cell(|vecs|, i, j) < |mat| && Cell(|vecs|, j, i) < |mat|
    requires mat' == mat[Cell(|vecs|, i, j) := dist(vecs[i], vecs[j])][Cell(|vecs|, j, i) := dist(vecs[i], vecs[j])]
    ensures RowFilled(vecs, dist, i, j + 1, before, mat')
  {
    var n := |vecs|;
    forall a: nat, b: nat | a < n && b < n
      ensures Cell(n, a, b) == Cell(n, i, j) <==> a == i && b == j
      ensures Cell(n, a, b) == Cell(n, j, i) <==> a == j && b == i
    {
      OtherCells(n, i, j, a, b);
      OtherCells(n, j, i, a, b);
    }
  }

  /** Writes row i right of the diagonal, and its mirror. */
  method FillRow<V(!new)>(vecs: seq<V>, dist: (V, V) -> real, ghost done: set<nat>, i: nat, mat: array<real>)
    requires i < |vecs| && i !in done && Filled(vecs, dist, done, mat[..])
    requires forall a, b :: dist(a, b) == dist(b, a)
    modifies mat
    ensures Filled(vecs, dist, done + {i}, mat[..])
  {
    var n := |vecs|;
    ghost var before := mat[..];
    for j := i + 1 to n
      invariant mat.Length == |before| && RowFilled(vecs, dist, i, j, before, mat[..])
    {
      ghost var m := mat[..];
      var d := dist(vecs[i], vecs[j]);
      CellInRange(n, i, j);
      CellInRange(n, j, i);
      mat[Cell(n, i, j)] := d;
      mat[Cell(n, j, i)] := d;
      RowStep(vecs, dist, i, j, before, m, mat[..]);
    }
    RowDone(vecs, dist, done, i, before, mat[..]);
  }

  lemma RowDone<V(!new)>(vecs: seq<V>, dist: (V, V) -> real, done: set<nat>, i: nat, before: seq<real>, mat: seq<real>)
    requires i < |vecs| && i !in done && |before| == |mat| && Filled(vecs, dist, done, before)
    requires forall a, b :: dist(a, b) == dist(b, a)
    requires RowFilled(vecs, dist, i, |vecs|, before, mat)
    ensures Filled(vecs, dist, done + {i}, mat)
  {
    var n := |vecs|;
    forall a: nat, b: nat | a < n && b < n && a != b && (if a < b then a else b) in done + {i} && Cell(n, a, b) < |mat|
      ensures mat[Cell(n, a, b)] == dist(vecs[a], vecs[b])
    {
      CellInRange(n, b, a);
    }
  }

  function RowsBelow(n: nat): (rows: set<nat>)
    ensures forall x: nat :: x in rows <==> x < n
  {
    if n == 0 then {} else RowsBelow(n - 1) + {n - 1}
  }

  /** The pairwise distances; the workers may take the rows in any order. */
  method BuildDistMatrix<V(!new)>(vecs: seq<V>, dist: (V, V) -> real) returns (mat: array<real>)
    requires forall a, b :: dist(a, b) == dist(b, a)
    ensures mat.Length == |vecs| * |vecs|
    ensures Filled(vecs, dist, RowsBelow(|vecs|), mat[..])
  {
    var n := |vecs|;
    mat := new real[n * n](_ => 0.0);
    var rows := RowsBelow(n);
    ghost var done: set<nat> := {};
    while rows != {}
      invariant done + rows == RowsBelow(n) && done !! rows && Filled(vecs, dist, done, mat[..])
      decreases rows
    {
      var i :| i in rows;
      FillRow(vecs, dist, done, i, mat);
      rows, done := rows - {i}, done + {i};
    }
    assert done == RowsBelow(n);
  }

  /** The full matrix holds every distance, so clustering all of it reads the same relation as the vectors. */
  lemma FullMatrixLists<V(!new)>(vecs: seq<V>, dist: (V, V) -> real, mat: seq<real>, indices: seq<nat>, epsilon: real)
    requires forall a, b :: dist(a, b) == dist(b, a)
    requires Filled(vecs, dist, RowsBelow(|vecs|), mat)
    requires |indices| == |vecs| && forall k :: 0 <= k < |vecs| ==> indices[k] == k
    ensures Tabled(indices, mat, |vecs|)
    ensures MatrixLists(indices, mat, |vecs|, epsilon) == Lists(Within(vecs, dist, epsilon), |vecs|)
  {
    var n := |vecs|;
    forall a: nat, b: nat | a < n && b < n ensures Cell(n, a, b) < |mat| {
      CellInRange(n, a, b);
    }
    var near, near' := WithinMatrix(indices, mat, n, epsilon), Within(vecs, dist, epsilon);
    forall i: nat | i < n ensures NeighborsBelow(near, i, n) == NeighborsBelow(near', i, n) {
      SameNeighbors(near, near', i, n, n);
    }
  }

  lemma {:induction false} SameNeighbors(near: Step, near': Step, i: nat, k: nat, n: nat)
    requires k <= n && i < n && forall j: nat :: j < n && j != i ==> near(i, j) == near'(i, j)
    ensures NeighborsBelow(near, i, k) == NeighborsBelow(near', i, k)
  {
    if k > 0 { SameNeighbors(near, near', i, k - 1, n); }
  }

  /** dbscanSubset over the full matrix and DBSCAN over the vectors return the same label array. */
  lemma SubsetAgreesWithDBSCAN<V(!new)>(vecs: seq<V>, dist: (V, V) -> real, mat: seq<real>, all: seq<nat>, epsilon: real, minPoints: int,
                                        fromMatrix: seq<int>, fromVectors: seq<int>)
    requires forall a, b :: dist(a, b) == dist(b, a)
    requires Filled(vecs, dist, RowsBelow(|vecs|), mat)
    requires |all| == |vecs| && forall k :: 0 <= k < |vecs| ==> all[k] == k
    requires IsLabeling(MatrixLists(all, mat, |vecs|, epsilon), minPoints, fromMatrix)
    requires IsLabeling(Lists(Within(vecs, dist, epsilon), |vecs|), minPoints, fromVectors)
    ensures fromMatrix == fromVectors
  {
    FullMatrixLists(vecs, dist, mat, all, epsilon);
    SameGraphSameLabels(MatrixLists(all, mat, |vecs|, epsilon), Lists(Within(vecs, dist, epsilon), |vecs|), minPoints, fromMatrix, fromVectors);
  }

  lemma SameGraphSameLabels(adj: Adjacency, adj': Adjacency, m: int, a: seq<int>, b: seq<int>)
    requires adj == adj' && IsLabeling(adj, m, a) && IsLabeling(adj', m, b)
    ensures a == b
  {
  }

  // ---------------------------------------------------------------- the clusters in terms of the vectors

  /** The other points within epsilon of x. */
  ghost function Near<V(!new)>(vecs: seq<V>, dist: (V, V) -> real, epsilon: real, x: nat): set<nat>
    requires x < |vecs|
  {
    set j: nat | j < |vecs| && j != x && dist(vecs[x], vecs[j]) <= epsilon
  }

  ghost function NearBelow(near: Step, i: nat, n: nat): set<nat> {
    set j: nat | j < n && j != i && near(i, j)
  }

  lemma {:induction false} NeighborCount(near: Step, i: nat, n: nat)
    ensures |NeighborsBelow(near, i, n)| == |NearBelow(near, i, n)|
  {
    if n > 0 {
      NeighborCount(near, i, n - 1);
      var fewer := NearBelow(near, i, n - 1);
      assert n - 1 !in fewer;
      if n - 1 != i && near(i, n - 1) {
        assert NearBelow(near, i, n) == fewer + {n - 1};
      } else {
        assert NearBelow(near, i, n) == fewer;
      }
    }
  }

  /** A point is core exactly when at least minPoints others are within epsilon of it. */
  lemma CoreByCount<V(!new)>(vecs: seq<V>, dist: (V, V) -> real, epsilon: real, minPoints: int, x: nat)
    ensures Core(Lists(Within(vecs, dist, epsilon), |vecs|), minPoints, x) <==> x < |vecs| && |Near(vecs, dist, epsilon, x)| >= minPoints
  {
    if x < |vecs| {
      NeighborCount(Within(vecs, dist, epsilon), x, |vecs|);
      assert Near(vecs, dist, epsilon, x) == NearBelow(Within(vecs, dist, epsilon), x, |vecs|);
    }
  }

  /** A step between two points that each have minPoints others within epsilon, and are within epsilon themselves. */
  ghost predicate DenseStep<V(!new)>(vecs: seq<V>, dist: (V, V) -> real, epsilon: real, minPoints: int, a: nat, b: nat) {
    && a < |vecs| && b < |vecs| && a != b && dist(vecs[a], vecs[b]) <= epsilon
    && |Near(vecs, dist, epsilon, a)| >= minPoints && |Near(vecs, dist, epsilon, b)| >= minPoints
  }

  /** What DBSCAN returns, in terms of the vectors: two dense points share a label exactly when a chain of dense points links
      them, and a point that is not dense is alone or within epsilon of a dense point of its cluster. */
  lemma VectorClusters<V(!new)>(vecs: seq<V>, dist: (V, V) -> real, epsilon: real, minPoints: int, labels: seq<int>, x: nat, y: nat)
    requires forall a, b :: dist(a, b) == dist(b, a)
    requires IsLabeling(Lists(Within(vecs, dist, epsilon), |vecs|), minPoints, labels) && x < |vecs| && y < |vecs|
    ensures |labels| == |vecs|
    ensures |Near(vecs, dist, epsilon, x)| >= minPoints && |Near(vecs, dist, epsilon, y)| >= minPoints ==>
              (labels[x] == labels[y] <==> Reach((a: nat, b: nat) => DenseStep(vecs, dist, epsilon, minPoints, a, b), x, y))
    ensures |Near(vecs, dist, epsilon, x)| < minPoints ==>
              Alone(labels, x)
              || exists c: nat :: c < |vecs| && |Near(vecs, dist, epsilon, c)| >= minPoints && dist(vecs[c], vecs[x]) <= epsilon && labels[c] == labels[x]
  {
    var adj := Lists(Within(vecs, dist, epsilon), |vecs|);
    ListsSymmetric(Within(vecs, dist, epsilon), |vecs|);
    forall z: nat ensures Core(adj, minPoints, z) <==> z < |vecs| && |Near(vecs, dist, epsilon, z)| >= minPoints {
      CoreByCount(vecs, dist, epsilon, minPoints, z);
    }
    if Core(adj, minPoints, x) && Core(adj, minPoints, y) {
      CorePointsByChains(adj, minPoints, labels, x, y);
      var link, step := CoreLink(adj, minPoints), (a: nat, b: nat) => DenseStep(vecs, dist, epsilon, minPoints, a, b);
      forall a: nat, b: nat ensures link(a, b) <==> step(a, b) {
      }
      if Reach(link, x, y) { ReachMono(link, step, x, y); }
      if Reach(step, x, y) { ReachMono(step, link, x, y); }
    }
    if !Core(adj, minPoints, x) { BorderPoints(adj, minPoints, labels, x); }
  }

  /** There is one labelling for a relation. */
  lemma LabelingUnique(adj: Adjacency, m: int, a: seq<int>, b: seq<int>)
    requires IsLabeling(adj, m, a) && IsLabeling(adj, m, b)
    ensures a == b
  {
  }
}
