/** What a DBSCAN labelling is, independently of any queue: every point belongs
    to the smallest index that density-reaches it, and clusters are numbered in
    the order of those founders. */
module Density {
  import opened Graphs

  /** The neighbour count excludes the point itself, as in the program. */
  predicate Core(adj: Adjacency, minPoints: int, x: nat) {
    x < |adj| && |adj[x]| >= minPoints
  }

  /** A cluster grows from a core point to each of its neighbours. */
  ghost function Grow(adj: Adjacency, minPoints: int): Step {
    (a: nat, b: nat) => Core(adj, minPoints, a) && b in adj[a]
  }

  ghost predicate DensityReach(adj: Adjacency, minPoints: int, y: nat, x: nat) {
    Reach(Grow(adj, minPoints), y, x)
  }

  ghost function FounderFrom(adj: Adjacency, minPoints: int, x: nat, lo: nat): (y: nat)
    requires lo <= x
    ensures lo <= y <= x && DensityReach(adj, minPoints, y, x)
    ensures forall z: nat :: lo <= z < y ==> !DensityReach(adj, minPoints, z, x)
    decreases x - lo
  {
    ReachRefl(Grow(adj, minPoints), x);
    if DensityReach(adj, minPoints, lo, x) then lo else FounderFrom(adj, minPoints, x, lo + 1)
  }

  /** The smallest index that density-reaches x. */
  ghost function Founder(adj: Adjacency, minPoints: int, x: nat): (y: nat)
    ensures y <= x && DensityReach(adj, minPoints, y, x)
    ensures forall z: nat :: z < y ==> !DensityReach(adj, minPoints, z, x)
  {
    FounderFrom(adj, minPoints, x, 0)
  }

  /** How many founders lie below i. */
  ghost function Rank(adj: Adjacency, minPoints: int, i: nat): nat {
    if i == 0 then 0
    else Rank(adj, minPoints, i - 1) + if Founder(adj, minPoints, i - 1) == i - 1 then 1 else 0
  }

  ghost predicate IsLabeling(adj: Adjacency, minPoints: int, labels: seq<int>) {
    && |labels| == |adj|
    && forall x: nat :: x < |labels| ==> labels[x] == Rank(adj, minPoints, Founder(adj, minPoints, x))
  }

  lemma FounderAtMost(adj: Adjacency, m: int, y: nat, x: nat)
    requires DensityReach(adj, m, y, x)
    ensures Founder(adj, m, x) <= Founder(adj, m, y)
  {
    ReachTrans(Grow(adj, m), Founder(adj, m, y), y, x);
    assert DensityReach(adj, m, Founder(adj, m, y), x);
  }

  lemma FounderFixed(adj: Adjacency, m: int, x: nat)
    ensures Founder(adj, m, Founder(adj, m, x)) == Founder(adj, m, x)
  {
    FounderAtMost(adj, m, Founder(adj, m, x), x);
  }

  lemma FounderOfNeighbor(adj: Adjacency, m: int, a: nat, b: nat)
    requires Core(adj, m, a) && b in adj[a]
    ensures Founder(adj, m, b) <= Founder(adj, m, a)
  {
    ReachStep(Grow(adj, m), a, b);
    FounderAtMost(adj, m, a, b);
  }

  /** Only a core point density-reaches anything but itself. */
  lemma ReachFromCore(adj: Adjacency, m: int, y: nat, x: nat)
    requires DensityReach(adj, m, y, x) && y != x
    ensures Core(adj, m, y)
  {
    if !Core(adj, m, y) {
      ReachClosed(Grow(adj, m), {y}, y, x);
    }
  }

  lemma RankMonotone(adj: Adjacency, m: int, i: nat, j: nat)
    requires i <= j
    ensures Rank(adj, m, i) <= Rank(adj, m, j)
    ensures i < j && Founder(adj, m, i) == i ==> Rank(adj, m, i) < Rank(adj, m, j)
    decreases j - i
  {
    if i < j { RankMonotone(adj, m, i + 1, j); }
  }

  // ---------------------------------------------------------------- what the labels mean

  /** Labels agree exactly when the founders do. */
  lemma SameLabelSameFounder(adj: Adjacency, m: int, labels: seq<int>, x: nat, y: nat)
    requires IsLabeling(adj, m, labels) && x < |adj| && y < |adj|
    ensures labels[x] == labels[y] <==> Founder(adj, m, x) == Founder(adj, m, y)
    ensures labels[x] < labels[y] <==> Founder(adj, m, x) < Founder(adj, m, y)
  {
    var f, g := Founder(adj, m, x), Founder(adj, m, y);
    FounderFixed(adj, m, x);
    FounderFixed(adj, m, y);
    if f < g { RankMonotone(adj, m, f, g); }
    if g < f { RankMonotone(adj, m, g, f); }
  }

  ghost function CoreLink(adj: Adjacency, m: int): Step {
    (a: nat, b: nat) => Core(adj, m, a) && Core(adj, m, b) && b in adj[a]
  }

  lemma CoreLinkSym(adj: Adjacency, m: int)
    requires Symmetric(adj)
    ensures forall a: nat, b: nat :: CoreLink(adj, m)(a, b) ==> CoreLink(adj, m)(b, a)
  {
    forall a: nat, b: nat | CoreLink(adj, m)(a, b) ensures CoreLink(adj, m)(b, a) {
      assert Adjacent(adj, a, b);
      assert Adjacent(adj, b, a);
    }
  }

  /** Reaching a core point, every point on the way is core. */
  lemma CoreChain(adj: Adjacency, m: int, y: nat, x: nat)
    requires DensityReach(adj, m, y, x) && Core(adj, m, x)
    ensures Reach(CoreLink(adj, m), y, x)
  {
    var p :| IsWalk(Grow(adj, m), p, y, x);
    forall i | 0 < i < |p| ensures CoreLink(adj, m)(p[i - 1], p[i]) {
      assert Grow(adj, m)(p[i - 1], p[i]);
      if i + 1 < |p| { assert Grow(adj, m)(p[i + 1 - 1], p[i + 1]); }
    }
    assert IsWalk(CoreLink(adj, m), p, y, x);
  }

  /** Two core points share a label exactly when a chain of core points links them. */
  lemma CorePointsByChains(adj: Adjacency, m: int, labels: seq<int>, x: nat, y: nat)
    requires IsLabeling(adj, m, labels) && Symmetric(adj) && Core(adj, m, x) && Core(adj, m, y)
    ensures labels[x] == labels[y] <==> Reach(CoreLink(adj, m), x, y)
  {
    var r, f := CoreLink(adj, m), Founder(adj, m, x);
    SameLabelSameFounder(adj, m, labels, x, y);
    CoreLinkSym(adj, m);
    if labels[x] == labels[y] {
      CoreChain(adj, m, f, x);
      CoreChain(adj, m, f, y);
      ReachSym(r, f, x);
      ReachTrans(r, x, f, y);
    }
    if Reach(r, x, y) {
      ReachMono(r, Grow(adj, m), x, y);
      FounderAtMost(adj, m, x, y);
      ReachSym(r, x, y);
      ReachMono(r, Grow(adj, m), y, x);
      FounderAtMost(adj, m, y, x);
    }
  }

  ghost predicate Alone(labels: seq<int>, x: nat)
    requires x < |labels|
  {
    forall y: nat :: y < |labels| && labels[y] == labels[x] ==> y == x
  }

  lemma LastStep(r: Step, y: nat, x: nat) returns (c: nat)
    requires Reach(r, y, x) && y != x
    ensures Reach(r, y, c) && r(c, x)
  {
    var p :| IsWalk(r, p, y, x);
    c := p[|p| - 2];
    assert r(p[|p| - 1 - 1], p[|p| - 1]);
    assert IsWalk(r, p[..|p| - 1], y, c);
  }

  /** A point that is not core is alone, or next to a core point of its own cluster. */
  lemma BorderPoints(adj: Adjacency, m: int, labels: seq<int>, x: nat)
    requires IsLabeling(adj, m, labels) && x < |adj| && InRange(adj) && !Core(adj, m, x)
    ensures Alone(labels, x) || exists c: nat :: Core(adj, m, c) && x in adj[c] && labels[c] == labels[x]
  {
    var f := Founder(adj, m, x);
    if f == x {
      forall y: nat | y < |labels| && labels[y] == labels[x] ensures y == x {
        SameLabelSameFounder(adj, m, labels, y, x);
        if y != x { ReachFromCore(adj, m, x, y); }
      }
    } else {
      var c := LastStep(Grow(adj, m), f, x);
      FounderAtMost(adj, m, f, c);
      FounderOfNeighbor(adj, m, c, x);
      FounderFixed(adj, m, x);
      SameLabelSameFounder(adj, m, labels, c, x);
    }
  }

  /** With minPoints = 1 the clusters are the connected components. */
  lemma OnePointClusters(adj: Adjacency, labels: seq<int>, x: nat, y: nat)
    requires IsLabeling(adj, 1, labels) && Symmetric(adj) && InRange(adj) && x < |adj| && y < |adj|
    ensures labels[x] == labels[y] <==> Reach(Edges(adj), x, y)
  {
    var g, e := Grow(adj, 1), Edges(adj);
    assert forall a: nat, b: nat :: g(a, b) <==> e(a, b);
    SameLabelSameFounder(adj, 1, labels, x, y);
    WithoutSym(adj, 0);
    var f := Founder(adj, 1, x);
    if labels[x] == labels[y] {
      ReachMono(g, e, f, x);
      ReachMono(g, e, f, y);
      ReachSym(e, f, x);
      ReachTrans(e, x, f, y);
    }
    if Reach(e, x, y) {
      ReachSym(e, x, y);
      ReachMono(e, g, x, y);
      ReachMono(e, g, y, x);
      FounderAtMost(adj, 1, x, y);
      FounderAtMost(adj, 1, y, x);
    }
  }

  /** With minPoints = 1 the one-point branch, whose guard is a neighbour count below minPoints, is taken for exactly the
      points without neighbours, and each of them is a cluster of its own. */
  lemma IsolatedPoints(adj: Adjacency, labels: seq<int>, x: nat)
    requires IsLabeling(adj, 1, labels) && Symmetric(adj) && InRange(adj) && x < |adj|
    ensures !Core(adj, 1, x) <==> adj[x] == []
    ensures adj[x] == [] ==> Alone(labels, x)
  {
    if adj[x] == [] {
      BorderPoints(adj, 1, labels, x);
      forall c: nat | Core(adj, 1, c) ensures x !in adj[c] {
        assert Adjacent(adj, c, x) <==> Adjacent(adj, x, c);
      }
    }
  }

  /** The smallest input that takes it: one point. */
  lemma OnePointTakesTheBranch() returns (adj: Adjacency)
    ensures |adj| == 1 && InRange(adj) && Symmetric(adj) && |adj[0]| < 1 && !Core(adj, 1, 0)
  {
    adj := [[]];
  }

  lemma {:induction false} RankReached(adj: Adjacency, m: int, n: nat, c: nat) returns (f: nat)
    requires c < Rank(adj, m, n)
    ensures f < n && Founder(adj, m, f) == f && Rank(adj, m, f) == c
  {
    if Rank(adj, m, n - 1) <= c {
      f := n - 1;
    } else {
      f := RankReached(adj, m, n - 1, c);
    }
  }

  ghost predicate Used(labels: seq<int>, c: int) {
    exists x :: 0 <= x < |labels| && labels[x] == c
  }

  ghost predicate FirstOfCluster(labels: seq<int>, x: nat) {
    x < |labels| && forall z: nat :: z < x ==> labels[z] != labels[x]
  }

  lemma FounderIsFirst(adj: Adjacency, m: int, labels: seq<int>, x: nat)
    requires IsLabeling(adj, m, labels) && x < |labels|
    ensures FirstOfCluster(labels, x) <==> Founder(adj, m, x) == x
  {
    FounderFixed(adj, m, x);
    SameLabelSameFounder(adj, m, labels, Founder(adj, m, x), x);
    if Founder(adj, m, x) == x {
      forall z: nat | z < x ensures labels[z] != labels[x] {
        SameLabelSameFounder(adj, m, labels, z, x);
      }
    }
  }

  /** The labels used are exactly 0..k-1. */
  lemma LabelsAreContiguous(adj: Adjacency, m: int, labels: seq<int>) returns (k: nat)
    requires IsLabeling(adj, m, labels)
    ensures forall c: int :: Used(labels, c) <==> 0 <= c < k
  {
    k := Rank(adj, m, |adj|);
    forall c: int ensures Used(labels, c) <==> 0 <= c < k {
      if Used(labels, c) {
        var x :| 0 <= x < |labels| && labels[x] == c;
        FounderFixed(adj, m, x);
        RankMonotone(adj, m, Founder(adj, m, x), |adj|);
      }
      if 0 <= c < k {
        var f := RankReached(adj, m, |adj|, c);
        assert labels[f] == c;
      }
    }
  }

  /** Clusters are numbered in the order of their smallest indices. */
  lemma LabelsFollowFirstIndex(adj: Adjacency, m: int, labels: seq<int>, x: nat, y: nat)
    requires IsLabeling(adj, m, labels) && FirstOfCluster(labels, x) && FirstOfCluster(labels, y) && x < y
    ensures labels[x] < labels[y]
  {
    FounderIsFirst(adj, m, labels, x);
    FounderIsFirst(adj, m, labels, y);
    SameLabelSameFounder(adj, m, labels, x, y);
  }
}
