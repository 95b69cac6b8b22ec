/** articulationPoints and buildGraph of the cluster analysis tool. */
module Articulation {
  import opened Graphs
  import opened DfsForest
  import opened LowLink
  import opened Sorting
  import opened Splits

  /** The arrays the recursive search shares between its calls. */
  class Search {
    const adj: Adjacency
    const disc: array<int>
    const low: array<int>
    const visited: array<bool>
    const parent: array<int>
    const isAP: array<bool>
    var timer: int
    ghost var fin: seq<int>

    ghost predicate Valid() {
      && InRange(adj)
      && disc.Length == low.Length == visited.Length == parent.Length == isAP.Length == |adj|
      && disc != low && disc != parent && low != parent && visited != isAP
    }

    ghost function Snap(): (s: Dfs)
      reads this, disc, low, visited, parent, isAP
    {
      Dfs(disc[..], low[..], visited[..], parent[..], isAP[..], fin, timer)
    }

    constructor (adj: Adjacency)
      requires InRange(adj)
      ensures Valid() && this.adj == adj && fresh(disc) && fresh(low) && fresh(visited) && fresh(parent) && fresh(isAP)
      ensures Inv(adj, Snap(), {})
      ensures forall x: nat :: x < |adj| ==> !visited[x] && parent[x] == -1 && !isAP[x]
    {
      var n := |adj|;
      this.adj := adj;
      disc := new int[n](_ => 0);
      low := new int[n](_ => 0);
      visited := new bool[n](_ => false);
      parent := new int[n](_ => -1);
      isAP := new bool[n](_ => false);
      timer := 0;
      fin := seq(n, _ => 0);
      new;
      assert VisitedSet(Snap()) == {};
      assert forall x: nat :: !Vis(Snap(), x);
    }

    method Enter(u: nat, ghost open: set<nat>)
      requires Valid() && Enterable(adj, Snap(), open, u)
      modifies this`timer, this`fin, disc, low, visited
      ensures Snap() == Opened(adj, old(Snap()), u)
    {
      visited[u] := true;
      timer := timer + 1;
      disc[u] := timer;
      low[u] := timer;
      fin := fin[u := |adj| + 1];
    }

    method Adopt(u: nat, v: nat)
      requires Valid() && v < |adj|
      modifies parent
      ensures Snap() == old(Snap()).(parent := old(Snap()).parent[v := u])
    {
      parent[v] := u;
    }

    /** The updates of low[u] and isAP[u] once the call on v has returned. */
    method MergeChild(u: nat, v: nat, children: int)
      requires Valid() && u < |adj| && v < |adj| && u != v
      modifies low, isAP
      ensures var r := old(Snap());
              var l := if r.low[v] < r.low[u] then r.low[v] else r.low[u];
              var ap := r.isAP[u] || (if r.parent[u] == -1 then children > 1 else r.low[v] >= r.disc[u]);
              Snap() == r.(low := r.low[u := l], isAP := r.isAP[u := ap])
    {
      if low[v] < low[u] {
        low[u] := low[v];
      }
      if parent[u] == -1 && children > 1 {
        isAP[u] := true;
      }
      if parent[u] != -1 && low[v] >= disc[u] {
        isAP[u] := true;
      }
    }

    method MergeBackEdge(u: nat, v: nat)
      requires Valid() && u < |adj| && v < |adj|
      modifies low
      ensures var s := old(Snap());
              Snap() == if v != s.parent[u] && s.disc[v] < s.low[u] then s.(low := s.low[u := s.disc[v]]) else s
    {
      if v != parent[u] {
        if disc[v] < low[u] {
          low[u] := disc[v];
        }
      }
    }

    /** One turn of the loop over adj[u]; s0 is the state u was entered in. */
    method Scan(u: nat, k: nat, children: int, ghost open: set<nat>, ghost s0: Dfs) returns (children': int)
      requires Valid() && AtTop(adj, s0, Snap(), open, u, k, children)
      requires k < |adj[u]| && u !in open && !Vis(s0, u)
      modifies this`timer, this`fin, disc, low, visited, parent, isAP
      ensures AtTop(adj, s0, Snap(), open, u, k + 1, children')
      decreases |adj| - timer, 1
    {
      var v := adj[u][k];
      ghost var s := Snap();
      children' := children;
      if !visited[v] {
        children' := children + 1;
        Adopt(u, v);
        ghost var q := Snap();
        AdoptKeeps(adj, s0, s, open, u, k, children, q);
        Visit(v, open + {u});
        ghost var r := Snap();
        assert Returned(adj, q, r, open, u, v);
        MergeChild(u, v, children');
        ChildKeeps(adj, s0, s, q, r, open, u, k, children, Snap());
      } else {
        MergeBackEdge(u, v);
        BackEdgeKeeps(adj, s0, s, open, u, k, children, Snap());
      }
    }

    /** Explores everything unvisited that u leads to, and closes u. */
    method Visit(u: nat, ghost open: set<nat>)
      requires Valid() && Enterable(adj, Snap(), open, u)
      modifies this`timer, this`fin, disc, low, visited, parent, isAP
      ensures Inv(adj, Snap(), open)
      ensures Grows(adj, old(Snap()), Snap(), u)
      ensures Vis(Snap(), u) && Snap().parent[u] == old(Snap()).parent[u]
      decreases |adj| - timer, 0
    {
      ghost var s0 := Snap();
      assert !Vis(s0, u);
      Enter(u, open);
      EnterKeeps(adj, s0, open, u, Snap());
      var children := 0;
      for k := 0 to |adj[u]|
        invariant AtTop(adj, s0, Snap(), open, u, k, children)
      {
        children := Scan(u, k, children, open, s0);
      }
      ghost var s := Snap();
      fin := fin[u := timer];
      LeaveKeeps(adj, s0, s, open, u, children, Snap());
    }
  }

  /** Removing a cut vertex leaves at least two components. */
  lemma CutLeavesTwo(adj: Adjacency, u: nat, starts: seq<nat>, sizes: seq<int>)
    requires Symmetric(adj) && u < |adj| && CutVertex(adj, u) && Covers(adj, u, starts, sizes, |adj|)
    requires InRange(adj)
    ensures |sizes| >= 2
  {
    var a: nat, b: nat :| a != u && b != u && Reach(Edges(adj), a, b) && !Reach(Without(adj, u), a, b);
    ReachRefl(Without(adj, u), a);
    if a >= |adj| {
      OutsideIsolated(adj, a, b);
    } else {
      ReachInRange(adj, a, b);
      assert Covered(adj, u, starts, a) && Covered(adj, u, starts, b);
      var i :| 0 <= i < |starts| && a in Component(adj, u, starts[i]);
      var j :| 0 <= j < |starts| && b in Component(adj, u, starts[j]);
      SameComponent(adj, u, starts[i], a);
    }
  }

  /** The search started once at every vertex that is still unvisited. */
  method FlagCutVertices(adj: Adjacency) returns (flags: seq<bool>)
    requires InRange(adj) && Symmetric(adj)
    ensures |flags| == |adj| && forall u: nat :: u < |adj| ==> (flags[u] <==> CutVertex(adj, u))
  {
    var g := new Search(adj);
    for i := 0 to |adj|
      invariant g.Valid() && g.adj == adj && fresh(g) && fresh(g.disc) && fresh(g.low) && fresh(g.visited) && fresh(g.parent) && fresh(g.isAP)
      invariant Inv(adj, g.Snap(), {})
      invariant forall x: nat :: x < |adj| && !Vis(g.Snap(), x) ==> g.Snap().parent[x] == -1 && !g.Snap().isAP[x]
      invariant forall x: nat :: x < i ==> Vis(g.Snap(), x)
    {
      if !g.visited[i] {
        assert !Vis(g.Snap(), i);
        ghost var s := g.Snap();
        g.Visit(i, {});
        forall x: nat | x < i + 1 ensures Vis(g.Snap(), x) {
          if x < i { assert Vis(s, x) && SameAt(s, g.Snap(), x); }
        }
      }
    }
    flags := g.isAP[..];
    forall u: nat | u < |adj| ensures flags[u] <==> CutVertex(adj, u) {
      FlagsAreCutVertices(adj, g.Snap(), u);
    }
  }

  /** The second entry of the sorted component sizes; its fallback is never taken for a cut vertex. */
  method SplitSize(adj: Adjacency, u: nat) returns (size: int)
    requires InRange(adj) && Symmetric(adj) && u < |adj| && CutVertex(adj, u)
    ensures SecondLargest(adj, u, size)
  {
    var sizes, starts := RemainingSizes(adj, u);
    CutLeavesTwo(adj, u, starts, sizes);
    SortOrdered(Descending, sizes);
    var sorted := Sort(Descending, sizes);
    SecondEntry(adj, u, starts, sizes, sorted);
    size := if |sorted| >= 2 then sorted[1] else 0;
  }

  /** The cut vertices in ascending order, each with the second-largest component its removal leaves. */
  method ArticulationPoints(adj: Adjacency) returns (points: seq<nat>, splitSize: seq<int>)
    requires InRange(adj) && Symmetric(adj)
    ensures Ascending(points) && |splitSize| == |points|
    ensures forall u: nat :: u in points <==> u < |adj| && CutVertex(adj, u)
    ensures forall k :: 0 <= k < |points| ==> SecondLargest(adj, points[k], splitSize[k])
  {
    var g := FlagCutVertices(adj);
    points, splitSize := [], [];
    for u := 0 to |adj|
      invariant Ascending(points) && |splitSize| == |points| && forall k :: 0 <= k < |points| ==> points[k] < u
      invariant forall x: nat :: x in points <==> x < u && CutVertex(adj, x)
      invariant forall k :: 0 <= k < |points| ==> SecondLargest(adj, points[k], splitSize[k])
    {
      if g[u] {
        points := points + [u];
        var size := SplitSize(adj, u);
        splitSize := splitSize + [size];
      }
    }
  }
}
