/** The facts a depth-first low-link search keeps about its arrays, and what
    they say about the graph once every vertex is closed. */
module DfsForest {
  import opened Graphs

  /** One snapshot of the arrays of the search. `fin` is the clock value at
      which a vertex was closed, and n + 1 while it is still open; it is not an
      array of the program. Vertex x owns the interval [disc[x], fin[x]]. */
  datatype Dfs = Dfs(disc: seq<int>, low: seq<int>, visited: seq<bool>, parent: seq<int>,
                     isAP: seq<bool>, fin: seq<int>, timer: int)

  ghost predicate Sized(adj: Adjacency, s: Dfs) {
    |s.disc| == |s.low| == |s.visited| == |s.parent| == |s.isAP| == |s.fin| == |adj|
  }

  ghost predicate Vis(s: Dfs, x: int) {
    0 <= x < |s.visited| && s.visited[x]
  }

  ghost predicate IsKid(adj: Adjacency, s: Dfs, u: nat, v: nat)
    requires Sized(adj, s)
  {
    Vis(s, v) && s.parent[v] == u
  }

  ghost function Kids(adj: Adjacency, s: Dfs, u: nat): set<nat>
    requires Sized(adj, s)
  {
    set v: nat | v < |adj| && IsKid(adj, s, u, v)
  }

  ghost function VisitedSet(s: Dfs): set<nat> {
    set x: nat | x < |s.visited| && s.visited[x]
  }

  /** Two children under a root, or a child whose subtree does not climb above u. */
  ghost predicate Flagged(adj: Adjacency, s: Dfs, u: nat)
    requires Sized(adj, s) && u < |adj|
  {
    if s.parent[u] == -1
    then exists v: nat, w: nat :: v != w && IsKid(adj, s, u, v) && IsKid(adj, s, u, w)
    else exists v: nat :: IsKid(adj, s, u, v) && s.low[v] >= s.disc[u]
  }

  /** low[u] is the clock value of u, of a neighbour, or the low value of a child. */
  ghost predicate Attained(adj: Adjacency, s: Dfs, u: nat)
    requires Sized(adj, s) && u < |adj|
  {
    || s.low[u] == s.disc[u]
    || (exists w: nat :: w in adj[u] && Vis(s, w) && s.low[u] == s.disc[w])
    || (exists v: nat :: IsKid(adj, s, u, v) && s.low[u] == s.low[v])
  }

  /** u has been compared with its first k neighbours. */
  ghost predicate Scanned(adj: Adjacency, s: Dfs, u: nat, k: nat)
    requires Sized(adj, s) && u < |adj| && k <= |adj[u]|
  {
    && s.low[u] <= s.disc[u]
    && (forall j :: 0 <= j < k ==> Vis(s, adj[u][j]))
    && (forall j :: 0 <= j < k && adj[u][j] != s.parent[u] ==> s.low[u] <= s.disc[adj[u][j]])
    && (forall v: nat :: IsKid(adj, s, u, v) ==> s.low[u] <= s.low[v])
    && Attained(adj, s, u)
    && s.isAP[u] == Flagged(adj, s, u)
  }

  ghost predicate Closed(adj: Adjacency, s: Dfs, x: nat)
    requires Sized(adj, s) && x < |adj|
  {
    && s.fin[x] <= s.timer
    && Scanned(adj, s, x, |adj[x]|)
    && forall j :: 0 <= j < |adj[x]| ==> s.disc[adj[x][j]] <= s.fin[x]
  }

  /** w's interval properly encloses the clock value of x. */
  ghost predicate Encloses(s: Dfs, w: int, x: int)
    requires |s.disc| == |s.fin| == |s.visited|
  {
    Vis(s, w) && Vis(s, x) && s.disc[w] < s.disc[x] <= s.fin[w]
  }

  /** The tree edge above x: its parent encloses it, and is the innermost that does. */
  ghost predicate TreeEdge(adj: Adjacency, s: Dfs, x: nat)
    requires Sized(adj, s) && x < |adj|
  {
    && -1 <= s.parent[x]
    && (s.parent[x] != -1 ==>
          && Vis(s, s.parent[x]) && x in adj[s.parent[x]]
          && s.disc[s.parent[x]] < s.disc[x] && s.fin[x] <= s.fin[s.parent[x]])
    && (forall w :: Encloses(s, w, x) ==> s.parent[x] != -1 && s.disc[w] <= s.disc[s.parent[x]])
  }

  ghost predicate Clocked(adj: Adjacency, s: Dfs, open: set<nat>, x: nat)
    requires Sized(adj, s) && x < |adj|
  {
    && 1 <= s.disc[x] <= s.timer && s.disc[x] <= s.fin[x] <= |adj| + 1
    && (x in open ==> s.fin[x] == |adj| + 1)
    && (x !in open ==> Closed(adj, s, x))
  }

  /** What holds of the arrays between two steps, `open` being the recursion stack. */
  ghost predicate Inv(adj: Adjacency, s: Dfs, open: set<nat>) {
    && Sized(adj, s) && InRange(adj)
    && s.timer == |VisitedSet(s)|
    && open <= VisitedSet(s)
    && (forall x: nat {:trigger Clocked(adj, s, open, x)} :: Vis(s, x) ==> Clocked(adj, s, open, x))
    && (forall x: nat {:trigger TreeEdge(adj, s, x)} :: Vis(s, x) ==> TreeEdge(adj, s, x))
    && (forall x, y :: Vis(s, x) && Vis(s, y) && s.disc[x] == s.disc[y] ==> x == y)
  }

  /** u is the innermost vertex of the recursion stack. */
  ghost predicate Top(s: Dfs, open: set<nat>, u: nat) {
    u in open && forall w :: w in open && w < |s.disc| && u < |s.disc| ==> s.disc[w] <= s.disc[u]
  }

  ghost predicate SameAt(s: Dfs, t: Dfs, x: nat)
    requires x < |s.disc| == |s.low| == |s.visited| == |s.parent| == |s.isAP| == |s.fin|
    requires x < |t.disc| == |t.low| == |t.visited| == |t.parent| == |t.isAP| == |t.fin|
  {
    && s.disc[x] == t.disc[x] && s.low[x] == t.low[x] && s.visited[x] == t.visited[x]
    && s.parent[x] == t.parent[x] && s.isAP[x] == t.isAP[x] && s.fin[x] == t.fin[x]
  }

  /** From s to t: old vertices keep every entry, new ones other than u hang
      below new ones, and unvisited vertices have no parent. */
  ghost predicate Grows(adj: Adjacency, s: Dfs, t: Dfs, u: nat) {
    && Sized(adj, s) && Sized(adj, t) && s.timer <= t.timer
    && (forall x: nat :: Vis(s, x) ==> SameAt(s, t, x))
    && (forall x: nat :: Vis(t, x) && !Vis(s, x) ==> s.timer < t.disc[x])
    && (forall x: nat :: Vis(t, x) && !Vis(s, x) && x != u ==> Vis(t, t.parent[x]) && !Vis(s, t.parent[x]))
    && (forall x: nat :: x < |adj| && !Vis(t, x) ==> t.parent[x] == -1 && !t.isAP[x])
  }

  // ---------------------------------------------------------------- the finished forest

  ghost predicate Finished(adj: Adjacency, s: Dfs) {
    && Inv(adj, s, {}) && Symmetric(adj)
    && forall x: nat :: x < |adj| ==> Vis(s, x)
  }

  ghost function Subtree(adj: Adjacency, s: Dfs, v: nat): set<nat>
    requires Sized(adj, s) && v < |adj|
  {
    set x: nat | x < |adj| && s.disc[v] <= s.disc[x] <= s.fin[v]
  }

  /** The parent of a proper member of a subtree is in that subtree. */
  lemma ParentInside(adj: Adjacency, s: Dfs, v: nat, x: nat)
    requires Finished(adj, s) && v < |adj| && x in Subtree(adj, s, v) && x != v
    ensures 0 <= s.parent[x] < |adj| && s.parent[x] in Subtree(adj, s, v)
    ensures s.disc[s.parent[x]] < s.disc[x] && x in adj[s.parent[x]]
  {
    assert Vis(s, x) && Vis(s, v) && TreeEdge(adj, s, x);
    assert Encloses(s, v, x);
  }

  lemma {:induction false} Nested(adj: Adjacency, s: Dfs, v: nat, x: nat)
    requires Finished(adj, s) && v < |adj| && x in Subtree(adj, s, v)
    ensures s.fin[x] <= s.fin[v]
    ensures Subtree(adj, s, x) <= Subtree(adj, s, v)
    decreases s.disc[x]
  {
    assert Vis(s, x) && Clocked(adj, s, {}, x) && TreeEdge(adj, s, x);
    if x != v {
      ParentInside(adj, s, v, x);
      Nested(adj, s, v, s.parent[x]);
    }
  }

  /** No cross edges: of two adjacent vertices one encloses the other. */
  lemma EdgeNests(adj: Adjacency, s: Dfs, a: nat, b: nat)
    requires Finished(adj, s) && Adjacent(adj, a, b) && s.disc[a] <= s.disc[b]
    ensures b < |adj| && b in Subtree(adj, s, a)
  {
    var j :| 0 <= j < |adj[a]| && adj[a][j] == b;
    assert Vis(s, a) && Clocked(adj, s, {}, a);
  }

  lemma {:induction false} ClimbTo(adj: Adjacency, s: Dfs, u: nat, v: nat, x: nat)
    requires Finished(adj, s) && v < |adj| && u < |adj| && x in Subtree(adj, s, v)
    requires u !in Subtree(adj, s, v)
    ensures Reach(Without(adj, u), x, v)
    decreases s.disc[x]
  {
    ReachRefl(Without(adj, u), x);
    assert Vis(s, x) && Clocked(adj, s, {}, x);
    if x != v {
      ParentInside(adj, s, v, x);
      var p := s.parent[x];
      assert Adjacent(adj, p, x);
      assert Adjacent(adj, x, p);
      ReachStep(Without(adj, u), x, p);
      ClimbTo(adj, s, u, v, p);
      ReachTrans(Without(adj, u), x, p, v);
    }
  }

  /** low[v] bounds the clock value of everything next to v's subtree. */
  lemma {:induction false} LowBounds(adj: Adjacency, s: Dfs, v: nat, x: nat)
    requires Finished(adj, s) && v < |adj| && x in Subtree(adj, s, v)
    ensures s.low[v] <= s.low[x]
    decreases s.disc[x]
  {
    assert Vis(s, x) && Clocked(adj, s, {}, x);
    if x != v {
      ParentInside(adj, s, v, x);
      var p := s.parent[x];
      assert Vis(s, p) && Clocked(adj, s, {}, p) && IsKid(adj, s, p, x);
      LowBounds(adj, s, v, p);
    }
  }

  lemma KidInside(adj: Adjacency, s: Dfs, v: nat, c: nat)
    requires Finished(adj, s) && v < |adj| && IsKid(adj, s, v, c)
    ensures c in Subtree(adj, s, v) && s.disc[v] < s.disc[c] <= s.timer
    ensures Subtree(adj, s, c) <= Subtree(adj, s, v)
    ensures s.timer <= |adj|
  {
    assert TreeEdge(adj, s, c) && Clocked(adj, s, {}, c);
    Nested(adj, s, v, c);
    TimerBound(adj, s);
  }

  lemma TimerBound(adj: Adjacency, s: Dfs)
    requires Sized(adj, s) && s.timer == |VisitedSet(s)|
    ensures s.timer <= |adj|
    ensures s.timer == |adj| ==> forall x: nat :: x < |adj| ==> Vis(s, x)
  {
    Counting(|adj|, VisitedSet(s));
    assert forall x :: x in VisitedSet(s) ==> Vis(s, x);
  }

  /** ... and is the clock value of a subtree member or of one of its neighbours. */
  lemma {:induction false} LowWitness(adj: Adjacency, s: Dfs, v: nat) returns (y: nat, w: nat)
    requires Finished(adj, s) && v < |adj| && s.low[v] < s.disc[v]
    ensures y in Subtree(adj, s, v) && w in adj[y] && s.disc[w] == s.low[v]
    decreases |adj| + 1 - s.disc[v]
  {
    assert Vis(s, v) && Clocked(adj, s, {}, v);
    assert Attained(adj, s, v);
    if exists w0: nat :: w0 in adj[v] && Vis(s, w0) && s.low[v] == s.disc[w0] {
      var w0: nat :| w0 in adj[v] && Vis(s, w0) && s.low[v] == s.disc[w0];
      y, w := v, w0;
    } else {
      var c: nat :| IsKid(adj, s, v, c) && s.low[v] == s.low[c];
      KidInside(adj, s, v, c);
      y, w := LowWitness(adj, s, c);
    }
  }

  /** A child that does not climb above u keeps every walk that avoids u inside. */
  lemma SubtreeSealed(adj: Adjacency, s: Dfs, u: nat, v: nat, x: nat, w: nat)
    requires Finished(adj, s) && u < |adj| && v < |adj| && IsKid(adj, s, u, v)
    requires s.parent[u] == -1 || s.low[v] >= s.disc[u]
    requires x in Subtree(adj, s, v) && Without(adj, u)(x, w)
    ensures w in Subtree(adj, s, v)
  {
    assert w < |adj| by {
      var j :| 0 <= j < |adj[x]| && adj[x][j] == w;
    }
    assert Vis(s, x) && Vis(s, w) && Vis(s, u) && Vis(s, v);
    Nested(adj, s, v, x);
    if s.disc[x] <= s.disc[w] {
      EdgeNests(adj, s, x, w);
    } else if s.disc[w] < s.disc[v] {
      assert Adjacent(adj, w, x);
      EdgeNests(adj, s, w, x);
      assert Encloses(s, w, v);
      assert TreeEdge(adj, s, v);
      assert s.disc[w] <= s.disc[u];
      assert s.disc[w] < s.disc[u];
      assert Clocked(adj, s, {}, v);
      assert Encloses(s, w, u);
      assert TreeEdge(adj, s, u);
      LowBounds(adj, s, v, x);
      assert Clocked(adj, s, {}, x);
      assert TreeEdge(adj, s, x);
      if w == s.parent[x] && x != v { ParentInside(adj, s, v, x); }
    }
  }

  /** Removing u disconnects two vertices that were connected. */
  ghost predicate CutVertex(adj: Adjacency, u: nat) {
    exists a: nat, b: nat :: a != u && b != u && Reach(Edges(adj), a, b) && !Reach(Without(adj, u), a, b)
  }

  lemma FlaggedCuts(adj: Adjacency, s: Dfs, u: nat)
    requires Finished(adj, s) && u < |adj| && Flagged(adj, s, u)
    ensures CutVertex(adj, u)
  {
    var e := Edges(adj);
    var a: nat, b: nat;
    if s.parent[u] == -1 {
      a, b :| a != b && IsKid(adj, s, u, a) && IsKid(adj, s, u, b);
      if s.disc[b] < s.disc[a] { a, b := b, a; }
      assert TreeEdge(adj, s, b) && TreeEdge(adj, s, a);
      assert !Encloses(s, a, b);
    } else {
      a :| IsKid(adj, s, u, a) && s.low[a] >= s.disc[u];
      assert Vis(s, u) && TreeEdge(adj, s, u) && TreeEdge(adj, s, a);
      b := s.parent[u];
    }
    assert Adjacent(adj, u, a);
    assert Adjacent(adj, a, u);
    assert Adjacent(adj, b, u) || Adjacent(adj, u, b);
    assert Adjacent(adj, u, b);
    ReachStep(e, a, u);
    ReachSnoc(e, a, u, b);
    var t := Subtree(adj, s, a);
    assert Vis(s, a) && Clocked(adj, s, {}, a);
    assert a in t && b !in t;
    if Reach(Without(adj, u), a, b) {
      forall x: nat, w: nat | x in t && Without(adj, u)(x, w) ensures w in t {
        SubtreeSealed(adj, s, u, a, x, w);
      }
      ReachClosed(Without(adj, u), t, a, b);
    }
  }

  /** The root of x's tree. */
  ghost function Root(adj: Adjacency, s: Dfs, x: nat): (r: nat)
    requires Finished(adj, s) && x < |adj|
    ensures r < |adj| && s.parent[r] == -1
    decreases s.disc[x]
  {
    assert Vis(s, x) && TreeEdge(adj, s, x) && Clocked(adj, s, {}, x);
    if s.parent[x] == -1 then x else Root(adj, s, s.parent[x])
  }

  lemma {:induction false} SubtreeRoot(adj: Adjacency, s: Dfs, v: nat, x: nat)
    requires Finished(adj, s) && v < |adj| && x in Subtree(adj, s, v)
    ensures Root(adj, s, x) == Root(adj, s, v)
    decreases s.disc[x]
  {
    assert Vis(s, x) && Clocked(adj, s, {}, x);
    if x != v {
      ParentInside(adj, s, v, x);
      SubtreeRoot(adj, s, v, s.parent[x]);
    }
  }

  lemma EdgeRoot(adj: Adjacency, s: Dfs, a: nat, b: nat)
    requires Finished(adj, s) && Adjacent(adj, a, b)
    ensures b < |adj| && Root(adj, s, a) == Root(adj, s, b)
  {
    assert Adjacent(adj, b, a);
    if s.disc[a] <= s.disc[b] {
      EdgeNests(adj, s, a, b);
      SubtreeRoot(adj, s, a, b);
    } else {
      EdgeNests(adj, s, b, a);
      SubtreeRoot(adj, s, b, a);
    }
  }

  lemma ConnectedRoot(adj: Adjacency, s: Dfs, a: nat, b: nat)
    requires Finished(adj, s) && a < |adj| && Reach(Edges(adj), a, b)
    ensures b < |adj| && Root(adj, s, a) == Root(adj, s, b)
  {
    var t := set x: nat | x < |adj| && Root(adj, s, x) == Root(adj, s, a);
    forall x: nat, w: nat | x in t && Edges(adj)(x, w) ensures w in t {
      EdgeRoot(adj, s, x, w);
    }
    ReachClosed(Edges(adj), t, a, b);
  }

  /** Below an unflagged inner vertex every subtree climbs around it to the root. */
  lemma {:induction false} AroundInner(adj: Adjacency, s: Dfs, u: nat, x: nat)
    requires Finished(adj, s) && u < |adj| && x < |adj| && x != u
    requires s.parent[u] != -1 && !Flagged(adj, s, u)
    ensures Reach(Without(adj, u), x, Root(adj, s, x))
    decreases s.disc[x]
  {
    var r := Without(adj, u);
    assert Vis(s, x) && TreeEdge(adj, s, x) && Clocked(adj, s, {}, x);
    ReachRefl(r, x);
    var p := s.parent[x];
    if p == u {
      assert IsKid(adj, s, u, x);
      var y, w := LowWitness(adj, s, x);
      assert Vis(s, u) && Vis(s, y);
      assert u !in Subtree(adj, s, x);
      ClimbTo(adj, s, u, x, y);
      WithoutSym(adj, u);
      ReachSym(r, y, x);
      assert Adjacent(adj, y, w);
      EdgeRoot(adj, s, y, w);
      SubtreeRoot(adj, s, x, y);
      assert r(y, w);
      ReachSnoc(r, x, y, w);
      assert Vis(s, w) && Clocked(adj, s, {}, w);
      AroundInner(adj, s, u, w);
      ReachTrans(r, x, w, Root(adj, s, w));
    } else if p != -1 {
      assert Adjacent(adj, p, x);
      assert Adjacent(adj, x, p);
      ReachStep(r, x, p);
      AroundInner(adj, s, u, p);
      ReachTrans(r, x, p, Root(adj, s, x));
    }
  }

  /** In the tree of a root u every other vertex climbs to a child of u; other trees to their root. */
  lemma {:induction false} AroundRoot(adj: Adjacency, s: Dfs, u: nat, x: nat) returns (t: nat)
    requires Finished(adj, s) && u < |adj| && x < |adj| && x != u && s.parent[u] == -1
    ensures Reach(Without(adj, u), x, t) && t < |adj|
    ensures if Root(adj, s, x) == u then IsKid(adj, s, u, t) else t == Root(adj, s, x)
    decreases s.disc[x]
  {
    var r := Without(adj, u);
    assert Vis(s, x) && TreeEdge(adj, s, x) && Clocked(adj, s, {}, x);
    ReachRefl(r, x);
    var p := s.parent[x];
    if p == u || p == -1 {
      t := x;
    } else {
      assert Adjacent(adj, p, x);
      assert Adjacent(adj, x, p);
      ReachStep(r, x, p);
      t := AroundRoot(adj, s, u, p);
      ReachTrans(r, x, p, t);
    }
  }

  lemma UnflaggedConnects(adj: Adjacency, s: Dfs, u: nat, a: nat, b: nat)
    requires Finished(adj, s) && u < |adj| && !Flagged(adj, s, u)
    requires a < |adj| && a != u && b != u && Reach(Edges(adj), a, b)
    ensures Reach(Without(adj, u), a, b)
  {
    var r := Without(adj, u);
    ConnectedRoot(adj, s, a, b);
    WithoutSym(adj, u);
    var ta: nat, tb: nat;
    if s.parent[u] == -1 {
      ta := AroundRoot(adj, s, u, a);
      tb := AroundRoot(adj, s, u, b);
    } else {
      AroundInner(adj, s, u, a);
      AroundInner(adj, s, u, b);
      ta, tb := Root(adj, s, a), Root(adj, s, b);
    }
    assert ta == tb;
    ReachSym(r, b, tb);
    ReachTrans(r, a, ta, b);
  }

  lemma OutsideIsolated(adj: Adjacency, a: nat, b: nat)
    requires Symmetric(adj) && a >= |adj| && Reach(Edges(adj), a, b)
    ensures a == b
  {
    ReachClosed(Edges(adj), {a}, a, b);
  }

  /** The low-link theorem: once every vertex is closed, the flags are the cut vertices. */
  lemma FlagsAreCutVertices(adj: Adjacency, s: Dfs, u: nat)
    requires Finished(adj, s) && u < |adj|
    ensures s.isAP[u] <==> CutVertex(adj, u)
  {
    assert Vis(s, u) && Clocked(adj, s, {}, u);
    if s.isAP[u] {
      FlaggedCuts(adj, s, u);
    } else if CutVertex(adj, u) {
      var a: nat, b: nat :| a != u && b != u && Reach(Edges(adj), a, b) && !Reach(Without(adj, u), a, b);
      if a < |adj| {
        UnflaggedConnects(adj, s, u, a, b);
      } else {
        OutsideIsolated(adj, a, b);
        ReachRefl(Without(adj, u), a);
      }
    }
  }
}
