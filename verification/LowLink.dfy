/** The recursive low-link search of the cluster analysis tool. */
module LowLink {
  import opened Graphs
  import opened DfsForest

  // ---------------------------------------------------------------- what each array write keeps

  function Opened(adj: Adjacency, s: Dfs, u: nat): Dfs
    requires Sized(adj, s) && u < |adj|
  {
    s.(disc := s.disc[u := s.timer + 1], low := s.low[u := s.timer + 1],
       visited := s.visited[u := true], fin := s.fin[u := |adj| + 1], timer := s.timer + 1)
  }

  /** The vertex about to be entered: under the top of the stack, or a new root. */
  ghost predicate Enterable(adj: Adjacency, s: Dfs, open: set<nat>, u: nat) {
    && Inv(adj, s, open) && u < |adj| && !s.visited[u]
    && (forall x: nat :: x < |adj| && !s.visited[x] && x != u ==> s.parent[x] == -1)
    && (forall x: nat :: x < |adj| && !s.visited[x] ==> !s.isAP[x])
    && if s.parent[u] == -1 then open == {}
       else s.parent[u] >= 0 && Top(s, open, s.parent[u]) && u in adj[s.parent[u]]
  }

  lemma ClosedKept(adj: Adjacency, s: Dfs, t: Dfs, x: nat)
    requires Sized(adj, s) && Sized(adj, t) && x < |adj| && Vis(s, x)
    requires forall y: nat :: Vis(s, y) ==> Vis(t, y) && s.disc[y] == t.disc[y] && s.parent[y] == t.parent[y]
    requires forall y: nat :: Vis(s, y) && (y == x || s.parent[y] == x) ==> s.low[y] == t.low[y]
    requires forall y: nat :: Vis(t, y) && !Vis(s, y) ==> t.parent[y] != x
    requires s.isAP[x] == t.isAP[x] && s.fin[x] == t.fin[x] && s.timer <= t.timer
    requires Closed(adj, s, x)
    ensures Closed(adj, t, x)
  {
    assert forall v: nat :: IsKid(adj, t, x, v) <==> IsKid(adj, s, x, v);
  }

  lemma OpenKeepsClosed(adj: Adjacency, s: Dfs, u: nat, x: nat)
    requires Sized(adj, s) && u < |adj| && x < |adj| && !s.visited[u] && Vis(s, x) && Closed(adj, s, x)
    requires s.parent[u] != x
    requires forall y: nat :: Vis(s, y) ==> s.parent[y] != u
    ensures Closed(adj, Opened(adj, s, u), x)
  {
    ClosedKept(adj, s, Opened(adj, s, u), x);
  }

  lemma OpenKeepsClocks(adj: Adjacency, s: Dfs, open: set<nat>, u: nat, t: Dfs, x: nat)
    requires Enterable(adj, s, open, u) && t == Opened(adj, s, u) && s.timer < |adj| && Vis(t, x)
    ensures Clocked(adj, t, open + {u}, x)
  {
    if x != u {
      assert Clocked(adj, s, open, x);
      if x !in open {
        forall y: nat | Vis(s, y) ensures s.parent[y] != u {
          assert TreeEdge(adj, s, y);
        }
        assert s.parent[u] != x;
        OpenKeepsClosed(adj, s, u, x);
      }
    }
  }

  lemma OpenKeepsTree(adj: Adjacency, s: Dfs, open: set<nat>, u: nat, t: Dfs, x: nat)
    requires Enterable(adj, s, open, u) && t == Opened(adj, s, u) && s.timer < |adj| && Vis(t, x)
    ensures TreeEdge(adj, t, x)
  {
    if x != u {
      assert TreeEdge(adj, s, x) && Clocked(adj, s, open, x);
      assert forall w :: Encloses(t, w, x) ==> Encloses(s, w, x);
    } else {
      forall w | Encloses(t, w, u) ensures t.parent[u] != -1 && t.disc[w] <= t.disc[t.parent[u]] {
        assert Clocked(adj, s, open, w as nat);
        assert w in open;
      }
      if t.parent[u] != -1 {
        assert Clocked(adj, s, open, s.parent[u]);
      }
    }
  }

  lemma OpenScans(adj: Adjacency, s: Dfs, u: nat, t: Dfs)
    requires Sized(adj, s) && u < |adj| && t == Opened(adj, s, u) && !s.isAP[u] && s.parent[u] != u
    requires forall x: nat :: Vis(s, x) ==> s.parent[x] != u
    ensures Scanned(adj, t, u, 0) && Kids(adj, t, u) == {}
  {
    assert forall v: nat :: !IsKid(adj, t, u, v);
  }

  lemma OpenTop(adj: Adjacency, s: Dfs, open: set<nat>, u: nat, t: Dfs)
    requires Enterable(adj, s, open, u) && t == Opened(adj, s, u)
    ensures Top(t, open + {u}, u) && s.timer < |adj|
    ensures forall x: nat :: Vis(s, x) ==> t.disc[x] < t.disc[u] && s.parent[x] != u
  {
    TimerBound(adj, s);
    assert !Vis(s, u);
    forall x: nat | Vis(s, x) ensures s.disc[x] <= s.timer && s.parent[x] != u {
      assert Clocked(adj, s, open, x) && TreeEdge(adj, s, x);
    }
  }

  lemma OpenKeeps(adj: Adjacency, s: Dfs, open: set<nat>, u: nat, t: Dfs)
    requires Enterable(adj, s, open, u) && t == Opened(adj, s, u)
    ensures Inv(adj, t, open + {u})
  {
    OpenTop(adj, s, open, u, t);
    assert VisitedSet(t) == VisitedSet(s) + {u};
    forall x: nat | Vis(t, x) ensures Clocked(adj, t, open + {u}, x) && TreeEdge(adj, t, x) {
      OpenKeepsClocks(adj, s, open, u, t, x);
      OpenKeepsTree(adj, s, open, u, t, x);
    }
  }

  /** The loop over adj[u] after k neighbours; s0 is the state u was entered in. */
  ghost predicate AtTop(adj: Adjacency, s0: Dfs, s: Dfs, open: set<nat>, u: nat, k: nat, children: int) {
    && Inv(adj, s, open + {u}) && Top(s, open + {u}, u)
    && u < |adj| && k <= |adj[u]| && Scanned(adj, s, u, k)
    && children == |Kids(adj, s, u)|
    && Grows(adj, s0, s, u) && s.timer > s0.timer && s.parent[u] == s0.parent[u]
  }

  lemma EnterKeeps(adj: Adjacency, s: Dfs, open: set<nat>, u: nat, t: Dfs)
    requires Enterable(adj, s, open, u) && t == Opened(adj, s, u)
    ensures AtTop(adj, s, t, open, u, 0, 0)
    ensures s.timer < |adj|
  {
    OpenTop(adj, s, open, u, t);
    OpenKeeps(adj, s, open, u, t);
    assert s.parent[u] >= 0 ==> Vis(s, s.parent[u]);
    assert !Vis(s, u);
    OpenScans(adj, s, u, t);
  }

  lemma AdoptKeeps(adj: Adjacency, s0: Dfs, s: Dfs, open: set<nat>, u: nat, k: nat, children: int, t: Dfs)
    requires AtTop(adj, s0, s, open, u, k, children) && k < |adj[u]| && !s.visited[adj[u][k]]
    requires t == s.(parent := s.parent[adj[u][k] := u])
    ensures Enterable(adj, t, open + {u}, adj[u][k])
  {
    var v := adj[u][k];
    assert !Vis(s, v);
    assert VisitedSet(t) == VisitedSet(s);
    forall x: nat | Vis(t, x) ensures Clocked(adj, t, open + {u}, x) && TreeEdge(adj, t, x) {
      assert Clocked(adj, s, open + {u}, x) && TreeEdge(adj, s, x);
      if x !in open + {u} { ClosedKept(adj, s, t, x); }
      assert forall w :: Encloses(t, w, x) ==> Encloses(s, w, x);
    }
  }

  /** t is s after writes to low[u] and isAP[u] alone. */
  ghost predicate RelaxedAt(adj: Adjacency, s: Dfs, t: Dfs, u: nat) {
    && Sized(adj, s) && Sized(adj, t) && u < |adj| && t == s.(low := t.low, isAP := t.isAP)
    && forall x :: 0 <= x < |adj| && x != u ==> t.low[x] == s.low[x] && t.isAP[x] == s.isAP[x]
  }

  lemma RelaxedAtOther(adj: Adjacency, s: Dfs, t: Dfs, open: set<nat>, u: nat, x: nat)
    requires Inv(adj, s, open) && u in open && RelaxedAt(adj, s, t, u) && Vis(s, x)
    ensures Clocked(adj, t, open, x) && TreeEdge(adj, t, x)
  {
    assert Vis(s, u) && Clocked(adj, s, open, u) && TreeEdge(adj, s, u);
    assert Clocked(adj, s, open, x) && TreeEdge(adj, s, x);
    TimerBound(adj, s);
    if x !in open { ClosedKept(adj, s, t, x); }
    assert forall w :: Encloses(t, w, x) ==> Encloses(s, w, x);
  }

  lemma LowerKeeps(adj: Adjacency, s: Dfs, open: set<nat>, u: nat, t: Dfs)
    requires Inv(adj, s, open) && u in open && RelaxedAt(adj, s, t, u)
    ensures Inv(adj, t, open)
  {
    assert VisitedSet(t) == VisitedSet(s);
    forall x: nat | Vis(t, x) ensures Clocked(adj, t, open, x) && TreeEdge(adj, t, x) {
      RelaxedAtOther(adj, s, t, open, u, x);
    }
  }

  /** The scan of u becomes its closed record when its interval ends now. */
  lemma CloseSelf(adj: Adjacency, s: Dfs, open: set<nat>, u: nat, t: Dfs)
    requires Inv(adj, s, open) && u in open && u < |adj| && Scanned(adj, s, u, |adj[u]|)
    requires t == s.(fin := s.fin[u := s.timer])
    ensures Closed(adj, t, u) && t.disc[u] <= t.fin[u] <= |adj|
  {
    TimerBound(adj, s);
    assert Vis(s, u) && Clocked(adj, s, open, u);
    assert forall v: nat :: IsKid(adj, t, u, v) <==> IsKid(adj, s, u, v);
    forall j | 0 <= j < |adj[u]| ensures t.disc[adj[u][j]] <= t.fin[u] {
      assert Vis(s, adj[u][j]) && Clocked(adj, s, open, adj[u][j]);
    }
  }

  lemma CloseOther(adj: Adjacency, s: Dfs, open: set<nat>, u: nat, t: Dfs, x: nat)
    requires Inv(adj, s, open + {u}) && Top(s, open + {u}, u) && u < |adj| && u !in open && Vis(s, x) && x != u
    requires t == s.(fin := s.fin[u := s.timer])
    ensures Clocked(adj, t, open, x) && TreeEdge(adj, t, x)
  {
    assert Clocked(adj, s, open + {u}, x) && TreeEdge(adj, s, x) && Clocked(adj, s, open + {u}, u);
    TimerBound(adj, s);
    if x !in open { ClosedKept(adj, s, t, x); }
    assert forall w :: Encloses(t, w, x) ==> Encloses(s, w, x);
  }

  lemma CloseOwn(adj: Adjacency, s: Dfs, open: set<nat>, u: nat, t: Dfs)
    requires u < |adj| && Inv(adj, s, open + {u}) && Scanned(adj, s, u, |adj[u]|)
    requires u !in open && t == s.(fin := s.fin[u := s.timer])
    ensures Clocked(adj, t, open, u) && TreeEdge(adj, t, u)
  {
    CloseSelf(adj, s, open + {u}, u, t);
    assert Vis(s, u) && Clocked(adj, s, open + {u}, u) && TreeEdge(adj, s, u);
    assert forall w :: Encloses(t, w, u) ==> Encloses(s, w, u);
  }

  lemma CloseKeeps(adj: Adjacency, s: Dfs, open: set<nat>, u: nat, t: Dfs)
    requires u < |adj| && Inv(adj, s, open + {u}) && Top(s, open + {u}, u) && Scanned(adj, s, u, |adj[u]|)
    requires u !in open && t == s.(fin := s.fin[u := s.timer])
    ensures Inv(adj, t, open)
  {
    assert VisitedSet(t) == VisitedSet(s);
    forall x: nat | Vis(t, x) ensures Clocked(adj, t, open, x) && TreeEdge(adj, t, x) {
      if x != u { CloseOther(adj, s, open, u, t, x); } else { CloseOwn(adj, s, open, u, t); }
    }
  }

  lemma ScanBack(adj: Adjacency, s: Dfs, u: nat, k: nat, t: Dfs)
    requires Sized(adj, s) && u < |adj| && k < |adj[u]| && Scanned(adj, s, u, k) && Vis(s, adj[u][k])
    requires !IsKid(adj, s, u, u)
    requires var v := adj[u][k];
             t == if v != s.parent[u] && s.disc[v] < s.low[u] then s.(low := s.low[u := s.disc[v]]) else s
    ensures Scanned(adj, t, u, k + 1)
  {
    assert forall x: nat :: IsKid(adj, t, u, x) <==> IsKid(adj, s, u, x);
    assert forall x: nat :: IsKid(adj, s, u, x) ==> t.low[x] == s.low[x];
    assert Attained(adj, t, u);
  }

  lemma GrowsAtOwn(adj: Adjacency, s0: Dfs, s: Dfs, t: Dfs, u: nat)
    requires Grows(adj, s0, s, u) && RelaxedAt(adj, s, t, u) && !Vis(s0, u) && Vis(s, u)
    ensures Grows(adj, s0, t, u)
  {
    forall x: nat | Vis(s0, x) ensures SameAt(s0, t, x) {
      assert SameAt(s0, s, x);
    }
  }

  lemma BackEdgeKeeps(adj: Adjacency, s0: Dfs, s: Dfs, open: set<nat>, u: nat, k: nat, children: int, t: Dfs)
    requires AtTop(adj, s0, s, open, u, k, children) && u !in open && !Vis(s0, u)
    requires k < |adj[u]| && s.visited[adj[u][k]]
    requires var v := adj[u][k];
             t == if v != s.parent[u] && s.disc[v] < s.low[u] then s.(low := s.low[u := s.disc[v]]) else s
    ensures AtTop(adj, s0, t, open, u, k + 1, children)
  {
    assert Vis(s, adj[u][k]) && Vis(s, u) && TreeEdge(adj, s, u);
    LowerKeeps(adj, s, open + {u}, u, t);
    ScanBack(adj, s, u, k, t);
    assert Kids(adj, t, u) == Kids(adj, s, u);
    GrowsAtOwn(adj, s0, s, t, u);
  }

  lemma TwoMembers(a: set<nat>)
    ensures |a| > 1 <==> exists v: nat, w: nat :: v != w && v in a && w in a
  {
    if |a| > 1 {
      var v :| v in a;
      assert |a - {v}| == |a| - 1;
      assert a - {v} != {};
      var w :| w in a - {v};
    }
    forall v: nat, w: nat | v != w && v in a && w in a ensures |a| > 1 {
      assert {v, w} <= a;
      Smaller({v, w}, a);
    }
  }

  lemma Smaller(a: set<nat>, b: set<nat>)
    requires a <= b
    ensures |a| <= |b|
  {
    assert b == a + (b - a);
  }

  /** The two tests made after a child returns raise exactly the right flag. */
  lemma FlagAfterChild(adj: Adjacency, s: Dfs, r: Dfs, u: nat, v: nat, children: int)
    requires Sized(adj, s) && Sized(adj, r) && u < |adj| && v < |adj|
    requires s.isAP[u] == Flagged(adj, s, u) && s.parent[u] == r.parent[u] && s.disc[u] == r.disc[u]
    requires forall x: nat :: IsKid(adj, r, u, x) <==> IsKid(adj, s, u, x) || x == v
    requires forall x: nat :: IsKid(adj, s, u, x) ==> s.low[x] == r.low[x]
    requires !IsKid(adj, s, u, v) && children == |Kids(adj, s, u)|
    ensures Flagged(adj, r, u) <==>
            s.isAP[u] || (if r.parent[u] == -1 then children + 1 > 1 else r.low[v] >= r.disc[u])
    ensures |Kids(adj, r, u)| == children + 1
  {
    assert Kids(adj, r, u) == Kids(adj, s, u) + {v};
    TwoMembers(Kids(adj, r, u));
    TwoMembers(Kids(adj, s, u));
    assert forall x: nat :: IsKid(adj, r, u, x) <==> x in Kids(adj, r, u);
    assert forall x: nat :: IsKid(adj, s, u, x) <==> x in Kids(adj, s, u);
  }

  /** What the call on child v leaves: s before the call (v adopted), r after it. */
  ghost predicate Returned(adj: Adjacency, s: Dfs, r: Dfs, open: set<nat>, u: nat, v: nat) {
    && Sized(adj, s) && Inv(adj, r, open + {u}) && Grows(adj, s, r, v)
    && v < |adj| && u < |adj| && !Vis(s, v) && Vis(s, u) && Vis(r, v) && r.parent[v] == u
  }

  lemma GrowsTwice(adj: Adjacency, s0: Dfs, s: Dfs, q: Dfs, r: Dfs, u: nat, v: nat)
    requires Grows(adj, s0, s, u) && v < |adj| && !Vis(s, v) && q == s.(parent := s.parent[v := u])
    requires Grows(adj, q, r, v) && Vis(s, u) && !Vis(s0, u) && Vis(r, v) && r.parent[v] == u
    ensures Grows(adj, s0, r, u)
  {
    assert Vis(q, u) && SameAt(q, r, u);
    forall x: nat | Vis(r, x) && !Vis(s0, x) && x != u
      ensures s0.timer < r.disc[x] && Vis(r, r.parent[x]) && !Vis(s0, r.parent[x])
    {
      if Vis(s, x) {
        assert Vis(q, x) && SameAt(q, r, x);
        assert Vis(q, s.parent[x]) && SameAt(q, r, s.parent[x]);
      }
    }
    forall x: nat | Vis(s0, x) ensures SameAt(s0, r, x) {
      assert SameAt(s0, s, x) && Vis(q, x) && SameAt(q, r, x);
    }
  }

  lemma KidsAfterChild(adj: Adjacency, q: Dfs, r: Dfs, open: set<nat>, u: nat, v: nat, x: nat)
    requires Returned(adj, q, r, open, u, v)
    ensures IsKid(adj, r, u, x) <==> IsKid(adj, q, u, x) || x == v
    ensures IsKid(adj, q, u, x) ==> q.low[x] == r.low[x]
  {
    if Vis(q, x) { assert SameAt(q, r, x); }
  }

  /** Scanning past a child that has just been explored. */
  lemma ChildScan(adj: Adjacency, s: Dfs, q: Dfs, r: Dfs, open: set<nat>, u: nat, k: nat, children: int, t: Dfs)
    requires Sized(adj, s) && u < |adj| && k < |adj[u]| && Scanned(adj, s, u, k) && children == |Kids(adj, s, u)|
    requires adj[u][k] < |adj| && !s.visited[adj[u][k]] && q == s.(parent := s.parent[adj[u][k] := u])
    requires Returned(adj, q, r, open, u, adj[u][k]) && r.low[adj[u][k]] <= r.disc[adj[u][k]] && r.disc[u] < r.disc[adj[u][k]]
    requires !IsKid(adj, s, u, u)
    requires var v := adj[u][k];
             var l := if r.low[v] < r.low[u] then r.low[v] else r.low[u];
             var ap := r.isAP[u] || (if r.parent[u] == -1 then children + 1 > 1 else r.low[v] >= r.disc[u]);
             t == r.(low := r.low[u := l], isAP := r.isAP[u := ap])
    ensures Scanned(adj, t, u, k + 1) && |Kids(adj, t, u)| == children + 1
  {
    var v := adj[u][k];
    assert SameAt(q, r, u);
    forall x: nat
      ensures IsKid(adj, r, u, x) <==> IsKid(adj, s, u, x) || x == v
      ensures IsKid(adj, s, u, x) ==> s.low[x] == r.low[x]
    {
      KidsAfterChild(adj, q, r, open, u, v, x);
      assert IsKid(adj, q, u, x) <==> IsKid(adj, s, u, x);
    }
    FlagAfterChild(adj, s, r, u, v, children);
    assert forall x: nat :: IsKid(adj, t, u, x) <==> IsKid(adj, r, u, x);
    assert Kids(adj, t, u) == Kids(adj, r, u);
    forall x: nat | IsKid(adj, t, u, x) ensures t.low[x] == r.low[x] {
      assert x != u;
    }
    forall j | 0 <= j < k + 1
      ensures Vis(t, adj[u][j])
      ensures adj[u][j] != t.parent[u] ==> t.low[u] <= t.disc[adj[u][j]]
    {
      if j < k {
        assert Vis(s, adj[u][j]) && Vis(q, adj[u][j]);
        assert SameAt(q, r, adj[u][j]);
      }
    }
    assert Attained(adj, t, u) by {
      if t.low[u] == r.low[v] {
        assert IsKid(adj, t, u, v);
      } else {
        assert t.low[u] == s.low[u];
        if w: nat :| w in adj[u] && Vis(s, w) && s.low[u] == s.disc[w] {
          assert Vis(q, w) && SameAt(q, r, w);
        } else if x: nat :| IsKid(adj, s, u, x) && s.low[u] == s.low[x] {
          assert IsKid(adj, t, u, x) && t.low[x] == s.low[x];
        }
      }
    }
  }

  lemma ChildKeeps(adj: Adjacency, s0: Dfs, s: Dfs, q: Dfs, r: Dfs, open: set<nat>, u: nat, k: nat, children: int, t: Dfs)
    requires AtTop(adj, s0, s, open, u, k, children) && u !in open && !Vis(s0, u)
    requires k < |adj[u]| && !s.visited[adj[u][k]] && q == s.(parent := s.parent[adj[u][k] := u])
    requires Returned(adj, q, r, open, u, adj[u][k])
    requires var v := adj[u][k];
             var l := if r.low[v] < r.low[u] then r.low[v] else r.low[u];
             var ap := r.isAP[u] || (if r.parent[u] == -1 then children + 1 > 1 else r.low[v] >= r.disc[u]);
             t == r.(low := r.low[u := l], isAP := r.isAP[u := ap])
    ensures AtTop(adj, s0, t, open, u, k + 1, children + 1)
  {
    var v := adj[u][k];
    assert SameAt(q, r, u);
    assert Vis(r, v) && Clocked(adj, r, open + {u}, v) && TreeEdge(adj, r, v);
    assert Vis(s, u) && TreeEdge(adj, s, u);
    LowerKeeps(adj, r, open + {u}, u, t);
    ChildScan(adj, s, q, r, open, u, k, children, t);
    ChildGrows(adj, s0, s, q, r, u, v, t);
    StillTop(adj, s, q, r, open + {u}, u, t);
  }

  lemma ChildGrows(adj: Adjacency, s0: Dfs, s: Dfs, q: Dfs, r: Dfs, u: nat, v: nat, t: Dfs)
    requires Grows(adj, s0, s, u) && v < |adj| && !Vis(s, v) && q == s.(parent := s.parent[v := u])
    requires Grows(adj, q, r, v) && Vis(s, u) && !Vis(s0, u) && Vis(r, v) && r.parent[v] == u
    requires Vis(r, u) && RelaxedAt(adj, r, t, u)
    ensures Grows(adj, s0, t, u)
  {
    GrowsTwice(adj, s0, s, q, r, u, v);
    GrowsAtOwn(adj, s0, r, t, u);
  }

  /** Returning from a child leaves u on top of the stack. */
  lemma StillTop(adj: Adjacency, s: Dfs, q: Dfs, r: Dfs, open: set<nat>, u: nat, t: Dfs)
    requires Sized(adj, s) && Sized(adj, q) && Sized(adj, r) && Sized(adj, t) && Top(s, open, u) && u in open && u < |adj|
    requires forall w: nat :: w in open && w < |adj| ==> Vis(s, w)
    requires q.disc == s.disc && q.visited == s.visited && t.disc == r.disc
    requires forall w: nat :: w < |adj| && Vis(q, w) ==> SameAt(q, r, w)
    ensures forall w :: w in open && w < |t.disc| ==> t.disc[w] <= t.disc[u]
  {
    forall w | w in open && w < |t.disc| ensures t.disc[w] <= t.disc[u] {
      assert Vis(s, w) && Vis(q, w) && SameAt(q, r, w);
      assert Vis(q, u) && SameAt(q, r, u);
    }
  }

  /** Closing u after its scan: the whole effect of one call. */
  lemma LeaveKeeps(adj: Adjacency, s0: Dfs, s: Dfs, open: set<nat>, u: nat, children: int, t: Dfs)
    requires u < |adj| && AtTop(adj, s0, s, open, u, |adj[u]|, children) && u !in open && !Vis(s0, u)
    requires t == s.(fin := s.fin[u := s.timer])
    ensures Inv(adj, t, open) && Grows(adj, s0, t, u) && Vis(t, u) && t.parent[u] == s0.parent[u]
  {
    CloseKeeps(adj, s, open, u, t);
    assert Vis(s, u);
    forall x: nat | Vis(s0, x) ensures SameAt(s0, t, x) {
      assert SameAt(s0, s, x);
    }
  }
}
