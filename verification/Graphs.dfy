/** Reachability over an arbitrary step relation on vertex indices. */
module Graphs {

  type Step = (nat, nat) -> bool

  type Adjacency = seq<seq<nat>>

  ghost predicate Ascending(s: seq<nat>) {
    forall i, j :: 0 <= i < j < |s| ==> s[i] < s[j]
  }

  ghost predicate IsWalk(r: Step, p: seq<nat>, x: nat, y: nat) {
    && |p| > 0 && p[0] == x && p[|p| - 1] == y
    && forall i {:trigger p[i]} :: 0 < i < |p| ==> r(p[i - 1], p[i])
  }

  /** y can be reached from x by zero or more steps. */
  ghost predicate Reach(r: Step, x: nat, y: nat) {
    exists p :: IsWalk(r, p, x, y)
  }

  lemma ReachRefl(r: Step, x: nat)
    ensures Reach(r, x, x)
  {
    assert IsWalk(r, [x], x, x);
  }

  lemma ReachSnoc(r: Step, x: nat, y: nat, z: nat)
    requires Reach(r, x, y) && r(y, z)
    ensures Reach(r, x, z)
  {
    var p :| IsWalk(r, p, x, y);
    assert IsWalk(r, p + [z], x, z);
  }

  lemma ReachStep(r: Step, x: nat, y: nat)
    requires r(x, y)
    ensures Reach(r, x, y)
  {
    ReachRefl(r, x);
    ReachSnoc(r, x, x, y);
  }

  lemma {:induction false} WalkTrans(r: Step, x: nat, y: nat, q: seq<nat>, z: nat)
    requires Reach(r, x, y) && IsWalk(r, q, y, z)
    ensures Reach(r, x, z)
    decreases |q|
  {
    if |q| > 1 {
      ReachSnoc(r, x, y, q[1]);
      assert IsWalk(r, q[1..], q[1], z);
      WalkTrans(r, x, q[1], q[1..], z);
    }
  }

  lemma ReachTrans(r: Step, x: nat, y: nat, z: nat)
    requires Reach(r, x, y) && Reach(r, y, z)
    ensures Reach(r, x, z)
  {
    var q :| IsWalk(r, q, y, z);
    WalkTrans(r, x, y, q, z);
  }

  /** A set closed under the steps holds everything reachable from its members. */
  lemma ReachClosed(r: Step, s: set<nat>, x: nat, y: nat)
    requires Reach(r, x, y) && x in s
    requires forall a: nat, b: nat :: a in s && r(a, b) ==> b in s
    ensures y in s
  {
    var p :| IsWalk(r, p, x, y);
    var i := 0;
    while i < |p| - 1
      invariant 0 <= i < |p| && p[i] in s
    {
      assert r(p[i], p[i + 1]);
      i := i + 1;
    }
  }

  lemma {:induction false} WalkBack(r: Step, p: seq<nat>, x: nat, y: nat)
    requires IsWalk(r, p, x, y)
    requires forall a: nat, b: nat :: r(a, b) ==> r(b, a)
    ensures Reach(r, y, x)
    decreases |p|
  {
    ReachRefl(r, x);
    if |p| > 1 {
      assert r(p[0], p[1]);
      assert IsWalk(r, p[1..], p[1], y);
      WalkBack(r, p[1..], p[1], y);
      ReachSnoc(r, y, p[1], x);
    }
  }

  lemma ReachSym(r: Step, x: nat, y: nat)
    requires Reach(r, x, y)
    requires forall a: nat, b: nat :: r(a, b) ==> r(b, a)
    ensures Reach(r, y, x)
  {
    var p :| IsWalk(r, p, x, y);
    WalkBack(r, p, x, y);
  }

  lemma ReachMono(r: Step, t: Step, x: nat, y: nat)
    requires Reach(r, x, y)
    requires forall a: nat, b: nat :: r(a, b) ==> t(a, b)
    ensures Reach(t, x, y)
  {
    var p :| IsWalk(r, p, x, y);
    assert IsWalk(t, p, x, y);
  }

  /** Every listed neighbour is a vertex. */
  predicate InRange(adj: Adjacency) {
    forall i, k {:trigger adj[i][k]} :: 0 <= i < |adj| && 0 <= k < |adj[i]| ==> adj[i][k] < |adj|
  }

  predicate Adjacent(adj: Adjacency, a: nat, b: nat) {
    a < |adj| && b in adj[a]
  }

  ghost predicate Symmetric(adj: Adjacency) {
    forall a: nat, b: nat :: Adjacent(adj, a, b) ==> Adjacent(adj, b, a)
  }

  /** The steps of the whole graph. */
  ghost function Edges(adj: Adjacency): Step {
    (a: nat, b: nat) => Adjacent(adj, a, b)
  }

  /** The steps that are left once vertex u is removed. */
  ghost function Without(adj: Adjacency, u: nat): Step {
    (a: nat, b: nat) => Adjacent(adj, a, b) && a != u && b != u
  }

  predicate IsVertex(adj: Adjacency, x: nat) { x < |adj| }

  lemma ReachInRange(adj: Adjacency, a: nat, b: nat)
    requires InRange(adj) && a < |adj| && Reach(Edges(adj), a, b)
    ensures b < |adj|
  {
    var s := set x: nat | x < |adj| && IsVertex(adj, x);
    forall x: nat, y: nat | x in s && Edges(adj)(x, y) ensures y in s {
      var k :| 0 <= k < |adj[x]| && adj[x][k] == y;
      assert IsVertex(adj, y);
    }
    assert IsVertex(adj, a);
    ReachClosed(Edges(adj), s, a, b);
  }

  lemma WithoutSym(adj: Adjacency, u: nat)
    requires Symmetric(adj)
    ensures forall a: nat, b: nat :: Without(adj, u)(a, b) ==> Without(adj, u)(b, a)
    ensures forall a: nat, b: nat :: Edges(adj)(a, b) ==> Edges(adj)(b, a)
  {
  }

  /** A set of numbers below n has at most n members, and all of them when it has n. */
  lemma {:induction false} Counting(n: nat, a: set<nat>)
    requires forall x :: x in a ==> x < n
    ensures |a| <= n
    ensures |a| == n ==> forall x: nat :: x < n ==> x in a
  {
    if n > 0 {
      Counting(n - 1, a - {n - 1});
      if n - 1 !in a {
        assert a - {n - 1} == a;
      } else {
        forall x: nat | x < n && |a| == n ensures x in a {
          assert x < n - 1 ==> x in a - {n - 1};
        }
      }
    }
  }
}
