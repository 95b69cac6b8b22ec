/** Component sizes once a vertex is removed, and the second largest of them. */
module Splits {
  import opened Graphs
  import opened Sorting

  ghost function Component(adj: Adjacency, u: nat, s: nat): set<nat> {
    set x: nat | x < |adj| && x != u && Reach(Without(adj, u), s, x)
  }

  /** size is that of the second-largest component left by removing u. */
  ghost predicate SecondLargest(adj: Adjacency, u: nat, size: int) {
    exists a: nat, b: nat ::
      && a < |adj| && b < |adj| && a != u && b != u && b !in Component(adj, u, a)
      && |Component(adj, u, b)| == size <= |Component(adj, u, a)|
      && forall c: nat :: c < |adj| && c != u && c !in Component(adj, u, a) ==> |Component(adj, u, c)| <= size
  }

  ghost function Marked(vis: seq<bool>): set<nat> {
    set x: nat | x < |vis| && vis[x]
  }

  /** Nothing outside the marked set is next to it, except through u. */
  ghost predicate Sealed(adj: Adjacency, u: nat, m: set<nat>) {
    forall a: nat, b: nat :: a in m && Without(adj, u)(a, b) ==> b in m
  }

  /** The breadth-first search at work: `done` is dequeued, `seen` was marked before it began. */
  ghost predicate Frontier(adj: Adjacency, u: nat, s: nat, seen: set<nat>, done: set<nat>, queue: seq<nat>, vis: seq<bool>) {
    && |vis| == |adj| && u in seen
    && (forall x: nat :: x < |vis| ==> (vis[x] <==> x in seen || x in done || x in queue))
    && done !! seen && (forall x :: x in queue ==> x !in seen && x !in done)
    && (forall i, j :: 0 <= i < j < |queue| ==> queue[i] != queue[j])
    && (forall x :: x in done || x in queue ==> x < |adj| && Reach(Without(adj, u), s, x))
    && (s in done || s in queue)
  }

  /** Every neighbour of a dequeued vertex is marked. */
  ghost predicate Explored(adj: Adjacency, done: set<nat>, vis: seq<bool>) {
    forall a: nat, k: nat {:trigger a in done, adj[a][k]} ::
      a in done && a < |adj| && k < |adj[a]| && adj[a][k] < |vis| ==> vis[adj[a][k]]
  }

  lemma Push(adj: Adjacency, u: nat, s: nat, seen: set<nat>, done: set<nat>, queue: seq<nat>, vis: seq<bool>, cur: nat, k: nat)
    requires Frontier(adj, u, s, seen, done, queue, vis) && InRange(adj)
    requires cur in done && cur < |adj| && k < |adj[cur]| && !vis[adj[cur][k]]
    ensures Frontier(adj, u, s, seen, done, queue + [adj[cur][k]], vis[adj[cur][k] := true])
  {
    var v := adj[cur][k];
    assert v != u && cur != u;
    assert Without(adj, u)(cur, v);
    ReachSnoc(Without(adj, u), s, cur, v);
    var q := queue + [v];
    forall x ensures x in q <==> x in queue || x == v {
      if x in queue {
        var i :| 0 <= i < |queue| && queue[i] == x;
        assert q[i] == x;
      }
      assert q[|queue|] == v;
    }
  }

  lemma Pop(adj: Adjacency, u: nat, s: nat, seen: set<nat>, done: set<nat>, queue: seq<nat>, vis: seq<bool>)
    requires Frontier(adj, u, s, seen, done, queue, vis) && queue != []
    ensures Frontier(adj, u, s, seen, done + {queue[0]}, queue[1..], vis) && queue[0] !in done && queue[0] < |adj|
  {
    forall x ensures x in queue <==> x in queue[1..] || x == queue[0] {
      if x in queue {
        var i :| 0 <= i < |queue| && queue[i] == x;
        assert i > 0 ==> queue[1..][i - 1] == x;
      }
    }
  }

  lemma FloodEnds(adj: Adjacency, u: nat, s: nat, seen: set<nat>, done: set<nat>, vis: seq<bool>)
    requires Symmetric(adj) && InRange(adj) && s != u
    requires Frontier(adj, u, s, seen, done, [], vis) && Explored(adj, done, vis) && Sealed(adj, u, seen)
    requires forall x :: x in seen ==> x < |adj|
    ensures done == Component(adj, u, s) && Marked(vis) == seen + done && Sealed(adj, u, Marked(vis))
  {
    var r := Without(adj, u);
    forall a: nat, b: nat | a in done && r(a, b) ensures b in done {
      var k :| 0 <= k < |adj[a]| && adj[a][k] == b;
      assert r(b, a);
    }
    forall x | x in Component(adj, u, s) ensures x in done {
      ReachClosed(r, done, s, x);
    }
    assert forall x :: x in done ==> x != u;
    forall a: nat, b: nat | a in Marked(vis) && r(a, b) ensures b in Marked(vis) {
      assert a in seen || a in done;
    }
  }

  /** Marks and enqueues what is still unmarked next to a dequeued vertex. */
  method Expand(adj: Adjacency, u: nat, s: nat, cur: nat, vis: array<bool>, queue: seq<nat>, ghost seen: set<nat>, ghost done: set<nat>)
    returns (queue': seq<nat>)
    requires InRange(adj) && vis.Length == |adj| && cur < |adj| && cur in done
    requires Frontier(adj, u, s, seen, done, queue, vis[..]) && Explored(adj, done - {cur}, vis[..])
    modifies vis
    ensures Frontier(adj, u, s, seen, done, queue', vis[..]) && Explored(adj, done, vis[..])
  {
    queue' := queue;
    ghost var others := done - {cur};
    for k := 0 to |adj[cur]|
      invariant Frontier(adj, u, s, seen, done, queue', vis[..])
      invariant Explored(adj, others, vis[..])
      invariant forall j :: 0 <= j < k ==> vis[..][adj[cur][j]]
    {
      var v := adj[cur][k];
      if !vis[v] {
        ghost var before := vis[..];
        Push(adj, u, s, seen, done, queue', before, cur, k);
        vis[v] := true;
        assert vis[..] == before[v := true];
        queue' := queue' + [v];
      }
    }
    forall a: nat, k: nat | a in done && a < |adj| && k < |adj[a]| && adj[a][k] < |vis[..]| ensures vis[..][adj[a][k]] {
      assert a == cur || a in others;
    }
  }

  /** One breadth-first search from s in the graph without u. */
  method FloodFrom(adj: Adjacency, u: nat, s: nat, vis: array<bool>) returns (size: int)
    requires InRange(adj) && Symmetric(adj) && vis.Length == |adj| && u < |adj| && s < |adj|
    requires vis[u] && !vis[s] && Sealed(adj, u, Marked(vis[..]))
    modifies vis
    ensures size == |Component(adj, u, s)|
    ensures Marked(vis[..]) == old(Marked(vis[..])) + Component(adj, u, s)
    ensures Sealed(adj, u, Marked(vis[..])) && vis[u]
  {
    ghost var seen := Marked(vis[..]);
    ghost var done: set<nat> := {};
    size := 0;
    var queue := [s];
    vis[s] := true;
    ReachRefl(Without(adj, u), s);
    while |queue| > 0
      invariant Frontier(adj, u, s, seen, done, queue, vis[..]) && Explored(adj, done, vis[..]) && size == |done|
      decreases |adj| - |done|
    {
      Pop(adj, u, s, seen, done, queue, vis[..]);
      var cur := queue[0];
      size := size + 1;
      assert done + {cur} - {cur} == done;
      done := done + {cur};
      queue := Expand(adj, u, s, cur, vis, queue[1..], seen, done);
      Counting(|adj|, done);
    }
    assert queue == [];
    FloodEnds(adj, u, s, seen, done, vis[..]);
  }

  lemma SameComponent(adj: Adjacency, u: nat, a: nat, b: nat)
    requires Symmetric(adj) && a < |adj| && a != u && b in Component(adj, u, a)
    ensures a in Component(adj, u, b) && Component(adj, u, a) == Component(adj, u, b)
  {
    var r := Without(adj, u);
    WithoutSym(adj, u);
    ReachSym(r, a, b);
    forall x: nat | x < |adj| && x != u ensures Reach(r, a, x) <==> Reach(r, b, x) {
      if Reach(r, a, x) { ReachTrans(r, b, a, x); }
      if Reach(r, b, x) { ReachTrans(r, a, b, x); }
    }
  }

  ghost predicate Covered(adj: Adjacency, u: nat, starts: seq<nat>, x: nat) {
    exists i :: 0 <= i < |starts| && x in Component(adj, u, starts[i])
  }

  /** One start per component: the components of the starts are those of the first `upto` vertices, each once. */
  ghost predicate Covers(adj: Adjacency, u: nat, starts: seq<nat>, sizes: seq<int>, upto: nat) {
    && |starts| == |sizes|
    && (forall i :: 0 <= i < |starts| ==> starts[i] < |adj| && starts[i] != u && sizes[i] == |Component(adj, u, starts[i])|)
    && (forall i, j :: 0 <= i < j < |starts| ==> starts[j] !in Component(adj, u, starts[i]))
    && (forall x: nat :: x < upto && x < |adj| && x != u ==> Covered(adj, u, starts, x))
  }

  /** The sizes of the components left by removing u, found in order of smallest vertex. */
  method RemainingSizes(adj: Adjacency, u: nat) returns (sizes: seq<int>, ghost starts: seq<nat>)
    requires InRange(adj) && Symmetric(adj) && u < |adj|
    ensures Covers(adj, u, starts, sizes, |adj|)
    ensures exists s :: Covers(adj, u, s, sizes, |adj|)
  {
    var vis := new bool[|adj|](_ => false);
    vis[u] := true;
    sizes, starts := [], [];
    assert Marked(vis[..]) == {u};
    for s := 0 to |adj|
      invariant Covers(adj, u, starts, sizes, s)
      invariant vis[u] && Sealed(adj, u, Marked(vis[..]))
      invariant forall x: nat :: x < |adj| && x != u ==>
                  (vis[..][x] <==> Covered(adj, u, starts, x))
    {
      if !vis[s] {
        ghost var before := vis[..];
        var size := FloodFrom(adj, u, s, vis);
        AddStart(adj, u, starts, sizes, s, before, vis[..]);
        sizes := sizes + [size];
        starts := starts + [s];
      }
    }
  }

  lemma CoveredSnoc(adj: Adjacency, u: nat, starts: seq<nat>, s: nat, x: nat)
    ensures Covered(adj, u, starts + [s], x) <==> Covered(adj, u, starts, x) || x in Component(adj, u, s)
  {
    var t := starts + [s];
    assert t[|starts|] == s;
    if i :| 0 <= i < |starts| && x in Component(adj, u, starts[i]) {
      assert t[i] == starts[i];
    }
  }

  lemma AddStart(adj: Adjacency, u: nat, starts: seq<nat>, sizes: seq<int>, s: nat, before: seq<bool>, after: seq<bool>)
    requires Covers(adj, u, starts, sizes, s) && s < |adj| == |before| == |after| && s != u && !before[s]
    requires Marked(after) == Marked(before) + Component(adj, u, s)
    requires forall x: nat :: x < |adj| && x != u ==> (before[x] <==> Covered(adj, u, starts, x))
    ensures Covers(adj, u, starts + [s], sizes + [|Component(adj, u, s)|], s + 1)
    ensures forall x: nat :: x < |adj| && x != u ==> (after[x] <==> Covered(adj, u, starts + [s], x))
  {
    ReachRefl(Without(adj, u), s);
    forall x: nat | x < |adj| && x != u ensures after[x] <==> Covered(adj, u, starts + [s], x) {
      CoveredSnoc(adj, u, starts, s, x);
      assert after[x] <==> x in Marked(after);
      assert before[x] <==> x in Marked(before);
    }
    forall x: nat | x < s + 1 && x < |adj| && x != u ensures Covered(adj, u, starts + [s], x) {
      CoveredSnoc(adj, u, starts, s, x);
    }
    assert !Covered(adj, u, starts, s);
  }

  predicate Descending(a: int, b: int) { a >= b }

  lemma RemoveOne(s: seq<int>, i: nat, m: multiset<int>)
    requires i < |s| && multiset(s) == multiset{s[i]} + m
    ensures multiset(s[..i] + s[i + 1..]) == m
  {
    assert s == s[..i] + [s[i]] + s[i + 1..];
    assert multiset(s) == multiset(s[..i]) + multiset{s[i]} + multiset(s[i + 1..]);
    assert multiset(s[..i] + s[i + 1..]) == multiset(s[..i]) + multiset(s[i + 1..]) == multiset(s) - multiset{s[i]};
    assert m == multiset(s) - multiset{s[i]};
  }

  lemma Below(rest: seq<int>, tail: seq<int>)
    requires multiset(rest) == multiset(tail) && Ordered(Descending, tail) && |tail| >= 1
    ensures forall k :: 0 <= k < |rest| ==> rest[k] <= tail[0]
  {
    forall k | 0 <= k < |rest| ensures rest[k] <= tail[0] {
      assert rest[k] in multiset(tail);
      var m :| 0 <= m < |tail| && tail[m] == rest[k];
      assert m == 0 || Descending(tail[0], tail[m]);
    }
  }

  lemma TopTwo(s: seq<int>, t: seq<int>) returns (i: nat, j: nat)
    requires multiset(s) == multiset(t) && Ordered(Descending, t) && |t| >= 2
    ensures i < |s| && j < |s| && i != j && s[i] == t[0] && s[j] == t[1]
    ensures forall k :: 0 <= k < |s| && k != i ==> s[k] <= t[1]
  {
    var tail := t[1..];
    assert t == [t[0]] + tail;
    assert t[0] in multiset(s);
    i :| 0 <= i < |s| && s[i] == t[0];
    RemoveOne(s, i, multiset(tail));
    var rest := s[..i] + s[i + 1..];
    assert tail[0] in multiset(rest);
    var j' :| 0 <= j' < |rest| && rest[j'] == tail[0];
    j := if j' < i then j' else j' + 1;
    Below(rest, tail);
    forall k | 0 <= k < |s| && k != i ensures s[k] <= t[1] {
      assert s[k] == rest[if k < i then k else k - 1];
    }
  }

  /** The second entry of the sorted sizes is the second-largest component. */
  lemma SecondEntry(adj: Adjacency, u: nat, starts: seq<nat>, sizes: seq<int>, sorted: seq<int>)
    requires Symmetric(adj) && Covers(adj, u, starts, sizes, |adj|) && |sizes| >= 2
    requires multiset(sizes) == multiset(sorted) && Ordered(Descending, sorted)
    ensures |sorted| >= 2 && SecondLargest(adj, u, sorted[1])
  {
    assert |multiset(sizes)| == |multiset(sorted)|;
    var i, j := TopTwo(sizes, sorted);
    var a, b := starts[i], starts[j];
    if b in Component(adj, u, a) {
      SameComponent(adj, u, a, b);
    }
    assert Descending(sorted[0], sorted[1]);
    forall c: nat | c < |adj| && c != u && c !in Component(adj, u, a) ensures |Component(adj, u, c)| <= sorted[1] {
      assert Covered(adj, u, starts, c);
      var k :| 0 <= k < |starts| && c in Component(adj, u, starts[k]);
      SameComponent(adj, u, starts[k], c);
    }
  }
}
