/** groupByCosine: burst groups by union-find with path halving. */
module BurstGroups {
  import opened Graphs
  import opened Density
  import opened Dbscan
  import opened Options

  /** What find and union keep: `root` names every element's representative, and
      `depth` strictly falls along parent links, so the links hold no cycle. */
  ghost predicate Forest(parent: seq<nat>, root: seq<nat>, depth: seq<nat>) {
    && |parent| == |root| == |depth|
    && forall x {:trigger Rooted(parent, root, depth, x)} :: 0 <= x < |parent| ==> Rooted(parent, root, depth, x)
  }

  ghost predicate Rooted(parent: seq<nat>, root: seq<nat>, depth: seq<nat>, x: int)
    requires |parent| == |root| == |depth| && 0 <= x < |parent|
  {
    && parent[x] < |parent| && root[x] < |parent|
    && root[parent[x]] == root[x] && parent[root[x]] == root[x]
    && (parent[x] == x ==> root[x] == x)
    && (parent[x] != x ==> depth[parent[x]] < depth[x])
  }

  ghost function Merged(root: seq<nat>, ra: nat, rb: nat): seq<nat> {
    seq(|root|, x requires 0 <= x < |root| => if root[x] == ra then rb else root[x])
  }

  ghost function Sunk(root: seq<nat>, depth: seq<nat>, ra: nat, rb: nat): seq<nat>
    requires |root| == |depth| && rb < |depth|
  {
    seq(|root|, x requires 0 <= x < |root| => if root[x] == ra then depth[x] + depth[rb] + 1 else depth[x])
  }

  lemma MergeForest(p: seq<nat>, r: seq<nat>, d: seq<nat>, ra: nat, rb: nat)
    requires Forest(p, r, d) && ra < |p| && rb < |p| && ra != rb && r[ra] == ra && r[rb] == rb
    ensures Forest(p[ra := rb], Merged(r, ra, rb), Sunk(r, d, ra, rb))
  {
    assert Rooted(p, r, d, ra) && Rooted(p, r, d, rb);
    var p', r', d' := p[ra := rb], Merged(r, ra, rb), Sunk(r, d, ra, rb);
    forall x | 0 <= x < |p| ensures Rooted(p', r', d', x) {
      assert Rooted(p, r, d, x) && Rooted(p, r, d, p[x]) && Rooted(p, r, d, r[x]);
    }
  }

  lemma HalveForest(p: seq<nat>, r: seq<nat>, d: seq<nat>, x: nat)
    requires Forest(p, r, d) && x < |p| && p[x] != x
    ensures p[x] < |p| && p[p[x]] < |p| && d[p[p[x]]] < d[x] && r[p[p[x]]] == r[x]
    ensures Forest(p[x := p[p[x]]], r, d)
  {
    assert Rooted(p, r, d, x) && Rooted(p, r, d, p[x]) && Rooted(p, r, d, p[p[x]]) && Rooted(p, r, d, r[x]);
    var q := p[x := p[p[x]]];
    forall y | 0 <= y < |p| ensures Rooted(q, r, d, y) {
      assert Rooted(p, r, d, y) && Rooted(p, r, d, r[y]);
    }
  }

  class UnionFind {
    const parent: array<nat>
    ghost var root: seq<nat>
    ghost var depth: seq<nat>

    ghost predicate Valid()
      reads this, parent
    {
      Forest(parent[..], root, depth)
    }

    constructor (n: nat)
      ensures Valid() && fresh(parent) && root == seq(n, i => i)
    {
      parent := new nat[n](i => i);
      root := seq(n, i => i);
      depth := seq(n, _ => 0);
    }

    /** Path halving: the links change, the representatives do not. */
    method Find(a: nat) returns (x: nat)
      requires Valid() && a < |root|
      modifies parent
      ensures Valid() && root == old(root) && depth == old(depth)
      ensures x == root[a] && x < |root| && root[x] == x
    {
      x := a;
      assert Rooted(parent[..], root, depth, a);
      while parent[x] != x
        invariant Valid() && x < |root| && root[x] == root[a]
        decreases depth[x]
      {
        ghost var p := parent[..];
        HalveForest(p, root, depth, x);
        parent[x] := parent[parent[x]];
        assert parent[..] == p[x := p[p[x]]];
        x := parent[x];
      }
      assert Rooted(parent[..], root, depth, x);
    }

    method Union(a: nat, b: nat)
      requires Valid() && a < |root| && b < |root|
      modifies this`root, this`depth, parent
      ensures Valid() && root == Merged(old(root), old(root[a]), old(root[b])) && |root| == old(|root|)
      ensures forall x :: 0 <= x < |root| ==> root[x] == if old(root[x]) == old(root[a]) then old(root[b]) else old(root[x])
    {
      assert Rooted(parent[..], root, depth, a) && Rooted(parent[..], root, depth, b);
      var ra := Find(a);
      var rb := Find(b);
      assert Rooted(parent[..], root, depth, ra) && Rooted(parent[..], root, depth, rb);
      ghost var p, r, d := parent[..], root, depth;
      if ra != rb {
        MergeForest(p, r, d, ra, rb);
        parent[ra] := rb;
        root, depth := Merged(r, ra, rb), Sunk(r, d, ra, rb);
        assert parent[..] == p[ra := rb];
      } else {
        assert root == Merged(r, ra, rb);
      }
    }
  }

  // ---------------------------------------------------------------- grouping

  const BURST_COSINE_THRESHOLD: real := 0.95

  /** Two positions of the cluster whose assets have vectors more similar than the threshold. */
  ghost function Linked<V(!new)>(vecs: seq<Option<V>>, dist: (V, V) -> real): Step {
    (i: nat, j: nat) => i < |vecs| && j < |vecs| && vecs[i].Some? && vecs[j].Some?
                        && 1.0 - dist(vecs[i].value, vecs[j].value) > BURST_COSINE_THRESHOLD
  }

  /** The groups of positions: non-empty, ascending, and every position in exactly one. */
  ghost predicate Partitions(places: seq<seq<nat>>, n: nat) {
    && (forall g :: 0 <= g < |places| ==> places[g] != [] && Ascending(places[g]) && forall i :: i in places[g] ==> i < n)
    && (forall i: nat :: i < n ==> InSomeGroup(places, i))
    && (forall g, h, i :: 0 <= g < h < |places| && i in places[g] ==> i !in places[h])
  }

  ghost predicate InSomeGroup(places: seq<seq<nat>>, i: nat) {
    exists g :: 0 <= g < |places| && i in places[g]
  }

  ghost predicate Together(places: seq<seq<nat>>, i: nat, j: nat) {
    exists g :: 0 <= g < |places| && i in places[g] && j in places[g]
  }

  /** Assets without a vector come first, one by one; the burst groups follow, by first position. */
  ghost predicate InOrder<V>(places: seq<seq<nat>>, vecs: seq<Option<V>>) {
    forall g, h :: 0 <= g < h < |places| && places[g] != [] && places[h] != [] && places[g][0] < |vecs| && places[h][0] < |vecs| ==>
      if vecs[places[g][0]].None? == vecs[places[h][0]].None? then places[g][0] < places[h][0] else vecs[places[g][0]].None?
  }

  function Pick<Id>(ids: seq<Id>, at: seq<nat>): (r: seq<Id>)
    requires forall k :: 0 <= k < |at| ==> at[k] < |ids|
  {
    seq(|at|, k requires 0 <= k < |at| => ids[at[k]])
  }

  // ---------------------------------------------------------------- linking all pairs

  /** Every representative is chained to its element, and the pairs seen so far share one. */
  ghost predicate Chained(link: Step, at: seq<nat>, root: seq<nat>) {
    |root| == |at| && forall x {:trigger ChainedAt(link, at, root, x)} :: 0 <= x < |at| ==> ChainedAt(link, at, root, x)
  }

  ghost predicate ChainedAt(link: Step, at: seq<nat>, root: seq<nat>, x: int)
    requires |root| == |at| && 0 <= x < |at|
  {
    root[x] < |at| && Reach(link, at[x], at[root[x]])
  }

  ghost predicate Joined(link: Step, at: seq<nat>, root: seq<nat>, i: nat, j: nat) {
    |root| == |at| && forall x, y :: 0 <= x < y < |at| && (x < i || (x == i && y < j)) && link(at[x], at[y]) ==> root[x] == root[y]
  }

  ghost predicate SymmetricStep(link: Step) {
    forall a: nat, b: nat :: link(a, b) ==> link(b, a)
  }

  lemma MergeChains(link: Step, at: seq<nat>, root: seq<nat>, a: nat, b: nat)
    requires SymmetricStep(link) && Chained(link, at, root) && a < |at| && b < |at| && link(at[a], at[b])
    ensures Chained(link, at, Merged(root, root[a], root[b]))
  {
    assert ChainedAt(link, at, root, a) && ChainedAt(link, at, root, b);
    forall x | 0 <= x < |at| ensures ChainedAt(link, at, Merged(root, root[a], root[b]), x) {
      assert ChainedAt(link, at, root, x);
      if root[x] == root[a] {
        ReachSym(link, at[a], at[root[a]]);
        ReachTrans(link, at[x], at[root[a]], at[a]);
        ReachSnoc(link, at[x], at[a], at[b]);
        ReachTrans(link, at[x], at[b], at[root[b]]);
      }
    }
  }

  /** Every vertex a link leads to is an item, each item once. */
  ghost predicate Itemized(link: Step, at: seq<nat>) {
    && (forall a: nat, b: nat :: link(a, b) ==> b in at)
    && (forall i, j :: 0 <= i < j < |at| ==> at[i] != at[j])
  }

  ghost predicate RootedAt(at: seq<nat>, root: seq<nat>, a: nat, r: nat)
    requires |at| == |root|
  {
    exists z :: 0 <= z < |at| && at[z] == a && root[z] == r
  }

  lemma SharedRootClosed(link: Step, at: seq<nat>, root: seq<nat>, r: nat, a: nat, b: nat)
    requires SymmetricStep(link) && Joined(link, at, root, |at|, 0) && Itemized(link, at)
    requires RootedAt(at, root, a, r) && link(a, b)
    ensures b in at && RootedAt(at, root, b, r)
  {
    var z: nat :| z < |at| && at[z] == a && root[z] == r;
    var w: nat :| w < |at| && at[w] == b;
    assert link(at[z], at[w]) && link(at[w], at[z]);
  }

  lemma SharedRootChain(link: Step, at: seq<nat>, root: seq<nat>, x: nat, y: nat)
    requires SymmetricStep(link) && Chained(link, at, root) && x < |at| && y < |at| && root[x] == root[y]
    ensures Reach(link, at[x], at[y])
  {
    assert ChainedAt(link, at, root, x) && ChainedAt(link, at, root, y);
    ReachSym(link, at[y], at[root[y]]);
    ReachTrans(link, at[x], at[root[x]], at[y]);
  }

  lemma ChainSharesRoot(link: Step, at: seq<nat>, root: seq<nat>, x: nat, y: nat)
    requires SymmetricStep(link) && Joined(link, at, root, |at|, 0) && Itemized(link, at)
    requires x < |at| && y < |at| && Reach(link, at[x], at[y])
    ensures root[x] == root[y]
  {
    var same := set a | a in at && RootedAt(at, root, a, root[x]);
    forall a: nat, b: nat | a in same && link(a, b) ensures b in same {
      SharedRootClosed(link, at, root, root[x], a, b);
    }
    assert RootedAt(at, root, at[x], root[x]);
    ReachClosed(link, same, at[x], at[y]);
    var z: nat :| z < |at| && at[z] == at[y] && root[z] == root[x];
    assert z == y;
  }

  /** Once all pairs are seen, representatives agree exactly along chains. */
  lemma RootsAreChains(link: Step, at: seq<nat>, root: seq<nat>, x: nat, y: nat)
    requires SymmetricStep(link) && Chained(link, at, root) && Joined(link, at, root, |at|, 0) && Itemized(link, at)
    requires x < |at| && y < |at|
    ensures root[x] == root[y] <==> Reach(link, at[x], at[y])
  {
    if root[x] == root[y] { SharedRootChain(link, at, root, x, y); }
    if Reach(link, at[x], at[y]) { ChainSharesRoot(link, at, root, x, y); }
  }

  lemma MergeJoins(link: Step, at: seq<nat>, root: seq<nat>, i: nat, j: nat)
    requires Joined(link, at, root, i, j) && i < j < |at|
    ensures Joined(link, at, Merged(root, root[i], root[j]), i, j + 1)
    ensures !link(at[i], at[j]) ==> Joined(link, at, root, i, j + 1)
  {
  }

  lemma ChainsStart(link: Step, at: seq<nat>)
    ensures Chained(link, at, seq(|at|, i => i)) && Joined(link, at, seq(|at|, i => i), 0, 0)
  {
    var own: seq<nat> := seq(|at|, i => i);
    forall x | 0 <= x < |at| ensures ChainedAt(link, at, own, x) {
      ReachRefl(link, at[x]);
    }
  }

  /** The double loop over pairs. */
  method LinkPairs<V(!new)>(items: seq<V>, dist: (V, V) -> real, uf: UnionFind, ghost link: Step, ghost at: seq<nat>)
    requires uf.Valid() && uf.root == seq(|items|, i => i) && |at| == |items| && SymmetricStep(link)
    requires forall x, y :: 0 <= x < y < |at| ==>
               (link(at[x], at[y]) <==> 1.0 - dist(items[x], items[y]) > BURST_COSINE_THRESHOLD)
    modifies uf`root, uf`depth, uf.parent
    ensures uf.Valid() && Chained(link, at, uf.root) && Joined(link, at, uf.root, |at|, 0)
  {
    var n := |items|;
    ChainsStart(link, at);
    for i := 0 to n
      invariant uf.Valid() && Chained(link, at, uf.root) && Joined(link, at, uf.root, i, 0)
    {
      for j := i + 1 to n
        invariant uf.Valid() && Chained(link, at, uf.root) && Joined(link, at, uf.root, i, j)
      {
        LinkPair(items, dist, uf, link, at, i, j);
      }
    }
  }

  method LinkPair<V(!new)>(items: seq<V>, dist: (V, V) -> real, uf: UnionFind, ghost link: Step, ghost at: seq<nat>, i: nat, j: nat)
    requires uf.Valid() && Chained(link, at, uf.root) && Joined(link, at, uf.root, i, j)
    requires i < j < |items| == |at| && SymmetricStep(link)
    requires link(at[i], at[j]) <==> 1.0 - dist(items[i], items[j]) > BURST_COSINE_THRESHOLD
    modifies uf`root, uf`depth, uf.parent
    ensures uf.Valid() && Chained(link, at, uf.root) && Joined(link, at, uf.root, i, j + 1)
  {
    MergeJoins(link, at, uf.root, i, j);
    var sim := 1.0 - dist(items[i], items[j]);
    if sim > BURST_COSINE_THRESHOLD {
      MergeChains(link, at, uf.root, i, j);
      uf.Union(i, j);
    }
  }

  // ---------------------------------------------------------------- collecting by representative

  /** The groups met among the first k items: one per representative, in order of first member. */
  ghost predicate Collected(root: seq<nat>, k: nat, order: seq<nat>, at: map<nat, seq<nat>>) {
    && k <= |root|
    && (forall r :: r in order <==> r in at)
    && (forall a, b :: 0 <= a < b < |order| ==> order[a] != order[b])
    && (forall r :: r in at ==> at[r] != [] && Ascending(at[r]) && forall x: nat :: x in at[r] <==> x < k && root[x] == r)
    && (forall x :: 0 <= x < k ==> root[x] in at)
    && (forall a, b :: 0 <= a < b < |order| && order[a] in at && order[b] in at && at[order[a]] != [] && at[order[b]] != [] ==>
          at[order[a]][0] < at[order[b]][0])
  }

  lemma CollectOld(root: seq<nat>, k: nat, order: seq<nat>, at: map<nat, seq<nat>>)
    requires Collected(root, k, order, at) && k < |root| && root[k] in at
    ensures Collected(root, k + 1, order, at[root[k] := at[root[k]] + [k]])
  {
    var r, s := root[k], at[root[k]];
    forall i | 0 <= i < |s| ensures s[i] < k { assert s[i] in s; }
    forall x ensures x in s + [k] <==> x in s || x == k {
      assert (s + [k])[|s|] == k;
      if x in s { var i :| 0 <= i < |s| && s[i] == x; assert (s + [k])[i] == x; }
    }
  }

  lemma CollectNew(root: seq<nat>, k: nat, order: seq<nat>, at: map<nat, seq<nat>>)
    requires Collected(root, k, order, at) && k < |root| && root[k] !in at
    ensures Collected(root, k + 1, order + [root[k]], at[root[k] := [k]])
  {
    var r := root[k];
    var order', at' := order + [r], at[r := [k]];
    forall q ensures q in order' <==> q in order || q == r {
      assert order'[|order|] == r;
      if q in order { var i :| 0 <= i < |order| && order[i] == q; assert order'[i] == q; }
    }
    forall a | 0 <= a < |order| ensures order[a] in at && order[a] != r && at[order[a]][0] < k {
      assert order[a] in order;
      assert at[order[a]][0] in at[order[a]];
    }
    forall q | q in at' ensures at'[q] != [] && Ascending(at'[q]) && forall x: nat :: x in at'[q] <==> x < k + 1 && root[x] == q {
      if q == r {
        forall x: nat | x < k ensures root[x] != r { assert root[x] in at; }
      }
    }
  }

  /** The groups of item indices that share a representative, in order of first member. */
  ghost predicate ByRoot(root: seq<nat>, places: seq<seq<nat>>) {
    && (forall g :: 0 <= g < |places| ==> places[g] != [] && Ascending(places[g]) && forall x :: x in places[g] ==> x < |root|)
    && (forall x: nat :: x < |root| ==> InSomeGroup(places, x))
    && (forall g, x: nat, y: nat :: 0 <= g < |places| && x < |root| && y < |root| && x in places[g] ==> (y in places[g] <==> root[x] == root[y]))
    && (forall g, h :: 0 <= g < h < |places| && places[g] != [] && places[h] != [] ==> places[g][0] < places[h][0])
  }

  lemma CollectedByRoot(root: seq<nat>, order: seq<nat>, at: map<nat, seq<nat>>, places: seq<seq<nat>>)
    requires Collected(root, |root|, order, at) && |places| == |order|
    requires forall g :: 0 <= g < |order| ==> order[g] in at && places[g] == at[order[g]]
    ensures ByRoot(root, places)
  {
    forall x: nat | x < |root| ensures InSomeGroup(places, x) {
      assert root[x] in at;
      assert root[x] in order;
      var g :| 0 <= g < |order| && order[g] == root[x];
      assert x in places[g];
    }
    forall g, x: nat, y: nat | 0 <= g < |places| && x < |root| && y < |root| && x in places[g]
      ensures y in places[g] <==> root[x] == root[y]
    {
      assert order[g] in at;
    }
  }

  ghost predicate Picked<Id(!new)>(ids: seq<Id>, at: seq<nat>, group: seq<Id>) {
    (forall k :: 0 <= k < |at| ==> at[k] < |ids|) && group == Pick(ids, at)
  }

  ghost predicate AllPicked<Id(!new)>(ids: seq<Id>, at: map<nat, seq<nat>>, byRoot: map<nat, seq<Id>>) {
    byRoot.Keys == at.Keys && forall r :: r in at ==> Picked(ids, at[r], byRoot[r])
  }

  lemma PickOne<Id(!new)>(ids: seq<Id>, at: map<nat, seq<nat>>, byRoot: map<nat, seq<Id>>, r: nat, i: nat)
    requires AllPicked(ids, at, byRoot) && i < |ids|
    ensures AllPicked(ids, at[r := if r in at then at[r] + [i] else [i]], byRoot[r := if r in byRoot then byRoot[r] + [ids[i]] else [ids[i]]])
  {
  }

  ghost function WithItem(at: map<nat, seq<nat>>, r: nat, i: nat): map<nat, seq<nat>> {
    at[r := if r in at then at[r] + [i] else [i]]
  }

  lemma CollectStep(root: seq<nat>, k: nat, order: seq<nat>, at: map<nat, seq<nat>>)
    requires Collected(root, k, order, at) && k < |root|
    ensures Collected(root, k + 1, if root[k] in at then order else order + [root[k]], WithItem(at, root[k], k))
  {
    if root[k] in at { CollectOld(root, k, order, at); } else { CollectNew(root, k, order, at); }
  }

  /** The map from representative to members, and the representatives in order of first member. */
  method FillByRoot<Id(!new)>(ids: seq<Id>, uf: UnionFind) returns (order: seq<nat>, byRoot: map<nat, seq<Id>>, ghost at: map<nat, seq<nat>>)
    requires uf.Valid() && |ids| == |uf.root|
    modifies uf.parent
    ensures uf.Valid() && Collected(uf.root, |ids|, order, at) && AllPicked(ids, at, byRoot)
  {
    order, byRoot, at := [], map[], map[];
    ghost var root := uf.root;
    for i := 0 to |ids|
      invariant uf.Valid() && uf.root == root && Collected(root, i, order, at) && AllPicked(ids, at, byRoot)
    {
      var r := uf.Find(i);
      PickOne(ids, at, byRoot, r, i);
      CollectStep(root, i, order, at);
      if r !in byRoot {
        order := order + [r];
      }
      byRoot := byRoot[r := if r in byRoot then byRoot[r] + [ids[i]] else [ids[i]]];
      at := WithItem(at, r, i);
    }
  }

  method CollectByRoot<Id(!new)>(ids: seq<Id>, uf: UnionFind) returns (groups: seq<seq<Id>>, ghost places: seq<seq<nat>>)
    requires uf.Valid() && |ids| == |uf.root|
    modifies uf.parent
    ensures ByRoot(old(uf.root), places) && |groups| == |places|
    ensures forall g :: 0 <= g < |groups| ==> Picked(ids, places[g], groups[g])
  {
    ghost var root := uf.root;
    var order, byRoot, at := FillByRoot(ids, uf);
    groups, places := [], [];
    for g := 0 to |order|
      invariant |groups| == |places| == g
      invariant forall h :: 0 <= h < g ==> order[h] in at && places[h] == at[order[h]]
      invariant forall h :: 0 <= h < g ==> Picked(ids, places[h], groups[h])
    {
      assert order[g] in order;
      groups := groups + [byRoot[order[g]]];
      places := places + [at[order[g]]];
    }
    CollectedByRoot(root, order, at, places);
  }

  // ---------------------------------------------------------------- the whole grouping

  /** The positions whose assets have a vector, and those without, in order. */
  ghost predicate Sorted<V>(vecs: seq<Option<V>>, k: nat, at: seq<nat>, single: seq<nat>) {
    && k <= |vecs| && Ascending(at) && Ascending(single)
    && (forall p: nat :: p in at <==> p < k && vecs[p].Some?)
    && (forall p: nat :: p in single <==> p < k && vecs[p].None?)
  }

  /** What a grouping of n positions along `link` is: a partition whose groups are the chains. */
  ghost predicate Grouping(link: Step, n: nat, places: seq<seq<nat>>) {
    && Partitions(places, n)
    && forall i: nat, j: nat :: i < n && j < n ==> (Together(places, i, j) <==> Reach(link, i, j))
  }

  ghost function Singles(single: seq<nat>): seq<seq<nat>> {
    seq(|single|, k requires 0 <= k < |single| => [single[k]])
  }

  ghost function Placed(at: seq<nat>, items: seq<seq<nat>>): seq<seq<nat>>
    requires forall g, k :: 0 <= g < |items| && 0 <= k < |items[g]| ==> items[g][k] < |at|
  {
    seq(|items|, g requires 0 <= g < |items| => Pick(at, items[g]))
  }

  ghost predicate Indexes(items: seq<seq<nat>>, n: nat) {
    forall g, k :: 0 <= g < |items| && 0 <= k < |items[g]| ==> items[g][k] < n
  }

  lemma InSingle(single: seq<nat>, at: seq<nat>, items: seq<seq<nat>>, g: nat, i: nat)
    requires Indexes(items, |at|) && g < |single|
    ensures i in (Singles(single) + Placed(at, items))[g] <==> i == single[g]
  {
  }

  lemma InItems(single: seq<nat>, at: seq<nat>, items: seq<seq<nat>>, g: nat, x: nat)
    requires Indexes(items, |at|) && Ascending(at) && g < |items| && x < |at|
    ensures at[x] in (Singles(single) + Placed(at, items))[|single| + g] <==> x in items[g]
  {
    var place := (Singles(single) + Placed(at, items))[|single| + g];
    assert place == Pick(at, items[g]);
    if x in items[g] {
      var k :| 0 <= k < |items[g]| && items[g][k] == x;
      assert place[k] == at[x];
    }
    if at[x] in place {
      var k :| 0 <= k < |place| && place[k] == at[x];
      assert items[g][k] == x;
    }
  }

  lemma OnlyItems(single: seq<nat>, at: seq<nat>, items: seq<seq<nat>>, g: nat, i: nat) returns (x: nat)
    requires Indexes(items, |at|) && g < |items| && i in (Singles(single) + Placed(at, items))[|single| + g]
    ensures x < |at| && at[x] == i && x in items[g]
  {
    var place := (Singles(single) + Placed(at, items))[|single| + g];
    assert place == Pick(at, items[g]);
    var k :| 0 <= k < |place| && place[k] == i;
    x := items[g][k];
  }

  /** The facts of the two halves: positions split by vector, items grouped by representative. */
  ghost predicate Halves<V>(vecs: seq<Option<V>>, at: seq<nat>, single: seq<nat>, root: seq<nat>, items: seq<seq<nat>>) {
    Sorted(vecs, |vecs|, at, single) && |root| == |at| && ByRoot(root, items) && Indexes(items, |at|)
  }

  lemma HalvesIndexes(root: seq<nat>, items: seq<seq<nat>>)
    requires ByRoot(root, items)
    ensures Indexes(items, |root|)
  {
    forall g, k | 0 <= g < |items| && 0 <= k < |items[g]| ensures items[g][k] < |root| {
      assert items[g][k] in items[g];
    }
  }

  /** The group index of a position, among the singles or the burst groups. */
  lemma Locate<V>(vecs: seq<Option<V>>, at: seq<nat>, single: seq<nat>, root: seq<nat>, items: seq<seq<nat>>, i: nat) returns (g: nat)
    requires Halves(vecs, at, single, root, items) && i < |vecs|
    ensures var places := Singles(single) + Placed(at, items);
            g < |places| && i in places[g] && (g < |single| <==> vecs[i].None?)
            && forall h :: 0 <= h < |places| && i in places[h] ==> h == g
  {
    var places := Singles(single) + Placed(at, items);
    if vecs[i].None? {
      g :| 0 <= g < |single| && single[g] == i;
      InSingle(single, at, items, g, i);
    } else {
      var x :| 0 <= x < |at| && at[x] == i;
      assert InSomeGroup(items, x);
      var h :| 0 <= h < |items| && x in items[h];
      InItems(single, at, items, h, x);
      g := |single| + h;
    }
    forall h | 0 <= h < |places| && i in places[h] ensures h == g {
      if h < |single| {
        InSingle(single, at, items, h, i);
        assert single[h] in single;
      } else {
        var y := OnlyItems(single, at, items, h - |single|, i);
        assert at[y] in at;
        SameItemGroup(root, items, h - |single|, g - |single|, y);
      }
    }
  }

  lemma SameItemGroup(root: seq<nat>, items: seq<seq<nat>>, h: int, g: int, y: nat)
    requires ByRoot(root, items) && 0 <= h < |items| && y in items[h] && 0 <= g < |items| && y in items[g]
    ensures h == g
  {
    var a, b := items[h][0], items[g][0];
    assert a in items[h] && b in items[g];
    assert root[a] == root[y] && root[b] == root[y];
    assert a in items[g] && b in items[h];
    FirstIsLeast(items[h], b);
    FirstIsLeast(items[g], a);
  }

  lemma FirstIsLeast(s: seq<nat>, x: nat)
    requires Ascending(s) && x in s
    ensures s[0] <= x
  {
  }

  /** Only assets with vectors are linked, and never to themselves alone: an asset without one stays alone. */
  lemma LinkedVectors<V(!new)>(vecs: seq<Option<V>>, dist: (V, V) -> real, i: nat, j: nat)
    requires Reach(Linked(vecs, dist), i, j) && i != j
    ensures i < |vecs| && j < |vecs| && vecs[i].Some? && vecs[j].Some?
  {
    var link := Linked(vecs, dist);
    var c := LastStep(link, i, j);
    if !(i < |vecs| && vecs[i].Some?) {
      ReachClosed(link, {i}, i, j);
    }
  }

  lemma ItemGroupsAreChains<V(!new)>(vecs: seq<Option<V>>, dist: (V, V) -> real, at: seq<nat>, single: seq<nat>, root: seq<nat>,
                                     items: seq<seq<nat>>, g: nat, x: nat, y: nat)
    requires Sorted(vecs, |vecs|, at, single)
    requires |root| == |at| && ByRoot(root, items) && g < |items| && x < |at| && y < |at| && x in items[g]
    requires var link := Linked(vecs, dist); SymmetricStep(link) && Chained(link, at, root) && Joined(link, at, root, |at|, 0)
    ensures y in items[g] <==> Reach(Linked(vecs, dist), at[x], at[y])
  {
    assert Itemized(Linked(vecs, dist), at);
    RootsAreChains(Linked(vecs, dist), at, root, x, y);
    assert y in items[g] <==> root[x] == root[y];
  }

  lemma LocateBoth<V>(vecs: seq<Option<V>>, at: seq<nat>, single: seq<nat>, root: seq<nat>, items: seq<seq<nat>>, i: nat, j: nat) returns (g: nat, h: nat)
    requires Halves(vecs, at, single, root, items) && i < |vecs| && j < |vecs|
    ensures var places := Singles(single) + Placed(at, items);
            && g < |places| && i in places[g] && (g < |single| <==> vecs[i].None?)
            && h < |places| && j in places[h] && (h < |single| <==> vecs[j].None?)
            && (Together(places, i, j) <==> g == h) && (g == h <==> j in places[g])
  {
    g := Locate(vecs, at, single, root, items, i);
    h := Locate(vecs, at, single, root, items, j);
  }

  lemma BothInBursts<V(!new)>(vecs: seq<Option<V>>, dist: (V, V) -> real, at: seq<nat>, single: seq<nat>, root: seq<nat>,
                              items: seq<seq<nat>>, i: nat, j: nat)
    requires Halves(vecs, at, single, root, items) && i < |vecs| && j < |vecs| && vecs[i].Some? && vecs[j].Some?
    requires var link := Linked(vecs, dist); SymmetricStep(link) && Chained(link, at, root) && Joined(link, at, root, |at|, 0)
    ensures Together(Singles(single) + Placed(at, items), i, j) <==> Reach(Linked(vecs, dist), i, j)
  {
    var g, h := LocateBoth(vecs, at, single, root, items, i, j);
    var x := OnlyItems(single, at, items, g - |single|, i);
    var y := OnlyItems(single, at, items, h - |single|, j);
    ItemGroupsAreChains(vecs, dist, at, single, root, items, g - |single|, x, y);
    InItems(single, at, items, g - |single|, y);
  }

  lemma OneAlone<V(!new)>(vecs: seq<Option<V>>, dist: (V, V) -> real, at: seq<nat>, single: seq<nat>, root: seq<nat>,
                          items: seq<seq<nat>>, i: nat, j: nat)
    requires Halves(vecs, at, single, root, items) && i < |vecs| && j < |vecs| && i != j && !(vecs[i].Some? && vecs[j].Some?)
    ensures !Together(Singles(single) + Placed(at, items), i, j) && !Reach(Linked(vecs, dist), i, j)
  {
    var g, h := LocateBoth(vecs, at, single, root, items, i, j);
    if vecs[i].None? && vecs[j].None? {
      InSingle(single, at, items, g, i);
      InSingle(single, at, items, g, j);
    }
    if Reach(Linked(vecs, dist), i, j) { LinkedVectors(vecs, dist, i, j); }
  }

  /** The chains of links are the groups. */
  lemma GroupsAreChains<V(!new)>(vecs: seq<Option<V>>, dist: (V, V) -> real, at: seq<nat>, single: seq<nat>, root: seq<nat>,
                                 items: seq<seq<nat>>, i: nat, j: nat)
    requires Halves(vecs, at, single, root, items) && i < |vecs| && j < |vecs|
    requires var link := Linked(vecs, dist); SymmetricStep(link) && Chained(link, at, root) && Joined(link, at, root, |at|, 0)
    ensures Together(Singles(single) + Placed(at, items), i, j) <==> Reach(Linked(vecs, dist), i, j)
  {
    if vecs[i].Some? && vecs[j].Some? {
      BothInBursts(vecs, dist, at, single, root, items, i, j);
    } else if i == j {
      var g, h := LocateBoth(vecs, at, single, root, items, i, j);
      ReachRefl(Linked(vecs, dist), i);
    } else {
      OneAlone(vecs, dist, at, single, root, items, i, j);
    }
  }

  lemma PlacesAscend<V>(vecs: seq<Option<V>>, at: seq<nat>, single: seq<nat>, root: seq<nat>, items: seq<seq<nat>>, g: nat)
    requires Halves(vecs, at, single, root, items) && g < |single| + |items|
    ensures var place := (Singles(single) + Placed(at, items))[g];
            && place != [] && Ascending(place) && (forall i :: i in place ==> i < |vecs|)
            && place[0] == (if g < |single| then single[g] else at[items[g - |single|][0]])
            && place[0] < |vecs| && (vecs[place[0]].None? <==> g < |single|)
  {
    var place := (Singles(single) + Placed(at, items))[g];
    if g < |single| {
      assert single[g] in single;
    } else {
      var s := items[g - |single|];
      assert place == Pick(at, s);
      forall i | i in place ensures i < |vecs| {
        var x := OnlyItems(single, at, items, g - |single|, i);
        assert at[x] in at;
      }
      assert place[0] in at by { assert s[0] < |at|; }
    }
  }

  lemma PartitionHolds<V>(vecs: seq<Option<V>>, at: seq<nat>, single: seq<nat>, root: seq<nat>, items: seq<seq<nat>>)
    requires Halves(vecs, at, single, root, items)
    ensures Partitions(Singles(single) + Placed(at, items), |vecs|)
    ensures InOrder(Singles(single) + Placed(at, items), vecs)
  {
    var places := Singles(single) + Placed(at, items);
    forall g | 0 <= g < |places| ensures places[g] != [] && Ascending(places[g]) && forall i :: i in places[g] ==> i < |vecs| {
      PlacesAscend(vecs, at, single, root, items, g);
    }
    forall i: nat | i < |vecs| ensures InSomeGroup(places, i) {
      var g := Locate(vecs, at, single, root, items, i);
    }
    forall g, h, i | 0 <= g < h < |places| && i in places[g] ensures i !in places[h] {
      var k := Locate(vecs, at, single, root, items, i);
    }
    forall g, h | 0 <= g < h < |places|
      ensures places[g] != [] && places[h] != [] && places[g][0] < |vecs| && places[h][0] < |vecs|
      ensures if vecs[places[g][0]].None? == vecs[places[h][0]].None? then places[g][0] < places[h][0] else vecs[places[g][0]].None?
    {
      PlacesAscend(vecs, at, single, root, items, g);
      PlacesAscend(vecs, at, single, root, items, h);
    }
  }

  /** What groupByCosine promises about the positions it groups. */
  ghost predicate BurstGrouping<V(!new)>(vecs: seq<Option<V>>, dist: (V, V) -> real, places: seq<seq<nat>>) {
    && Grouping(Linked(vecs, dist), |vecs|, places)
    && InOrder(places, vecs)
  }

  lemma Assemble<V(!new)>(vecs: seq<Option<V>>, dist: (V, V) -> real, at: seq<nat>, single: seq<nat>, root: seq<nat>, items: seq<seq<nat>>)
    requires Halves(vecs, at, single, root, items)
    requires var link := Linked(vecs, dist); SymmetricStep(link) && Chained(link, at, root) && Joined(link, at, root, |at|, 0)
    ensures BurstGrouping(vecs, dist, Singles(single) + Placed(at, items))
  {
    PartitionHolds(vecs, at, single, root, items);
    forall i: nat, j: nat | i < |vecs| && j < |vecs|
      ensures Together(Singles(single) + Placed(at, items), i, j) <==> Reach(Linked(vecs, dist), i, j)
    {
      GroupsAreChains(vecs, dist, at, single, root, items, i, j);
    }
  }

  /** The first loop: assets without a vector become groups of their own, the others items. */
  method SplitByVector<Id(!new), V(!new)>(cluster: seq<Id>, loadVec: Id -> Option<V>)
    returns (ids: seq<Id>, items: seq<V>, groups: seq<seq<Id>>, ghost at: seq<nat>, ghost single: seq<nat>)
    ensures Sorted(seq(|cluster|, k requires 0 <= k < |cluster| => loadVec(cluster[k])), |cluster|, at, single)
    ensures Picked(cluster, at, ids) && |items| == |at|
    ensures forall x :: 0 <= x < |at| ==> at[x] < |cluster| && loadVec(cluster[at[x]]) == Some(items[x])
    ensures |groups| == |single| && forall g :: 0 <= g < |groups| ==> Picked(cluster, [single[g]], groups[g])
  {
    ghost var vecs := seq(|cluster|, k requires 0 <= k < |cluster| => loadVec(cluster[k]));
    ids, items, groups, at, single := [], [], [], [], [];
    for k := 0 to |cluster|
      invariant Sorted(vecs, k, at, single) && Picked(cluster, at, ids) && |items| == |at|
      invariant forall x :: 0 <= x < |at| ==> at[x] < |cluster| && loadVec(cluster[at[x]]) == Some(items[x])
      invariant |groups| == |single| && forall g :: 0 <= g < |groups| ==> Picked(cluster, [single[g]], groups[g])
    {
      SortedStep(vecs, k, at, single);
      match loadVec(cluster[k])
      case None =>
        groups := groups + [[cluster[k]]];
        single := single + [k];
      case Some(v) =>
        ids, items := ids + [cluster[k]], items + [v];
        at := at + [k];
    }
  }

  lemma SortedStep<V>(vecs: seq<Option<V>>, k: nat, at: seq<nat>, single: seq<nat>)
    requires Sorted(vecs, k, at, single) && k < |vecs|
    ensures vecs[k].None? ==> Sorted(vecs, k + 1, at, single + [k])
    ensures vecs[k].Some? ==> Sorted(vecs, k + 1, at + [k], single)
  {
    forall i | 0 <= i < |at| ensures at[i] < k { assert at[i] in at; }
    forall i | 0 <= i < |single| ensures single[i] < k { assert single[i] in single; }
    assert (at + [k])[|at|] == k && (single + [k])[|single|] == k;
    forall p: nat ensures p in at + [k] <==> p in at || p == k {
    }
  }

  /** The groups hold the ids at `places`, and the places are the burst grouping of the vectors. */
  ghost predicate Grouped<Id(!new), V(!new)>(cluster: seq<Id>, loadVec: Id -> Option<V>, dist: (V, V) -> real, groups: seq<seq<Id>>, places: seq<seq<nat>>) {
    && |groups| == |places| && (forall g :: 0 <= g < |groups| ==> Picked(cluster, places[g], groups[g]))
    && BurstGrouping(seq(|cluster|, k requires 0 <= k < |cluster| => loadVec(cluster[k])), dist, places)
  }

  /** Groups a time cluster by chains of similar vectors; `places` are the positions behind each group. */
  method GroupPlaced<Id(!new), V(!new)>(cluster: seq<Id>, loadVec: Id -> Option<V>, dist: (V, V) -> real)
    returns (groups: seq<seq<Id>>, ghost places: seq<seq<nat>>)
    requires forall a, b :: dist(a, b) == dist(b, a)
    ensures |groups| == |places| && forall g :: 0 <= g < |groups| ==> Picked(cluster, places[g], groups[g])
    ensures BurstGrouping(seq(|cluster|, k requires 0 <= k < |cluster| => loadVec(cluster[k])), dist, places)
  {
    ghost var vecs := seq(|cluster|, k requires 0 <= k < |cluster| => loadVec(cluster[k]));
    if |cluster| <= 1 {
      groups := seq(|cluster|, k requires 0 <= k < |cluster| => [cluster[k]]);
      places := seq(|cluster|, k => [k]);
      SmallCluster(vecs, dist);
      return;
    }
    var ids, items, singles, at, single := SplitByVector(cluster, loadVec);
    ghost var link := Linked(vecs, dist);
    forall x | 0 <= x < |at| ensures vecs[at[x]] == Some(items[x]) {
    }
    var uf := new UnionFind(|items|);
    LinkPairs(items, dist, uf, link, at);
    ghost var root := uf.root;
    var bursts, members := CollectByRoot(ids, uf);
    HalvesIndexes(root, members);
    Assemble(vecs, dist, at, single, root, members);
    groups := singles + bursts;
    places := Singles(single) + Placed(at, members);
    forall g | 0 <= g < |groups| ensures Picked(cluster, places[g], groups[g]) {
      if g >= |single| {
        PickTwice(cluster, at, ids, members[g - |single|], bursts[g - |single|]);
      }
    }
  }

  /** groupByCosine: the groups are those of a burst grouping of the cluster. */
  method GroupByCosine<Id(!new), V(!new)>(cluster: seq<Id>, loadVec: Id -> Option<V>, dist: (V, V) -> real) returns (groups: seq<seq<Id>>)
    requires forall a, b :: dist(a, b) == dist(b, a)
    ensures exists places :: Grouped(cluster, loadVec, dist, groups, places)
  {
    ghost var places;
    groups, places := GroupPlaced(cluster, loadVec, dist);
    assert Grouped(cluster, loadVec, dist, groups, places);
  }

  lemma PickTwice<Id(!new)>(cluster: seq<Id>, at: seq<nat>, ids: seq<Id>, s: seq<nat>, group: seq<Id>)
    requires Picked(cluster, at, ids) && Picked(ids, s, group)
    ensures (forall k :: 0 <= k < |s| ==> s[k] < |at|) && Picked(cluster, Pick(at, s), group)
  {
  }

  lemma SmallCluster<V(!new)>(vecs: seq<Option<V>>, dist: (V, V) -> real)
    requires |vecs| <= 1
    ensures BurstGrouping(vecs, dist, seq(|vecs|, k => [k]))
  {
    ReachRefl(Linked(vecs, dist), 0);
    var places: seq<seq<nat>> := seq(|vecs|, k => [k]);
    forall i: nat | i < |vecs| ensures InSomeGroup(places, i) && Together(places, i, i) {
      assert i in places[i];
    }
  }

  /** The burst groups are the clusters DBSCAN finds with minPoints = 1 for the same relation. */
  lemma GroupsAreDbscanClusters<V(!new)>(vecs: seq<Option<V>>, dist: (V, V) -> real, places: seq<seq<nat>>, labels: seq<int>, i: nat, j: nat)
    requires forall a, b :: dist(a, b) == dist(b, a)
    requires BurstGrouping(vecs, dist, places) && IsLabeling(Lists(Linked(vecs, dist), |vecs|), 1, labels)
    requires i < |vecs| && j < |vecs|
    ensures Together(places, i, j) <==> labels[i] == labels[j]
  {
    var link, adj := Linked(vecs, dist), Lists(Linked(vecs, dist), |vecs|);
    ListsSymmetric(link, |vecs|);
    OnePointClusters(adj, labels, i, j);
    forall a: nat, b: nat ensures Edges(adj)(a, b) <==> a != b && link(a, b) {
    }
    if Reach(link, i, j) { DropLoops(link, Edges(adj), i, j); }
    if Reach(Edges(adj), i, j) { ReachMono(Edges(adj), link, i, j); }
  }

  /** The smallest case: two assets with vectors form one group exactly when their similarity is above 0.95. */
  lemma PairGrouped<V(!new)>(u: V, v: V, dist: (V, V) -> real, places: seq<seq<nat>>)
    requires dist(u, v) == dist(v, u) && BurstGrouping([Some(u), Some(v)], dist, places)
    ensures Together(places, 0, 1) <==> 1.0 - dist(u, v) > 0.95
  {
    var vecs := [Some(u), Some(v)];
    var link := Linked(vecs, dist);
    if Reach(link, 0, 1) {
      var stay: set<nat> := {0};
      if !link(0, 1) { ReachClosed(link, stay, 0, 1); }
    }
    if link(0, 1) { ReachStep(link, 0, 1); }
  }

  lemma DropLoops(r: Step, t: Step, x: nat, y: nat)
    requires Reach(r, x, y) && forall a: nat, b: nat :: r(a, b) && a != b ==> t(a, b)
    ensures Reach(t, x, y)
  {
    var p :| IsWalk(r, p, x, y);
    var k := 0;
    ReachRefl(t, x);
    while k < |p| - 1
      invariant 0 <= k < |p| && Reach(t, x, p[k])
    {
      assert r(p[k + 1 - 1], p[k + 1]);
      if p[k] != p[k + 1] { ReachSnoc(t, x, p[k], p[k + 1]); }
      k := k + 1;
    }
  }
}
