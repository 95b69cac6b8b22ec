/** The canonical signature by which two label arrays are compared. */
module Partitions {
  import opened Graphs
  import opened Sorting

  // ---------------------------------------------------------------- the order on groups

  function LexLess(x: seq<nat>, y: seq<nat>): bool {
    if x == [] || y == [] then false
    else if x[0] != y[0] then x[0] < y[0]
    else LexLess(x[1..], y[1..])
  }

  /** Shorter groups first, then by the first differing index. */
  predicate Less(x: seq<nat>, y: seq<nat>) {
    if |x| != |y| then |x| < |y| else LexLess(x, y)
  }

  predicate AtMost(x: seq<nat>, y: seq<nat>) { !Less(y, x) }

  lemma {:induction false} LexTotal(x: seq<nat>, y: seq<nat>)
    requires |x| == |y|
    ensures !(LexLess(x, y) && LexLess(y, x))
    ensures x == y <==> !LexLess(x, y) && !LexLess(y, x)
  {
    if x != [] {
      LexTotal(x[1..], y[1..]);
      assert x == [x[0]] + x[1..] && y == [y[0]] + y[1..];
    }
  }

  lemma {:induction false} LexTransitive(x: seq<nat>, y: seq<nat>, z: seq<nat>)
    requires |x| == |y| == |z| && LexLess(x, y) && LexLess(y, z)
    ensures LexLess(x, z)
  {
    if x[0] == y[0] == z[0] { LexTransitive(x[1..], y[1..], z[1..]); }
  }

  /** The sort key is a strict total order on groups: exactly one of less, equal, greater. */
  lemma LessIsStrictTotal(x: seq<nat>, y: seq<nat>, z: seq<nat>)
    ensures !(Less(x, y) && Less(y, x))
    ensures x == y <==> !Less(x, y) && !Less(y, x)
    ensures Less(x, y) && Less(y, z) ==> Less(x, z)
  {
    if |x| == |y| { LexTotal(x, y); }
    if Less(x, y) && Less(y, z) && |x| == |y| == |z| { LexTransitive(x, y, z); }
  }

  lemma AtMostIsTotalPreorder()
    ensures TotalPreorder(AtMost)
  {
    forall x, y, z ensures AtMost(x, y) || AtMost(y, x)
      ensures AtMost(x, y) && AtMost(y, z) ==> AtMost(x, z)
    {
      LessIsStrictTotal(x, y, z);
      LessIsStrictTotal(z, y, x);
      LessIsStrictTotal(z, x, y);
    }
  }

  ghost predicate NoRepeats(s: seq<seq<nat>>) {
    forall i, j :: 0 <= i < j < |s| ==> s[i] != s[j]
  }

  /** Two sorted lists without repeats and with the same members are the same list. */
  lemma {:induction false} SortedUnique(s: seq<seq<nat>>, t: seq<seq<nat>>)
    requires Ordered(AtMost, s) && Ordered(AtMost, t) && NoRepeats(s) && NoRepeats(t)
    requires forall x :: x in s <==> x in t
    ensures s == t
  {
    assert s != [] ==> s[0] in t;
    assert t != [] ==> t[0] in s;
    if s != [] && t != [] {
      SameHead(s, t);
      forall x ensures x in s[1..] <==> x in t[1..] {
        TailMembers(s, x);
        TailMembers(t, x);
      }
      SortedUnique(s[1..], t[1..]);
      assert s == [s[0]] + s[1..] && t == [t[0]] + t[1..];
    }
  }

  lemma TailMembers(s: seq<seq<nat>>, x: seq<nat>)
    requires s != [] && NoRepeats(s)
    ensures x in s[1..] <==> x in s && x != s[0]
  {
    if x in s && x != s[0] {
      var i :| 0 <= i < |s| && s[i] == x;
      assert s[1..][i - 1] == x;
    }
  }

  lemma SameHead(s: seq<seq<nat>>, t: seq<seq<nat>>)
    requires s != [] && t != [] && Ordered(AtMost, s) && Ordered(AtMost, t)
    requires forall x :: x in s <==> x in t
    ensures s[0] == t[0]
  {
    assert t[0] in s && s[0] in t;
    var i :| 0 <= i < |s| && s[i] == t[0];
    var j :| 0 <= j < |t| && t[j] == s[0];
    LessIsStrictTotal(s[0], t[0], s[0]);
    assert i == 0 || AtMost(s[0], s[i]);
    assert j == 0 || AtMost(t[0], t[j]);
  }

  // ---------------------------------------------------------------- signatures

  /** s lists, in ascending order, all indices that carry one label. */
  ghost predicate IsBlock(labels: seq<int>, s: seq<nat>) {
    && s != [] && s[0] < |labels| && Ascending(s)
    && forall i: nat :: i in s <==> i < |labels| && labels[i] == labels[s[0]]
  }

  ghost predicate Canonical(labels: seq<int>, sigs: seq<seq<nat>>) {
    && Ordered(AtMost, sigs) && NoRepeats(sigs)
    && forall s :: s in sigs <==> IsBlock(labels, s)
  }

  /** The groups of the first k labels. */
  ghost predicate Grouped(labels: seq<int>, k: nat, groups: map<int, seq<nat>>) {
    && k <= |labels|
    && (forall i :: 0 <= i < k ==> labels[i] in groups)
    && (forall l :: l in groups ==> groups[l] != [] && Ascending(groups[l]) && forall i: nat :: i in groups[l] <==> i < k && labels[i] == l)
  }

  lemma GroupedStep(labels: seq<int>, k: nat, groups: map<int, seq<nat>>)
    requires Grouped(labels, k, groups) && k < |labels|
    ensures var l := labels[k];
            Grouped(labels, k + 1, groups[l := (if l in groups then groups[l] else []) + [k]])
  {
    var l := labels[k];
    var s := if l in groups then groups[l] else [];
    forall i | 0 <= i < |s| ensures s[i] < k { assert s[i] in s; }
    forall i: nat ensures i in s + [k] <==> i in s || i == k {
      assert (s + [k])[|s|] == k;
    }
  }

  /** The groups are the blocks, one per label. */
  lemma GroupsAreBlocks(labels: seq<int>, groups: map<int, seq<nat>>)
    requires Grouped(labels, |labels|, groups)
    ensures forall l :: l in groups ==> IsBlock(labels, groups[l]) && labels[groups[l][0]] == l
    ensures forall s :: IsBlock(labels, s) ==> labels[s[0]] in groups && groups[labels[s[0]]] == s
  {
    forall l | l in groups ensures IsBlock(labels, groups[l]) && labels[groups[l][0]] == l {
      assert groups[l][0] in groups[l];
    }
    forall s | IsBlock(labels, s) ensures labels[s[0]] in groups && groups[labels[s[0]]] == s {
      AscendingUnique(s, groups[labels[s[0]]]);
    }
  }

  lemma {:induction false} AscendingUnique(s: seq<nat>, t: seq<nat>)
    requires Ascending(s) && Ascending(t) && forall i: nat :: i in s <==> i in t
    ensures s == t
  {
    assert s != [] ==> s[0] in t;
    assert t != [] ==> t[0] in s;
    if s != [] && t != [] {
      var i :| 0 <= i < |s| && s[i] == t[0];
      var j :| 0 <= j < |t| && t[j] == s[0];
      assert s[0] == t[0];
      forall x: nat ensures x in s[1..] <==> x in t[1..] {
        AscendingTail(s, x);
        AscendingTail(t, x);
      }
      AscendingUnique(s[1..], t[1..]);
      assert s == [s[0]] + s[1..] && t == [t[0]] + t[1..];
    }
  }

  lemma AscendingTail(s: seq<nat>, x: nat)
    requires s != [] && Ascending(s)
    ensures x in s[1..] <==> x in s && x != s[0]
  {
    if x in s && x != s[0] {
      var i :| 0 <= i < |s| && s[i] == x;
      assert s[1..][i - 1] == x;
    }
  }

  lemma Inhabited(keys: set<int>)
    requires keys != {}
    ensures exists l :: l in keys
  {
    assert (forall l :: l !in keys) ==> keys == {};
  }

  /** The groups, in whatever order the map yields them. */
  method ListValues(groups: map<int, seq<nat>>) returns (list: seq<seq<nat>>)
    requires forall k, l :: k in groups && l in groups && k != l ==> groups[k] != groups[l]
    ensures NoRepeats(list) && forall s :: s in list <==> exists l :: l in groups && groups[l] == s
  {
    list := [];
    var keys := groups.Keys;
    while keys != {}
      invariant keys <= groups.Keys && NoRepeats(list)
      invariant forall l :: l in groups && l !in keys ==> groups[l] in list
      invariant forall i :: 0 <= i < |list| ==> exists l :: l in groups && l !in keys && groups[l] == list[i]
      decreases keys
    {
      Inhabited(keys);
      var l :| l in keys;
      list := list + [groups[l]];
      keys := keys - {l};
    }
  }

  /** The membership of labels as a canonically ordered list, whatever order the map yields its groups in. */
  method PartitionSignature(labels: seq<int>) returns (sigs: seq<seq<nat>>)
    ensures Canonical(labels, sigs)
  {
    var groups: map<int, seq<nat>> := map[];
    for i := 0 to |labels|
      invariant Grouped(labels, i, groups)
    {
      GroupedStep(labels, i, groups);
      var l := labels[i];
      groups := groups[l := (if l in groups then groups[l] else []) + [i]];
    }
    GroupsAreBlocks(labels, groups);
    forall k, l | k in groups && l in groups && k != l ensures groups[k] != groups[l] {
    }
    var list := ListValues(groups);
    forall s ensures s in list <==> IsBlock(labels, s) {
      if IsBlock(labels, s) { assert groups[labels[s[0]]] == s; }
    }
    AtMostIsTotalPreorder();
    SortOrdered(AtMost, list);
    sigs := Sort(AtMost, list);
    SameMembers(list, sigs);
  }

  lemma SameMembers(s: seq<seq<nat>>, t: seq<seq<nat>>)
    requires multiset(s) == multiset(t) && NoRepeats(s)
    ensures NoRepeats(t) && forall x :: x in s <==> x in t
  {
    forall x ensures x in s <==> x in t {
      assert x in s <==> x in multiset(s);
      assert x in t <==> x in multiset(t);
    }
    forall i, j | 0 <= i < j < |t| ensures t[i] != t[j] {
      if t[i] == t[j] {
        TwiceCounted(t, i, j);
        OnceCounted(s, t[i]);
      }
    }
  }

  lemma TwiceCounted(t: seq<seq<nat>>, i: nat, j: nat)
    requires i < j < |t| && t[i] == t[j]
    ensures multiset(t)[t[i]] >= 2
  {
    assert t == t[..j] + [t[j]] + t[j + 1..];
    assert t[i] in t[..j];
  }

  lemma {:induction false} OnceCounted(s: seq<seq<nat>>, x: seq<nat>)
    requires NoRepeats(s)
    ensures multiset(s)[x] <= 1
  {
    if s != [] {
      OnceCounted(s[1..], x);
      assert s == [s[0]] + s[1..];
      if x == s[0] { TailMembers(s, x); }
    }
  }

  method PartitionsEqual(a: seq<seq<nat>>, b: seq<seq<nat>>) returns (same: bool)
    ensures same <==> a == b
  {
    if |a| != |b| { return false; }
    for i := 0 to |a|
      invariant forall k :: 0 <= k < i ==> a[k] == b[k]
    {
      if |a[i]| != |b[i]| { return false; }
      for j := 0 to |a[i]|
        invariant forall k :: 0 <= k < j ==> a[i][k] == b[i][k]
      {
        if a[i][j] != b[i][j] { return false; }
      }
    }
    return true;
  }

  /** Blocks of different labels have no index in common. */
  lemma BlocksMeet(labels: seq<int>, s: seq<nat>, t: seq<nat>, i: nat)
    requires IsBlock(labels, s) && IsBlock(labels, t) && i in s && i in t
    ensures s == t
  {
    AscendingUnique(s, t);
  }

  /** The order of a signature: smaller blocks come first, and of equally large ones the one with the smaller first index. */
  lemma SignatureOrder(labels: seq<int>, sigs: seq<seq<nat>>, i: nat, j: nat)
    requires Canonical(labels, sigs) && i < j < |sigs|
    ensures sigs[i] != [] && sigs[j] != []
    ensures |sigs[i]| < |sigs[j]| || (|sigs[i]| == |sigs[j]| && sigs[i][0] < sigs[j][0])
  {
    assert sigs[i] in sigs && sigs[j] in sigs;
    assert IsBlock(labels, sigs[i]) && IsBlock(labels, sigs[j]) && sigs[i] != sigs[j];
    assert AtMost(sigs[i], sigs[j]);
    if sigs[i][0] == sigs[j][0] { BlocksMeet(labels, sigs[i], sigs[j], sigs[i][0]); }
    assert |sigs[i]| == |sigs[j]| ==> !LexLess(sigs[j], sigs[i]);
  }

  // ---------------------------------------------------------------- what equal signatures mean

  /** The two arrays put the same indices together. */
  ghost predicate SamePartition(a: seq<int>, b: seq<int>) {
    |a| == |b| && forall i, j :: 0 <= i < |a| && 0 <= j < |a| ==> (a[i] == a[j] <==> b[i] == b[j])
  }

  /** The indices below k that carry the label of i. */
  ghost function BlockBelow(labels: seq<int>, i: nat, k: nat): (s: seq<nat>)
    requires i < |labels| && k <= |labels|
    ensures Ascending(s) && forall x: nat :: x in s <==> x < k && labels[x] == labels[i]
    ensures forall n :: 0 <= n < |s| ==> s[n] < k
  {
    if k == 0 then []
    else
      var t := BlockBelow(labels, i, k - 1);
      if labels[k - 1] == labels[i] then t + [k - 1] else t
  }

  lemma BlockOf(labels: seq<int>, i: nat) returns (s: seq<nat>)
    requires i < |labels|
    ensures IsBlock(labels, s) && i in s
  {
    s := BlockBelow(labels, i, |labels|);
    assert i in s && s[0] in s;
  }

  lemma SameBlocks(a: seq<int>, b: seq<int>, s: seq<nat>)
    requires SamePartition(a, b) && IsBlock(a, s)
    ensures IsBlock(b, s)
  {
  }

  lemma BlocksCover(a: seq<int>, b: seq<int>)
    requires forall s :: IsBlock(a, s) ==> IsBlock(b, s)
    ensures |a| <= |b|
    ensures forall i, j :: 0 <= i < |a| && 0 <= j < |a| && j < |b| && i < |b| ==> (a[i] == a[j] <==> b[i] == b[j])
  {
    if |a| > 0 {
      var s := BlockOf(a, |a| - 1);
    }
    forall i: nat, j: nat | i < |a| && j < |a| && j < |b| && i < |b| ensures a[i] == a[j] <==> b[i] == b[j] {
      var s := BlockOf(a, i);
      assert IsBlock(b, s);
      assert j in s <==> a[j] == a[i];
      assert j in s <==> b[j] == b[s[0]];
      assert i in s <==> b[i] == b[s[0]];
    }
  }

  /** The signatures of two label arrays are equal exactly when the arrays group the same indices together. */
  lemma SignaturesDecidePartitions(a: seq<int>, b: seq<int>, sa: seq<seq<nat>>, sb: seq<seq<nat>>)
    requires Canonical(a, sa) && Canonical(b, sb)
    ensures sa == sb <==> SamePartition(a, b)
  {
    if sa == sb {
      assert forall s :: IsBlock(a, s) <==> s in sa;
      BlocksCover(a, b);
      BlocksCover(b, a);
    }
    if SamePartition(a, b) {
      forall s ensures s in sa <==> s in sb {
        if s in sa { SameBlocks(a, b, s); }
        if s in sb { SameBlocks(b, a, s); }
      }
      SortedUnique(sa, sb);
    }
  }
}
