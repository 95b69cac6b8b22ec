/** The person tables as the services update them, statement by statement. */
module PersonTables {
  import opened Options
  import opened People
  import opened PersonEdits
  import opened Rebuild

  // ---------------------------------------------------------------- pieces of the rebuild

  /** An anchored person and the faces its centroid is taken from. */
  datatype Anchor = Anchor(id: PersonId, rows: seq<FaceId>)

  ghost predicate AnchorList(s: Store, anchors: seq<Anchor>) {
    && (forall k :: 0 <= k < |anchors| ==> anchors[k].id in AnchorIds(s) && anchors[k].rows == Rows(s, anchors[k].id))
    && (forall p :: p in AnchorIds(s) ==> exists k :: 0 <= k < |anchors| && anchors[k].id == p)
  }

  method LoadAnchors(s: Store) returns (anchors: seq<Anchor>)
    ensures AnchorList(s, anchors)
  {
    anchors := [];
    var rest := AnchorIds(s);
    while rest != {}
      invariant rest <= AnchorIds(s)
      invariant forall k :: 0 <= k < |anchors| ==> anchors[k].id in AnchorIds(s) && anchors[k].rows == Rows(s, anchors[k].id)
      invariant forall p :: p in AnchorIds(s) && p !in rest ==> exists k :: 0 <= k < |anchors| && anchors[k].id == p
      decreases rest
    {
      var p :| p in rest;
      ghost var before := anchors;
      anchors := anchors + [Anchor(p, Rows(s, p))];
      rest := rest - {p};
      forall q | q in AnchorIds(s) && q !in rest ensures exists k :: 0 <= k < |anchors| && anchors[k].id == q {
        if q == p {
          assert anchors[|before|].id == q;
        } else {
          var k :| 0 <= k < |before| && before[k].id == q;
          assert anchors[k].id == q;
        }
      }
    }
  }

  /** The scan for the nearest anchor centroid; the first distance compared against is the assign radius. */
  method NearestAnchor(s: Store, anchors: seq<Anchor>, m: Metric, f: FaceId) returns (best: Option<PersonId>)
    requires AnchorList(s, anchors)
    ensures best.Some? ==> Nearest(s, m, f, best.value)
    ensures best.None? <==> OutOfReach(s, m, f)
  {
    best := None;
    var bestDist := ASSIGN_EPSILON;
    for k := 0 to |anchors|
      invariant bestDist <= ASSIGN_EPSILON
      invariant best.Some? ==> HasCentroid(s, best.value) && bestDist == Distance(s, m, f, best.value)
      invariant best.None? ==> bestDist == ASSIGN_EPSILON
      invariant forall j :: 0 <= j < k && anchors[j].rows != [] ==>
                  if best.None? then Distance(s, m, f, anchors[j].id) > ASSIGN_EPSILON else bestDist <= Distance(s, m, f, anchors[j].id)
    {
      if anchors[k].rows != [] {
        var d := m.toCentroid(f, anchors[k].rows);
        if d <= bestDist {
          bestDist := d;
          best := Some(anchors[k].id);
        }
      }
    }
    forall b | HasCentroid(s, b) ensures if best.None? then Distance(s, m, f, b) > ASSIGN_EPSILON else bestDist <= Distance(s, m, f, b) {
      var k :| 0 <= k < |anchors| && anchors[k].id == b;
    }
  }

  /** A person id that is not in use; stands for a fresh UUID. */
  method NewId(used: set<PersonId>) returns (id: PersonId)
    ensures id !in used
  {
    id := 0;
    ghost var rest := used;
    while id in used
      invariant rest <= used && forall x :: x in used && x >= id ==> x in rest
      invariant forall x :: x in rest ==> x >= id
      decreases rest
    {
      rest := rest - {id};
      id := id + 1;
    }
  }

  /** The bindings once the first i loaded faces have been tried: anchored ones kept, near ones snapped, the rest listed. */
  ghost predicate SnappedUpTo(s: Store, snapshot: seq<FaceId>, m: Metric, i: nat, bind: map<FaceId, PersonId>, free: seq<nat>) {
    && i <= |snapshot|
    && (forall k, l :: 0 <= k < l < |free| ==> free[k] < free[l])
    && (forall k :: 0 <= k < |free| ==> free[k] < i && Remaining(s, m, snapshot, free[k]))
    && (forall j :: 0 <= j < i && Remaining(s, m, snapshot, j) ==> j in free)
    && (forall f :: f in AnchoredFaces(s) ==> f in bind && bind[f] == s.bind[f])
    && (forall j :: 0 <= j < i && snapshot[j] !in AnchoredFaces(s) && j !in free ==> snapshot[j] in bind && Nearest(s, m, snapshot[j], bind[snapshot[j]]))
    && (forall f :: f in bind && f !in AnchoredFaces(s) ==> exists j :: 0 <= j < i && j !in free && snapshot[j] == f)
  }

  /** The bindings made and the faces listed so far. */
  datatype Snaps = Snaps(bind: map<FaceId, PersonId>, free: seq<nat>)

  ghost predicate Snapped(s: Store, snapshot: seq<FaceId>, m: Metric, i: nat, snaps: Snaps) {
    match snaps
    case Snaps(bind, free) => SnappedUpTo(s, snapshot, m, i, bind, free)
  }

  lemma SnapStep(s: Store, snapshot: seq<FaceId>, m: Metric, i: nat, bind: map<FaceId, PersonId>, free: seq<nat>)
    requires SnappedUpTo(s, snapshot, m, i, bind, free) && i < |snapshot| && Distinct(snapshot)
    ensures snapshot[i] in AnchoredFaces(s) ==> SnappedUpTo(s, snapshot, m, i + 1, bind, free)
    ensures Remaining(s, m, snapshot, i) ==> SnappedUpTo(s, snapshot, m, i + 1, bind, free + [i])
    ensures forall a :: snapshot[i] !in AnchoredFaces(s) && Nearest(s, m, snapshot[i], a) ==>
              snapshot[i] !in bind && SnappedUpTo(s, snapshot, m, i + 1, bind[snapshot[i] := a], free)
  {
    forall j | j in free ensures j < i {
      var k :| 0 <= k < |free| && free[k] == j;
    }
    if Remaining(s, m, snapshot, i) { SnapRemaining(s, snapshot, m, i, bind, free); }
    forall a | snapshot[i] !in AnchoredFaces(s) && Nearest(s, m, snapshot[i], a)
      ensures snapshot[i] !in bind && SnappedUpTo(s, snapshot, m, i + 1, bind[snapshot[i] := a], free)
    {
      SnapNear(s, snapshot, m, i, bind, free, a);
    }
    if snapshot[i] in AnchoredFaces(s) { SnapAnchored(s, snapshot, m, i, bind, free); }
  }

  lemma SnapAnchored(s: Store, snapshot: seq<FaceId>, m: Metric, i: nat, bind: map<FaceId, PersonId>, free: seq<nat>)
    requires SnappedUpTo(s, snapshot, m, i, bind, free) && i < |snapshot| && snapshot[i] in AnchoredFaces(s)
    ensures SnappedUpTo(s, snapshot, m, i + 1, bind, free)
  {
    forall f | f in bind && f !in AnchoredFaces(s) ensures exists j :: 0 <= j < i + 1 && j !in free && snapshot[j] == f {
      var j :| 0 <= j < i && j !in free && snapshot[j] == f;
    }
  }

  lemma SnapRemaining(s: Store, snapshot: seq<FaceId>, m: Metric, i: nat, bind: map<FaceId, PersonId>, free: seq<nat>)
    requires SnappedUpTo(s, snapshot, m, i, bind, free) && Remaining(s, m, snapshot, i)
    ensures SnappedUpTo(s, snapshot, m, i + 1, bind, free + [i])
  {
    var free' := free + [i];
    forall j: nat ensures j in free' <==> j in free || j == i {
      assert free'[|free|] == i;
      if j in free { var k :| 0 <= k < |free| && free[k] == j; assert free'[k] == j; }
    }
    forall f | f in bind && f !in AnchoredFaces(s) ensures exists j :: 0 <= j < i + 1 && j !in free' && snapshot[j] == f {
      var j :| 0 <= j < i && j !in free && snapshot[j] == f;
    }
  }

  lemma SnapNear(s: Store, snapshot: seq<FaceId>, m: Metric, i: nat, bind: map<FaceId, PersonId>, free: seq<nat>, a: PersonId)
    requires SnappedUpTo(s, snapshot, m, i, bind, free) && i < |snapshot| && Distinct(snapshot)
    requires snapshot[i] !in AnchoredFaces(s) && Nearest(s, m, snapshot[i], a)
    ensures snapshot[i] !in bind && SnappedUpTo(s, snapshot, m, i + 1, bind[snapshot[i] := a], free)
  {
    var bind' := bind[snapshot[i] := a];
    assert !OutOfReach(s, m, snapshot[i]);
    forall k | 0 <= k < |free| ensures free[k] < i {
    }
    assert i !in free;
    forall j | 0 <= j < i ensures snapshot[j] != snapshot[i] {
    }
    forall f | f in bind' && f !in AnchoredFaces(s) ensures exists j :: 0 <= j < i + 1 && j !in free && snapshot[j] == f {
      if f in bind {
        var j :| 0 <= j < i && j !in free && snapshot[j] == f;
      } else {
        assert snapshot[i] == f;
      }
    }
  }

  function FaceAt(snapshot: seq<FaceId>, free: seq<nat>, j: nat): FaceId
    requires j < |free| && free[j] < |snapshot|
  {
    snapshot[free[j]]
  }

  function LabelAt(labels: seq<int>, free: seq<nat>, j: nat): int
    requires j < |free| && free[j] < |labels|
  {
    labels[free[j]]
  }

  ghost predicate FaceSeen(snapshot: seq<FaceId>, free: seq<nat>, k: nat, f: FaceId)
    requires k <= |free| && forall j :: 0 <= j < |free| ==> free[j] < |snapshot|
  {
    exists j: nat :: j < k && FaceAt(snapshot, free, j) == f
  }

  ghost predicate LabelSeen(labels: seq<int>, free: seq<nat>, k: nat, l: int)
    requires k <= |free| && forall j :: 0 <= j < |free| ==> free[j] < |labels|
  {
    exists j: nat :: j < k && LabelAt(labels, free, j) == l
  }

  ghost predicate Made(byLabel: map<int, PersonId>, p: PersonId) {
    exists l :: l in byLabel && byLabel[l] == p
  }

  /** One new, so far unused person per label seen, and nobody else beside the anchors. */
  ghost predicate PersonsByLabel(s: Store, labels: seq<int>, free: seq<nat>, k: nat, persons: map<PersonId, Person>, byLabel: map<int, PersonId>)
    requires k <= |free| && forall j :: 0 <= j < |free| ==> free[j] < |labels|
  {
    && (forall l :: l in byLabel ==> byLabel[l] !in s.persons && LabelSeen(labels, free, k, l))
    && (forall l, l' :: l in byLabel && l' in byLabel && l != l' ==> byLabel[l] != byLabel[l'])
    && (forall p :: p in persons <==> p in AnchorIds(s) || Made(byLabel, p))
    && (forall p :: p in persons ==> persons[p] == BasePerson(s, p))
  }

  /** The bindings once the first k remaining faces have been grouped by label; `snapped` is what snapping left. */
  ghost predicate BoundByLabel(snapshot: seq<FaceId>, labels: seq<int>, free: seq<nat>, snapped: map<FaceId, PersonId>,
                               k: nat, bind: map<FaceId, PersonId>, byLabel: map<int, PersonId>)
    requires |labels| == |snapshot| && k <= |free| && forall j :: 0 <= j < |free| ==> free[j] < |snapshot|
  {
    && (forall f :: f in snapped ==> f in bind && bind[f] == snapped[f])
    && (forall f :: f in bind && f !in snapped ==> FaceSeen(snapshot, free, k, f))
    && (forall j: nat :: j < k ==>
          && LabelAt(labels, free, j) in byLabel && FaceAt(snapshot, free, j) in bind
          && bind[FaceAt(snapshot, free, j)] == byLabel[LabelAt(labels, free, j)])
  }

  ghost predicate GroupedUpTo(s: Store, snapshot: seq<FaceId>, labels: seq<int>, free: seq<nat>, snapped: map<FaceId, PersonId>,
                              k: nat, bind: map<FaceId, PersonId>, persons: map<PersonId, Person>, byLabel: map<int, PersonId>) {
    && |labels| == |snapshot| && k <= |free| && (forall j :: 0 <= j < |free| ==> free[j] < |snapshot|)
    && PersonsByLabel(s, labels, free, k, persons, byLabel)
    && BoundByLabel(snapshot, labels, free, snapped, k, bind, byLabel)
  }

  lemma GroupStart(s: Store, snapshot: seq<FaceId>, labels: seq<int>, m: Metric, free: seq<nat>, snapped: map<FaceId, PersonId>, persons: map<PersonId, Person>)
    requires |labels| == |snapshot| && SnappedUpTo(s, snapshot, m, |snapshot|, snapped, free)
    requires persons.Keys == AnchorIds(s) && forall p :: p in persons ==> persons[p] == s.persons[p]
    ensures GroupedUpTo(s, snapshot, labels, free, snapped, 0, snapped, persons, map[])
  {
    forall j | 0 <= j < |free| ensures free[j] < |snapshot| {
      assert Remaining(s, m, snapshot, free[j]);
    }
    assert forall p :: !Made(map[], p);
  }

  lemma PersonsStep(s: Store, labels: seq<int>, free: seq<nat>, k: nat, persons: map<PersonId, Person>, byLabel: map<int, PersonId>, pid: PersonId)
    requires k < |free| && forall j :: 0 <= j < |free| ==> free[j] < |labels|
    requires PersonsByLabel(s, labels, free, k, persons, byLabel)
    requires var l := LabelAt(labels, free, k); if l in byLabel then pid == byLabel[l] else pid !in persons && pid !in s.persons
    ensures var l := LabelAt(labels, free, k);
            PersonsByLabel(s, labels, free, k + 1, if l in byLabel then persons else persons[pid := NEW_PERSON], byLabel[l := pid])
  {
    var l := LabelAt(labels, free, k);
    var byLabel' := byLabel[l := pid];
    var persons' := if l in byLabel then persons else persons[pid := NEW_PERSON];
    forall x | x in byLabel' ensures LabelSeen(labels, free, k + 1, x) {
      if x in byLabel {
        assert LabelSeen(labels, free, k, x);
        var j: nat :| j < k && LabelAt(labels, free, j) == x;
      }
    }
    forall x | x in byLabel ensures Made(byLabel, byLabel[x]) {
    }
    forall p ensures Made(byLabel', p) <==> Made(byLabel, p) || p == pid {
      if Made(byLabel, p) {
        var x :| x in byLabel && byLabel[x] == p;
        assert byLabel'[x] == p;
      }
      assert byLabel'[l] == pid;
    }
  }

  lemma BindStep(snapshot: seq<FaceId>, labels: seq<int>, free: seq<nat>, snapped: map<FaceId, PersonId>,
                 k: nat, bind: map<FaceId, PersonId>, byLabel: map<int, PersonId>, pid: PersonId)
    requires |labels| == |snapshot| && k < |free| && forall j :: 0 <= j < |free| ==> free[j] < |snapshot|
    requires BoundByLabel(snapshot, labels, free, snapped, k, bind, byLabel)
    requires var l := LabelAt(labels, free, k); l in byLabel ==> pid == byLabel[l]
    requires FaceAt(snapshot, free, k) !in bind
    ensures BoundByLabel(snapshot, labels, free, snapped, k + 1, bind[FaceAt(snapshot, free, k) := pid], byLabel[LabelAt(labels, free, k) := pid])
  {
    var bind' := bind[FaceAt(snapshot, free, k) := pid];
    forall f | f in bind' && f !in snapped ensures FaceSeen(snapshot, free, k + 1, f) {
      if f in bind {
        assert FaceSeen(snapshot, free, k, f);
        var j: nat :| j < k && FaceAt(snapshot, free, j) == f;
      }
    }
  }

  lemma ListedFree(s: Store, snapshot: seq<FaceId>, m: Metric, snapped: map<FaceId, PersonId>, free: seq<nat>, i: nat) returns (j: nat)
    requires SnappedUpTo(s, snapshot, m, |snapshot|, snapped, free) && Remaining(s, m, snapshot, i)
    ensures j < |free| && free[j] == i && FaceAt(snapshot, free, j) == snapshot[i]
  {
    assert i in free;
    j :| 0 <= j < |free| && free[j] == i;
  }

  lemma SnapCovers(s: Store, snapshot: seq<FaceId>, m: Metric, snapped: map<FaceId, PersonId>, free: seq<nat>, f: FaceId)
    requires SnappedUpTo(s, snapshot, m, |snapshot|, snapped, free) && Distinct(snapshot)
    ensures f in snapped ==> f in AnchoredFaces(s) || f in snapshot
    ensures f in snapshot && f !in AnchoredFaces(s) && !OutOfReach(s, m, f) ==> f in snapped && Nearest(s, m, f, snapped[f])
    ensures f in snapshot && f !in AnchoredFaces(s) && OutOfReach(s, m, f) ==> f !in snapped
  {
    if f in snapped && f !in AnchoredFaces(s) {
      var j :| 0 <= j < |snapshot| && j !in free && snapshot[j] == f;
      assert !Remaining(s, m, snapshot, j);
    }
    if f in snapshot && f !in AnchoredFaces(s) {
      var i: nat :| i < |snapshot| && snapshot[i] == f;
      if i in free {
        var j :| 0 <= j < |free| && free[j] == i;
        assert Remaining(s, m, snapshot, free[j]);
      }
    }
  }

  lemma GroupEnds(s: Store, snapshot: seq<FaceId>, labels: seq<int>, m: Metric, free: seq<nat>, snapped: map<FaceId, PersonId>,
                  bind: map<FaceId, PersonId>, persons: map<PersonId, Person>, byLabel: map<int, PersonId>)
    requires SnappedUpTo(s, snapshot, m, |snapshot|, snapped, free) && Distinct(snapshot)
    requires GroupedUpTo(s, snapshot, labels, free, snapped, |free|, bind, persons, byLabel)
    ensures Rebound(s, snapshot, labels, m, bind, persons.Keys)
  {
    forall i | Remaining(s, m, snapshot, i)
      ensures snapshot[i] in bind && labels[i] in byLabel && bind[snapshot[i]] == byLabel[labels[i]]
    {
      var j := ListedFree(s, snapshot, m, snapped, free, i);
      assert LabelAt(labels, free, j) == labels[i];
    }
    forall l | l in byLabel ensures Made(byLabel, byLabel[l]) {
    }
    forall f ensures f in bind <==> f in AnchoredFaces(s) || f in snapshot
      ensures f in snapshot && f !in AnchoredFaces(s) && !OutOfReach(s, m, f) ==> Nearest(s, m, f, bind[f])
    {
      SnapCovers(s, snapshot, m, snapped, free, f);
      if f in bind && f !in snapped {
        assert FaceSeen(snapshot, free, |free|, f);
      }
      if f in snapshot && f !in AnchoredFaces(s) && OutOfReach(s, m, f) {
        var i: nat :| i < |snapshot| && snapshot[i] == f;
        assert Remaining(s, m, snapshot, i);
      }
    }
    forall p | p in persons.Keys && p !in AnchorIds(s) ensures exists i :: Remaining(s, m, snapshot, i) && bind[snapshot[i]] == p {
      assert Made(byLabel, p);
      var l :| l in byLabel && byLabel[l] == p;
      assert LabelSeen(labels, free, |free|, l);
      var j: nat :| j < |free| && LabelAt(labels, free, j) == l;
      assert Remaining(s, m, snapshot, free[j]);
      assert bind[FaceAt(snapshot, free, j)] == p;
    }
  }

  /** The listed faces are pairwise different and not yet bound. */
  ghost predicate FreshFaces(snapshot: seq<FaceId>, free: seq<nat>, snapped: map<FaceId, PersonId>)
    requires forall j :: 0 <= j < |free| ==> free[j] < |snapshot|
  {
    && (forall j: nat :: j < |free| ==> FaceAt(snapshot, free, j) !in snapped)
    && (forall j: nat, k: nat :: j < k < |free| ==> FaceAt(snapshot, free, j) != FaceAt(snapshot, free, k))
  }

  lemma ListedFresh(s: Store, snapshot: seq<FaceId>, m: Metric, free: seq<nat>, snapped: map<FaceId, PersonId>)
    requires SnappedUpTo(s, snapshot, m, |snapshot|, snapped, free) && Distinct(snapshot)
    ensures forall j :: 0 <= j < |free| ==> free[j] < |snapshot|
    ensures FreshFaces(snapshot, free, snapped)
  {
    forall j: nat | j < |free| ensures free[j] < |snapshot| && FaceAt(snapshot, free, j) !in snapped {
      assert Remaining(s, m, snapshot, free[j]);
      SnapCovers(s, snapshot, m, snapped, free, FaceAt(snapshot, free, j));
    }
    forall j: nat, k: nat | j < k < |free| ensures FaceAt(snapshot, free, j) != FaceAt(snapshot, free, k) {
      assert free[j] < free[k];
    }
  }

  /** A remaining face is still unbound when its turn comes, so its insertion meets no other row. */
  lemma NotYetBound(s: Store, snapshot: seq<FaceId>, labels: seq<int>, free: seq<nat>, snapped: map<FaceId, PersonId>,
                    k: nat, bind: map<FaceId, PersonId>, persons: map<PersonId, Person>, byLabel: map<int, PersonId>)
    requires GroupedUpTo(s, snapshot, labels, free, snapped, k, bind, persons, byLabel) && k < |free|
    requires FreshFaces(snapshot, free, snapped)
    ensures FaceAt(snapshot, free, k) !in bind
  {
    assert !FaceSeen(snapshot, free, k, FaceAt(snapshot, free, k));
  }

  // ---------------------------------------------------------------- the two recompute paths

  /** What recomputePersonStatsTx loads of every person before it touches any: id, lock and cover. */
  datatype Meta = Meta(id: PersonId, locked: bool, cover: Option<FaceId>)

  ghost predicate MetaOf(persons: map<PersonId, Person>, meta: Meta) {
    meta.id in persons && meta.locked == persons[meta.id].locked && meta.cover == persons[meta.id].coverFace
  }

  /** Every person once, with its row as it is. */
  ghost predicate Metas(persons: map<PersonId, Person>, metas: seq<Meta>) {
    && (forall k :: 0 <= k < |metas| ==> MetaOf(persons, metas[k]))
    && (forall j, k :: 0 <= j < k < |metas| ==> metas[j].id != metas[k].id)
    && (forall p :: p in persons ==> Listed(metas, p))
  }

  ghost predicate Listed(metas: seq<Meta>, p: PersonId) {
    exists k :: 0 <= k < |metas| && metas[k].id == p
  }

  /** The row of p has been recomputed from the tables s, and nothing of its identity has changed. */
  ghost predicate StatsAt(s: Store, m: Metric, p: PersonId, after: Person) {
    p in s.persons && CoverRule(s, p, m, s.persons[p], after) && SameIdentity(s.persons[p], after)
  }

  /** Every person has. */
  ghost predicate StatsDone(s: Store, m: Metric, t: Store) {
    && t.faces == s.faces && t.order == s.order && t.bind == s.bind && t.persons.Keys == s.persons.Keys
    && forall p :: p in t.persons ==> StatsAt(s, m, p, t.persons[p])
  }

  /** The first k persons of the list have been recomputed, the others are as they were loaded. */
  ghost predicate StatsUpTo(s: Store, m: Metric, metas: seq<Meta>, k: nat, persons: map<PersonId, Person>) {
    && persons.Keys == s.persons.Keys
    && (forall j :: 0 <= j < |metas| ==> metas[j].id in persons)
    && (forall j :: 0 <= j < k && j < |metas| ==> StatsAt(s, m, metas[j].id, persons[metas[j].id]))
    && (forall j :: k <= j < |metas| ==> MetaOf(persons, metas[j]) && persons[metas[j].id] == s.persons[metas[j].id])
  }

  lemma StatsStep(s: Store, m: Metric, metas: seq<Meta>, k: nat, now: Store, t: Store)
    requires Metas(s.persons, metas) && k < |metas| && StatsUpTo(s, m, metas, k, now.persons)
    requires now.faces == s.faces && now.order == s.order && now.bind == s.bind
    requires var p := metas[k].id; p in t.persons && t.persons == now.persons[p := t.persons[p]] && StatsAt(now, m, p, t.persons[p])
    ensures StatsUpTo(s, m, metas, k + 1, t.persons)
  {
    var p, after := metas[k].id, t.persons[metas[k].id];
    StatsAtFrame(now, s, m, p, after);
    forall j | 0 <= j < |metas| && j != k ensures metas[j].id != p && t.persons[metas[j].id] == now.persons[metas[j].id] {
    }
  }

  lemma StatsAtFrame(now: Store, s: Store, m: Metric, p: PersonId, after: Person)
    requires now.faces == s.faces && now.order == s.order && now.bind == s.bind && StatsAt(now, m, p, after)
    requires p in s.persons && s.persons[p] == now.persons[p]
    ensures StatsAt(s, m, p, after)
  {
    CoverRuleFrame(now, s, p, m, s.persons[p], after);
  }

  lemma StatsEnd(s: Store, m: Metric, metas: seq<Meta>, t: Store)
    requires Metas(s.persons, metas) && StatsUpTo(s, m, metas, |metas|, t.persons)
    requires t.faces == s.faces && t.order == s.order && t.bind == s.bind
    ensures StatsDone(s, m, t)
  {
    forall p | p in t.persons ensures StatsAt(s, m, p, t.persons[p]) {
      assert Listed(metas, p);
    }
  }

  lemma CoverRuleFrame(s: Store, t: Store, p: PersonId, m: Metric, before: Person, after: Person)
    requires s.faces == t.faces && s.order == t.order && s.bind == t.bind
    ensures CoverRule(s, p, m, before, after) <==> CoverRule(t, p, m, before, after)
  {
    SameRows(s, t, p, s.order);
  }

  /** From the contracts of the two methods: the full pass and the one-person path leave a person with the same cover and the
      same lock; they leave the same row exactly when it has active faces or no hero to clear. */
  lemma PathsAgree(s: Store, m: Metric, full: Store, one: Store, p: PersonId)
    requires p in s.persons && StatsDone(s, m, full) && one == Refresh(s, p, m)
    ensures SameCover(full.persons[p], one.persons[p])
    ensures full.persons[p] == one.persons[p] <==> Rows(s, p) != [] || s.persons[p].hero.None?
  {
    assert StatsAt(s, m, p, full.persons[p]);
    CoverRuleDecides(s, s, p, m, s.persons[p], full.persons[p], s.persons[p], one.persons[p]);
  }

  /** Every recomputation - of one person, of all persons, after an unlock - gives a person with active faces and no pin that
      holds the face that the scores and distances choose, shown by its asset. */
  lemma RecomputationsChoose(s: Store, m: Metric, full: Store, p: PersonId)
    requires p in s.persons && StatsDone(s, m, full) && Rows(s, p) != []
    requires s.persons[p].locked && s.persons[p].coverFace.Some? ==> s.persons[p].coverFace.value !in Rows(s, p)
    ensures forall after :: after in {Refresh(s, p, m).persons[p], full.persons[p], Unlocked(s, p, m).persons[p]} ==>
              && after.coverFace.Some? && ChosenFace(Rows(s, p), m, after.coverFace.value)
              && after.coverFace.value in s.faces && after.coverAsset == Some(s.faces[after.coverFace.value].asset)
  {
    assert StatsAt(s, m, p, full.persons[p]);
    var i := ReselectedCover(s, p, m, s.persons[p], full.persons[p]);
    RefreshEffect(s, p, m);
    i := ReselectedCover(Refresh(s, p, m), p, m, s.persons[p], Refresh(s, p, m).persons[p]);
    UnlockReselects(s, p, m);
  }

  /** The first k listed faces still have their rows. */
  ghost predicate Present(faces: map<FaceId, Face>, snapshot: seq<FaceId>, free: seq<nat>, k: nat) {
    forall j: nat :: j < k && j < |free| ==> free[j] < |snapshot| && FaceAt(snapshot, free, j) in faces
  }

  lemma PresentStep(faces: map<FaceId, Face>, snapshot: seq<FaceId>, free: seq<nat>, k: nat)
    requires k < |free| && free[k] < |snapshot|
    ensures Present(faces, snapshot, free, k + 1) <==> Present(faces, snapshot, free, k) && FaceAt(snapshot, free, k) in faces
    ensures Present(faces, snapshot, free, |free|) ==> FaceAt(snapshot, free, k) in faces
  {
  }

  /** A face to be snapped still has its row. */
  ghost predicate RowsFor(s: Store, m: Metric, snapshot: seq<FaceId>, k: nat) {
    forall j {:trigger RowFor(s, m, snapshot[j])} :: 0 <= j < k && j < |snapshot| ==> RowFor(s, m, snapshot[j])
  }

  ghost predicate RowFor(s: Store, m: Metric, f: FaceId) {
    f !in AnchoredFaces(s) && !OutOfReach(s, m, f) ==> f in s.faces
  }

  lemma ListedSnoc(metas: seq<Meta>, meta: Meta)
    ensures forall p :: Listed(metas + [meta], p) <==> Listed(metas, p) || p == meta.id
  {
    forall p ensures Listed(metas + [meta], p) <==> Listed(metas, p) || p == meta.id {
      if Listed(metas, p) {
        var k :| 0 <= k < |metas| && metas[k].id == p;
        assert (metas + [meta])[k].id == p;
      }
      assert (metas + [meta])[|metas|] == meta;
    }
  }

  class Tables {
    var faces: map<FaceId, Face>
    var order: seq<FaceId>
    var bind: map<FaceId, PersonId>
    var persons: map<PersonId, Person>

    ghost function Value(): Store
      reads this
    {
      Store(faces, order, bind, persons)
    }

    // -------------------------------------------------------------- single-person transactions

    /** selectCoverFace over the rows just read. */
    method ChooseCover(rows: seq<FaceId>, m: Metric) returns (f: FaceId)
      requires rows != []
      ensures f == BestRow(rows, m)
    {
      var hybrid := seq(|rows|, i requires 0 <= i < |rows| => m.hybrid(rows[i]));
      var dist := seq(|rows|, i requires 0 <= i < |rows| => m.toCentroid(rows[i], rows));
      var best := SelectCoverFace(hybrid, dist);
      f := rows[best];
    }

    /** recomputeOneCentroidTx: the faces first, then the lock and cover of the row. */
    method RecomputeOneCentroid(p: PersonId, m: Metric)
      requires p in persons
      modifies this`persons
      ensures Value() == Refresh(old(Value()), p, m)
    {
      var s := Store(faces, order, bind, persons);
      var rows := Rows(s, p);
      if |rows| == 0 {
        persons := persons[p := persons[p].(coverFace := None, coverAsset := None, locked := false, hero := None)];
        return;
      }
      var locked, lockedFace := persons[p].locked, persons[p].coverFace;
      if locked && lockedFace.Some? {
        if lockedFace.value in rows {
          assert persons[p := persons[p]] == persons;
          return;
        }
        persons := persons[p := persons[p].(locked := false)];
      }
      var best := ChooseCover(rows, m);
      persons := persons[p := persons[p].(coverFace := Some(best), coverAsset := AssetOf(s, best))];
    }

    method MergePersons(from: PersonId, into: PersonId, m: Metric) returns (ok: bool)
      modifies this`bind, this`persons
      ensures ok <==> from != into && from in old(persons) && into in old(persons)
      ensures Value() == if ok then Merged(old(Value()), from, into, m) else old(Value())
    {
      if from == into || from !in persons || into !in persons { return false; }
      bind := map f | f in bind :: if bind[f] == from then into else bind[f];
      persons := persons - {from};
      RecomputeOneCentroid(into, m);
      return true;
    }

    method DetachAssetsFromPerson(p: PersonId, assets: set<AssetId>, m: Metric) returns (affected: Option<nat>)
      modifies this`faces, this`bind, this`persons
      ensures assets == {} ==> affected == Some(0) && Value() == old(Value())
      ensures assets != {} && p !in old(persons) ==> affected == None && Value() == old(Value())
      ensures assets != {} && p in old(persons) ==> affected == Some(|FacesOn(old(Value()), p, assets)|) && Value() == Detached(old(Value()), p, assets, m)
    {
      if assets == {} { return Some(0); }
      if p !in persons { return None; }
      ghost var s := Value();
      var gone := set f | f in bind && bind[f] == p && f in faces && !faces[f].excluded && faces[f].asset in assets;
      assert gone == FacesOn(s, p, assets);
      if gone == {} { return Some(0); }
      faces := map f | f in faces :: if f in gone then faces[f].(excluded := true) else faces[f];
      bind := bind - gone;
      var person := persons[p];
      if person.hero.Some? && person.hero.value in assets {
        person := person.(hero := None);
      }
      persons := persons[p := person];
      assert Value() == Stripped(s, p, gone, assets);
      RecomputeOneCentroid(p, m);
      if forall f | f in bind :: bind[f] != p {
        if !KeptWhenEmpty(persons[p]) {
          persons := persons - {p};
        }
      }
      return Some(|gone|);
    }

    method PurgePerson(p: PersonId) returns (ok: bool)
      modifies this`faces, this`bind, this`persons
      ensures ok <==> p in old(persons)
      ensures Value() == if ok then Purged(old(Value()), p) else old(Value())
    {
      if p !in persons { return false; }
      var gone := set f | f in bind && bind[f] == p;
      faces := map f | f in faces :: if f in gone then faces[f].(excluded := true) else faces[f];
      bind := bind - gone;
      persons := persons - {p};
      return true;
    }

    /** The first half of SetPersonCover: reads the person's active faces on the asset and picks the largest. */
    method ReadPin(p: PersonId, asset: AssetId, m: Metric) returns (best: Option<FaceId>)
      ensures best == PinnedFace(Value(), p, asset, m)
    {
      var candidates := OnAsset(Store(faces, order, bind, persons), p, asset, order);
      if |candidates| == 0 { return None; }
      var k := 0;
      for i := 1 to |candidates|
        invariant k < i
        invariant forall j :: 0 <= j < i ==> m.area(candidates[j]) <= m.area(candidates[k]) && (j < k ==> m.area(candidates[j]) < m.area(candidates[k]))
      {
        if m.area(candidates[i]) > m.area(candidates[k]) {
          k := i;
        }
      }
      ghost var areas := seq(|candidates|, i requires 0 <= i < |candidates| => m.area(candidates[i]));
      assert areas[k] == areas[FirstLargest(areas)] && k == FirstLargest(areas);
      assert candidates[k] in candidates;
      best := Some(candidates[k]);
    }

    /** The second half, a statement of its own: the UPDATE, which matches no row when the person is gone. */
    method WritePin(p: PersonId, best: FaceId, asset: AssetId) returns (ok: bool)
      modifies this`persons
      ensures ok <==> p in old(persons)
      ensures Value() == PinWritten(old(Value()), p, best, asset)
    {
      ok := p in persons;
      if ok {
        persons := persons[p := persons[p].(coverFace := Some(best), coverAsset := Some(asset), locked := true)];
      }
    }

    /** Both halves with nothing between them. */
    method SetPersonCover(p: PersonId, asset: AssetId, m: Metric) returns (cover: Option<FaceId>)
      modifies this`persons
      ensures cover == if p in old(persons) then PinnedFace(old(Value()), p, asset, m) else None
      ensures Value() == if cover.Some? then PinWritten(old(Value()), p, cover.value, asset) else old(Value())
    {
      cover := ReadPin(p, asset, m);
      if cover.Some? {
        var ok := WritePin(p, cover.value, asset);
        if !ok { cover := None; }
      }
    }

    method UnlockPersonCover(p: PersonId, m: Metric) returns (ok: bool)
      modifies this`persons
      ensures ok <==> p in old(persons)
      ensures Value() == if ok then Unlocked(old(Value()), p, m) else old(Value())
    {
      if p !in persons { return false; }
      persons := persons[p := persons[p].(locked := false)];
      RecomputeOneCentroid(p, m);
      return true;
    }

    // -------------------------------------------------------------- the full rebuild

    method LoadMetas() returns (metas: seq<Meta>)
      ensures Metas(persons, metas)
    {
      metas := [];
      var rest := persons.Keys;
      while rest != {}
        invariant rest <= persons.Keys
        invariant forall k :: 0 <= k < |metas| ==> MetaOf(persons, metas[k]) && metas[k].id !in rest
        invariant forall j, k :: 0 <= j < k < |metas| ==> metas[j].id != metas[k].id
        invariant forall p :: p in persons && p !in rest ==> Listed(metas, p)
        decreases rest
      {
        var p :| p in rest;
        ghost var before := metas;
        metas := metas + [Meta(p, persons[p].locked, persons[p].coverFace)];
        rest := rest - {p};
        ListedSnoc(before, metas[|before|]);
      }
    }

    /** One turn of the loop of recomputePersonStatsTx: it decides by the lock and cover loaded before the loop, and updates the
        row without reading it. */
    method StatsTurn(meta: Meta, m: Metric)
      requires MetaOf(persons, meta)
      modifies this`persons
      ensures meta.id in persons && persons == old(persons)[meta.id := persons[meta.id]]
      ensures StatsAt(old(Value()), m, meta.id, persons[meta.id])
    {
      var s := Store(faces, order, bind, persons);
      var rows := Rows(s, meta.id);
      if |rows| == 0 {
        persons := persons[meta.id := persons[meta.id].(coverFace := None, coverAsset := None, locked := false)];
        return;
      }
      if meta.locked && meta.cover.Some? {
        if meta.cover.value in rows {
          assert persons[meta.id := persons[meta.id]] == persons;
          return;
        }
        persons := persons[meta.id := persons[meta.id].(locked := false)];
      }
      var best := ChooseCover(rows, m);
      persons := persons[meta.id := persons[meta.id].(coverFace := Some(best), coverAsset := AssetOf(s, best))];
    }

    /** recomputePersonStatsTx. */
    method RecomputePersonStats(m: Metric)
      modifies this`persons
      ensures StatsDone(old(Value()), m, Value())
    {
      ghost var s := Value();
      var metas := LoadMetas();
      for k := 0 to |metas|
        invariant StatsUpTo(s, m, metas, k, persons)
      {
        ghost var now := Value();
        StatsTurn(metas[k], m);
        StatsStep(s, m, metas, k, now, Value());
      }
      StatsEnd(s, m, metas, Value());
    }

    /** One turn of step 3: a loaded face that is not anchored goes to the nearest anchor, or is listed. */
    method SnapOne(snapshot: seq<FaceId>, anchors: seq<Anchor>, anchoredFaces: set<FaceId>, m: Metric, s: Store, i: nat, free: seq<nat>)
      returns (ok: bool, free': seq<nat>)
      requires faces == s.faces && AnchorList(s, anchors) && anchoredFaces == AnchoredFaces(s) && Distinct(snapshot)
      requires i < |snapshot| && Snapped(s, snapshot, m, i, Snaps(bind, free))
      modifies this`bind
      ensures ok ==> Snapped(s, snapshot, m, i + 1, Snaps(bind, free'))
      ensures ok <==> RowFor(s, m, snapshot[i])
    {
      var f := snapshot[i];
      free' := free;
      SnapStep(s, snapshot, m, i, bind, free);
      if f in anchoredFaces { return true, free; }
      var best := NearestAnchor(s, anchors, m, f);
      if best.Some? {
        if f in bind || f !in faces { return false, free; }
        bind := bind[f := best.value];
      } else {
        free' := free + [i];
      }
      ok := true;
    }

    /** Step 3: binds each loaded face that is near an anchor and lists the others; fails on a face that is gone. */
    method SnapFaces(snapshot: seq<FaceId>, anchors: seq<Anchor>, anchoredFaces: set<FaceId>, m: Metric, s: Store)
      returns (ok: bool, free: seq<nat>)
      requires faces == s.faces && AnchorList(s, anchors) && anchoredFaces == AnchoredFaces(s) && Distinct(snapshot)
      requires Snapped(s, snapshot, m, 0, Snaps(bind, []))
      modifies this`bind
      ensures ok ==> Snapped(s, snapshot, m, |snapshot|, Snaps(bind, free))
      ensures ok <==> RowsFor(s, m, snapshot, |snapshot|)
    {
      free := [];
      for i := 0 to |snapshot|
        invariant Snapped(s, snapshot, m, i, Snaps(bind, free))
        invariant RowsFor(s, m, snapshot, i)
      {
        ok, free := SnapOne(snapshot, anchors, anchoredFaces, m, s, i, free);
        if !ok { return; }
      }
      ok := true;
    }

    /** The person a label stands for, created when the label is new. */
    method PersonFor(l: int, byLabel: map<int, PersonId>, used: set<PersonId>) returns (pid: PersonId)
      modifies this`persons
      ensures l in byLabel ==> pid == byLabel[l] && persons == old(persons)
      ensures l !in byLabel ==> pid !in old(persons) && pid !in used && persons == old(persons)[pid := NEW_PERSON]
    {
      if l in byLabel {
        pid := byLabel[l];
      } else {
        pid := NewId(used + persons.Keys);
        persons := persons[pid := NEW_PERSON];
      }
    }

    /** One turn of step 4: the k-th remaining face joins the person of its label. */
    method GroupOne(snapshot: seq<FaceId>, labels: seq<int>, free: seq<nat>, used: set<PersonId>, ghost s: Store, ghost snapped: map<FaceId, PersonId>,
                    k: nat, byLabel: map<int, PersonId>) returns (ok: bool, byLabel': map<int, PersonId>)
      requires k < |free| && used == s.persons.Keys
      requires GroupedUpTo(s, snapshot, labels, free, snapped, k, bind, persons, byLabel) && FaceAt(snapshot, free, k) !in bind
      modifies this`bind, this`persons
      ensures ok ==> GroupedUpTo(s, snapshot, labels, free, snapped, k + 1, bind, persons, byLabel')
      ensures ok <==> FaceAt(snapshot, free, k) in faces
    {
      var f, l := FaceAt(snapshot, free, k), LabelAt(labels, free, k);
      ghost var before := persons;
      var pid := PersonFor(l, byLabel, used);
      PersonsStep(s, labels, free, k, before, byLabel, pid);
      BindStep(snapshot, labels, free, snapped, k, bind, byLabel, pid);
      byLabel' := byLabel[l := pid];
      ok := f !in bind && f in faces;
      if ok {
        bind := bind[f := pid];
      }
    }

    /** Step 4: one new person per cluster label among the faces that are left. */
    method GroupRest(snapshot: seq<FaceId>, labels: seq<int>, free: seq<nat>, used: set<PersonId>, ghost s: Store)
      returns (ok: bool, ghost byLabel': map<int, PersonId>)
      requires used == s.persons.Keys
      requires GroupedUpTo(s, snapshot, labels, free, bind, 0, bind, persons, map[]) && FreshFaces(snapshot, free, bind)
      modifies this`bind, this`persons
      ensures ok ==> GroupedUpTo(s, snapshot, labels, free, old(bind), |free|, bind, persons, byLabel')
      ensures ok <==> Present(faces, snapshot, free, |free|)
    {
      var byLabel: map<int, PersonId> := map[];
      byLabel' := byLabel;
      ghost var snapped := bind;
      for k := 0 to |free|
        invariant GroupedUpTo(s, snapshot, labels, free, snapped, k, bind, persons, byLabel)
        invariant Present(faces, snapshot, free, k)
      {
        NotYetBound(s, snapshot, labels, free, snapped, k, bind, persons, byLabel);
        PresentStep(faces, snapshot, free, k);
        ok, byLabel := GroupOne(snapshot, labels, free, used, s, snapped, k, byLabel);
        if !ok { return; }
      }
      byLabel' := byLabel;
      ok := true;
    }

    /** Steps 1 to 4; what a failure leaves half done is undone by the caller. */
    method Rebind(snapshot: seq<FaceId>, labels: seq<int>, m: Metric, s: Store) returns (ok: bool)
      requires |labels| == |snapshot| && Distinct(snapshot) && Bound(s) && s == Value()
      modifies this`bind, this`persons
      ensures ok ==> Rebound(s, snapshot, labels, m, bind, persons.Keys) && forall p :: p in persons ==> persons[p] == BasePerson(s, p)
      ensures ok <==> forall f :: f in snapshot && f !in AnchoredFaces(s) ==> f in faces
    {
      var anchors := LoadAnchors(s);
      var anchoredFaces := AnchoredFaces(s);
      bind := map f | f in bind && Anchored(persons[bind[f]]) :: bind[f];
      persons := map p | p in persons && Anchored(persons[p]) :: persons[p];
      var free;
      ok, free := SnapFaces(snapshot, anchors, anchoredFaces, m, s);
      if ok {
        ghost var snapped := bind;
        GroupStart(s, snapshot, labels, m, free, snapped, persons);
        ListedFresh(s, snapshot, m, free, snapped);
        AllPresent(s, snapshot, m, snapped, free);
        ghost var byLabel;
        ok, byLabel := GroupRest(snapshot, labels, free, s.persons.Keys, s);
        if ok { GroupEnds(s, snapshot, labels, m, free, snapped, bind, persons, byLabel); }
      }
    }

    /** The whole transaction: commits a rebuild, or fails on a face that is gone and changes nothing. */
    method RebuildPersons(snapshot: seq<FaceId>, labels: seq<int>, m: Metric) returns (ok: bool)
      requires |labels| == |snapshot| && Distinct(snapshot) && Bound(Value())
      modifies this`bind, this`persons
      ensures ok <==> forall f :: f in snapshot && f !in AnchoredFaces(old(Value())) ==> f in faces
      ensures ok ==> Rebuilt(old(Value()), snapshot, labels, m, Value())
      ensures !ok ==> Value() == old(Value())
    {
      var s := Store(faces, order, bind, persons);
      ok := Rebind(snapshot, labels, m, s);
      if ok {
        ghost var rebound := Value();
        RecomputePersonStats(m);
        StatsRebuilt(s, snapshot, labels, m, rebound, Value());
      } else {
        bind, persons := s.bind, s.persons;
      }
    }
  }

  lemma StatsRebuilt(s: Store, snapshot: seq<FaceId>, labels: seq<int>, m: Metric, rebound: Store, t: Store)
    requires |labels| == |snapshot| && rebound.faces == s.faces && rebound.order == s.order && StatsDone(rebound, m, t)
    requires Rebound(s, snapshot, labels, m, rebound.bind, rebound.persons.Keys)
    requires forall p :: p in rebound.persons ==> rebound.persons[p] == BasePerson(s, p)
    ensures Rebuilt(s, snapshot, labels, m, t)
  {
    forall p | p in t.persons ensures CoverRule(t, p, m, BasePerson(s, p), t.persons[p]) && SameIdentity(BasePerson(s, p), t.persons[p]) {
      assert StatsAt(rebound, m, p, t.persons[p]);
      CoverRuleFrame(rebound, t, p, m, BasePerson(s, p), t.persons[p]);
    }
  }

  /** The faces a rebuild has to insert are those snapped and those listed as free. */
  lemma AllPresent(s: Store, snapshot: seq<FaceId>, m: Metric, snapped: map<FaceId, PersonId>, free: seq<nat>)
    requires SnappedUpTo(s, snapshot, m, |snapshot|, snapped, free) && Distinct(snapshot)
    requires RowsFor(s, m, snapshot, |snapshot|)
    ensures Present(s.faces, snapshot, free, |free|) <==> forall f :: f in snapshot && f !in AnchoredFaces(s) ==> f in s.faces
  {
    if Present(s.faces, snapshot, free, |free|) {
      forall f | f in snapshot && f !in AnchoredFaces(s) ensures f in s.faces {
        var i: nat :| i < |snapshot| && snapshot[i] == f;
        assert RowFor(s, m, snapshot[i]);
        if OutOfReach(s, m, f) {
          assert Remaining(s, m, snapshot, i);
          var j := ListedFree(s, snapshot, m, snapped, free, i);
        }
      }
    }
    if forall f :: f in snapshot && f !in AnchoredFaces(s) ==> f in s.faces {
      forall j: nat | j < |free| ensures free[j] < |snapshot| && FaceAt(snapshot, free, j) in s.faces {
        assert Remaining(s, m, snapshot, free[j]);
      }
    }
  }
}
