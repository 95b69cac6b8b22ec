/** rebuildPersonsWithProgress: anchored persons survive, free faces snap to the
    nearest anchor, the rest become new persons by cluster label. */
module Rebuild {
  import opened People
  import opened PersonEdits

  // ---------------------------------------------------------------- what a committed rebuild leaves

  function AnchorIds(s: Store): set<PersonId> {
    set p | p in s.persons && Anchored(s.persons[p])
  }

  function AnchoredFaces(s: Store): set<FaceId> {
    set f | f in s.bind && s.bind[f] in AnchorIds(s)
  }

  /** An anchor with active faces has a centroid to snap to. */
  predicate HasCentroid(s: Store, a: PersonId) {
    a in AnchorIds(s) && Rows(s, a) != []
  }

  function Distance(s: Store, m: Metric, f: FaceId, a: PersonId): real {
    m.toCentroid(f, Rows(s, a))
  }

  /** a is an anchor at minimal distance from f, and within the assign radius. */
  ghost predicate Nearest(s: Store, m: Metric, f: FaceId, a: PersonId) {
    && HasCentroid(s, a) && Distance(s, m, f, a) <= ASSIGN_EPSILON
    && forall b :: HasCentroid(s, b) ==> Distance(s, m, f, a) <= Distance(s, m, f, b)
  }

  ghost predicate OutOfReach(s: Store, m: Metric, f: FaceId) {
    forall b :: HasCentroid(s, b) ==> Distance(s, m, f, b) > ASSIGN_EPSILON
  }

  /** The i-th loaded face belongs to no anchored person and is near none. */
  ghost predicate Remaining(s: Store, m: Metric, snapshot: seq<FaceId>, i: int) {
    0 <= i < |snapshot| && snapshot[i] !in AnchoredFaces(s) && OutOfReach(s, m, snapshot[i])
  }

  ghost predicate Distinct(snapshot: seq<FaceId>) {
    forall i, j :: 0 <= i < j < |snapshot| ==> snapshot[i] != snapshot[j]
  }

  function BasePerson(s: Store, p: PersonId): Person {
    if p in AnchorIds(s) then s.persons[p] else NEW_PERSON
  }

  /** The faces bound afterwards, and to whom. */
  ghost predicate Rebound(s: Store, snapshot: seq<FaceId>, labels: seq<int>, m: Metric, bind: map<FaceId, PersonId>, persons: set<PersonId>)
    requires |labels| == |snapshot|
  {
    && (forall f :: f in bind <==> f in AnchoredFaces(s) || f in snapshot)
    && (forall f :: f in AnchoredFaces(s) ==> bind[f] == s.bind[f])
    && (forall f :: f in snapshot && f !in AnchoredFaces(s) && !OutOfReach(s, m, f) ==> Nearest(s, m, f, bind[f]))
    && (forall i :: Remaining(s, m, snapshot, i) ==> bind[snapshot[i]] in persons - s.persons.Keys)
    && (forall i, j :: Remaining(s, m, snapshot, i) && Remaining(s, m, snapshot, j) ==>
          (bind[snapshot[i]] == bind[snapshot[j]] <==> labels[i] == labels[j]))
    && AnchorIds(s) <= persons
    && (forall p :: p in persons && p !in AnchorIds(s) ==> exists i :: Remaining(s, m, snapshot, i) && bind[snapshot[i]] == p)
  }

  ghost predicate Rebuilt(s: Store, snapshot: seq<FaceId>, labels: seq<int>, m: Metric, t: Store)
    requires |labels| == |snapshot|
  {
    && t.faces == s.faces && t.order == s.order
    && Rebound(s, snapshot, labels, m, t.bind, t.persons.Keys)
    && forall p :: p in t.persons ==> CoverRule(t, p, m, BasePerson(s, p), t.persons[p]) && SameIdentity(BasePerson(s, p), t.persons[p])
  }

  // ---------------------------------------------------------------- the invariant across a rebuild

  lemma BoundAfter(s: Store, snapshot: seq<FaceId>, labels: seq<int>, m: Metric, t: Store, f: FaceId)
    requires Good(s) && |labels| == |snapshot| && Rebuilt(s, snapshot, labels, m, t) && f in t.bind
    requires forall f :: f in snapshot ==> f in s.faces
    ensures f in t.faces && t.bind[f] in t.persons
  {
    if f !in AnchoredFaces(s) {
      if OutOfReach(s, m, f) {
        var i :| 0 <= i < |snapshot| && snapshot[i] == f;
        assert Remaining(s, m, snapshot, i);
      } else {
        assert Nearest(s, m, f, t.bind[f]);
      }
    }
  }

  lemma CoversAfter(s: Store, snapshot: seq<FaceId>, labels: seq<int>, m: Metric, t: Store, p: PersonId)
    requires Good(s) && |labels| == |snapshot| && Rebuilt(s, snapshot, labels, m, t) && Bound(t) && p in t.persons
    ensures CoverOk(t, p, t.persons[p])
  {
    if p in AnchorIds(s) { assert CoverOk(s, p, s.persons[p]); }
    CoverRuleOk(t, p, m, BasePerson(s, p), t.persons[p]);
  }

  lemma BoundAllAfter(s: Store, snapshot: seq<FaceId>, labels: seq<int>, m: Metric, t: Store)
    requires Good(s) && |labels| == |snapshot| && Rebuilt(s, snapshot, labels, m, t)
    requires forall f :: f in snapshot ==> f in s.faces
    ensures Bound(t)
  {
    forall f | f in t.bind ensures f in t.faces && t.bind[f] in t.persons {
      BoundAfter(s, snapshot, labels, m, t, f);
    }
  }

  lemma CoversAllAfter(s: Store, snapshot: seq<FaceId>, labels: seq<int>, m: Metric, t: Store)
    requires Good(s) && |labels| == |snapshot| && Rebuilt(s, snapshot, labels, m, t) && Bound(t)
    ensures forall p :: p in t.persons ==> CoverOk(t, p, t.persons[p])
  {
    forall p | p in t.persons ensures CoverOk(t, p, t.persons[p]) {
      CoversAfter(s, snapshot, labels, m, t, p);
    }
  }

  lemma CleanAfter(s: Store, snapshot: seq<FaceId>, t: Store)
    requires Clean(s) && t.faces == s.faces && forall f :: f in snapshot ==> f in s.faces
    requires forall f :: f in t.bind <==> f in AnchoredFaces(s) || f in snapshot
    ensures Clean(t) <==> forall f :: f in snapshot ==> !s.faces[f].excluded
  {
  }

  /** A rebuild keeps the tables good exactly when none of the faces it loaded has been excluded meanwhile. */
  lemma RebuildKeepsIffFresh(s: Store, snapshot: seq<FaceId>, labels: seq<int>, m: Metric, t: Store)
    requires Good(s) && |labels| == |snapshot| && Rebuilt(s, snapshot, labels, m, t)
    requires forall f :: f in snapshot ==> f in s.faces
    ensures Good(t) <==> forall f :: f in snapshot ==> !s.faces[f].excluded
  {
    BoundAllAfter(s, snapshot, labels, m, t);
    CoversAllAfter(s, snapshot, labels, m, t);
    CleanAfter(s, snapshot, t);
  }

  /** Anchored persons keep their identity, and their pinned covers while the face is active. */
  lemma AnchorsSurvive(s: Store, snapshot: seq<FaceId>, labels: seq<int>, m: Metric, t: Store, p: PersonId)
    requires Good(s) && |labels| == |snapshot| && Rebuilt(s, snapshot, labels, m, t) && p in AnchorIds(s)
    ensures p in t.persons
    ensures SameIdentity(s.persons[p], t.persons[p])
    ensures forall f :: f in s.bind && s.bind[f] == p ==> f in t.bind && t.bind[f] == p
    ensures s.persons[p].locked ==> t.persons[p].coverFace == s.persons[p].coverFace && t.persons[p].locked
  {
    assert CoverOk(s, p, s.persons[p]);
    forall f | f in s.bind && s.bind[f] == p ensures f in t.bind && t.bind[f] == p {
      assert f in AnchoredFaces(s);
    }
    if s.persons[p].locked {
      var f := s.persons[p].coverFace.value;
      assert Active(t, p, f);
      assert f in Rows(t, p);
    }
  }

  // ---------------------------------------------------------------- what a rebuild does, read off the tables

  /** A person survives exactly when it has a name, a relation, a hero, a pinned cover, or a favourite or hidden mark, and keeps
      all of its faces and who it is. Of the other faces exactly the loaded ones are bound, and no face row changes. */
  lemma RebuildSurvivors(s: Store, snapshot: seq<FaceId>, labels: seq<int>, m: Metric, t: Store)
    requires |labels| == |snapshot| && Rebuilt(s, snapshot, labels, m, t)
    ensures t.faces == s.faces && t.order == s.order
    ensures forall p :: p in s.persons ==>
              var x := s.persons[p];
              p in t.persons <==> x.name != "" || x.relation != "" || x.hero.Some? || x.locked || x.favorite || x.hidden
    ensures forall p :: p in s.persons && p in t.persons ==> SameIdentity(s.persons[p], t.persons[p]) && CoverRule(t, p, m, s.persons[p], t.persons[p])
    ensures forall f :: f in s.bind && s.bind[f] in s.persons && s.bind[f] in t.persons ==> f in t.bind && t.bind[f] == s.bind[f]
    ensures forall f :: f in t.bind <==> f in snapshot || (f in s.bind && s.bind[f] in s.persons && s.bind[f] in t.persons)
  {
    assert forall i :: Remaining(s, m, snapshot, i) ==> t.bind[snapshot[i]] !in s.persons;
    forall f | f in s.bind && s.bind[f] in s.persons && s.bind[f] in t.persons ensures f in AnchoredFaces(s) {
    }
  }

  /** A loaded face whose person does not survive, or that has none, goes to a nearest survivor whose active faces it is within
      0.55 of, if there is one. */
  lemma RebuildSnaps(s: Store, snapshot: seq<FaceId>, labels: seq<int>, m: Metric, t: Store, f: FaceId, a: PersonId)
    requires |labels| == |snapshot| && Rebuilt(s, snapshot, labels, m, t)
    requires f in snapshot && !(f in s.bind && s.bind[f] in s.persons && s.bind[f] in t.persons)
    requires a in s.persons && a in t.persons && Rows(s, a) != [] && m.toCentroid(f, Rows(s, a)) <= 0.55
    ensures var b := t.bind[f];
            b in s.persons && b in t.persons && Rows(s, b) != [] && m.toCentroid(f, Rows(s, b)) <= m.toCentroid(f, Rows(s, a))
  {
    RebuildSurvivors(s, snapshot, labels, m, t);
    assert HasCentroid(s, a) && Distance(s, m, f, a) <= ASSIGN_EPSILON;
    assert !OutOfReach(s, m, f);
  }

  /** Any other such face is nowhere near a survivor; it goes to a new person, nameless and without marks, that holds exactly the
      faces of this kind with its label. */
  lemma RebuildGroups(s: Store, snapshot: seq<FaceId>, labels: seq<int>, m: Metric, t: Store, i: nat, j: nat)
    requires |labels| == |snapshot| && Rebuilt(s, snapshot, labels, m, t) && i < |snapshot| && j < |snapshot|
    requires forall k :: k == i || k == j ==> !(snapshot[k] in s.bind && s.bind[snapshot[k]] in s.persons && s.bind[snapshot[k]] in t.persons)
    requires forall k, a :: (k == i || k == j) && a in s.persons && a in t.persons && Rows(s, a) != [] ==> m.toCentroid(snapshot[k], Rows(s, a)) > 0.55
    ensures snapshot[i] in t.bind && snapshot[j] in t.bind
    ensures t.bind[snapshot[i]] == t.bind[snapshot[j]] <==> labels[i] == labels[j]
    ensures t.bind[snapshot[i]] !in s.persons && t.bind[snapshot[i]] in t.persons
    ensures var x := t.persons[t.bind[snapshot[i]]]; x.name == "" && x.relation == "" && x.hero.None? && !x.favorite && !x.hidden && !x.locked
  {
    RebuildSurvivors(s, snapshot, labels, m, t);
    forall k | k == i || k == j ensures Remaining(s, m, snapshot, k) {
      forall b | HasCentroid(s, b) ensures Distance(s, m, snapshot[k], b) > ASSIGN_EPSILON {
      }
    }
    var p := t.bind[snapshot[i]];
    assert CoverRule(t, p, m, NEW_PERSON, t.persons[p]);
  }

  /** A face detached between the load and the rebuild comes back bound: one person, one stale face. */
  lemma StaleSnapshotRebinds(m: Metric) returns (s: Store, t: Store)
    ensures Good(s) && s.faces == map[7 := Face(1, true)] && s.bind == map[] && s.persons == map[]
    ensures Rebuilt(s, [7], [0], m, t) && 7 in t.bind && t.faces[7].excluded
    ensures !Good(t)
  {
    s := Store(map[7 := Face(1, true)], [7], map[], map[]);
    t := Store(s.faces, [7], map[7 := 3], map[3 := NEW_PERSON]);
    assert Rows(t, 3) == [] by {
      assert Filter(t, 3, [7][..0]) == [];
      assert !Active(t, 3, 7);
    }
    assert Remaining(s, m, [7], 0);
    assert t.bind[[7][0]] == 3;
  }
}
