/** Faces, persons and covers: what one recomputation, edit or rebuild does to the tables. */
module People {
  import opened Options

  type FaceId = nat
  type PersonId = nat
  type AssetId = nat

  /** A face_detections row; `excluded` marks a face the user took away from a person. */
  datatype Face = Face(asset: AssetId, excluded: bool)

  datatype Person = Person(name: string, favorite: bool, relation: string, hidden: bool,
                           coverFace: Option<FaceId>, coverAsset: Option<AssetId>, locked: bool, hero: Option<AssetId>)

  /** The tables. face_person has the face as its primary key, so `bind` is a map; `order` is the row order of the faces. */
  datatype Store = Store(faces: map<FaceId, Face>, order: seq<FaceId>, bind: map<FaceId, PersonId>, persons: map<PersonId, Person>)

  /** What the vectors, scores and boxes say: the hybrid cover score (-1 when incomparable), the distance of a
      face to the centroid of some faces, and the area of a box. */
  datatype Metric = Metric(hybrid: FaceId -> real, toCentroid: (FaceId, seq<FaceId>) -> real, area: FaceId -> real)

  const NEW_PERSON := Person("", false, "", false, None, None, false, None)

  const ASSIGN_EPSILON: real := 0.55

  // ---------------------------------------------------------------- choosing a cover

  /** The first index with the largest value above `floor`, if there is one. */
  function FirstMax(v: seq<real>, floor: real): (r: Option<nat>)
    ensures r.Some? ==> r.value < |v| && v[r.value] > floor
    ensures r.Some? ==> forall i :: 0 <= i < |v| ==> v[i] <= v[r.value] && (i < r.value ==> v[i] < v[r.value])
    ensures r.None? ==> forall i :: 0 <= i < |v| ==> v[i] <= floor
  {
    if v == [] then None
    else
      var last := |v| - 1;
      var r := FirstMax(v[..last], floor);
      assert forall i :: 0 <= i < last ==> v[i] == v[..last][i];
      if v[last] > (if r.Some? then v[r.value] else floor) then Some(last) else r
  }

  function Negated(v: seq<real>): (r: seq<real>)
    ensures |r| == |v| && forall i :: 0 <= i < |v| ==> r[i] == -v[i]
  {
    seq(|v|, i requires 0 <= i < |v| => -v[i])
  }

  /** Which of the faces becomes the cover: the best hybrid score, or the nearest to the centroid when none is comparable. */
  function CoverIndex(hybrid: seq<real>, dist: seq<real>): (r: nat)
    requires 0 < |hybrid| == |dist|
    ensures r < |hybrid|
    ensures (exists i :: 0 <= i < |hybrid| && hybrid[i] >= 0.0) ==>
              forall i :: 0 <= i < |hybrid| ==> hybrid[i] <= hybrid[r] && (i < r ==> hybrid[i] < hybrid[r])
    ensures (forall i :: 0 <= i < |hybrid| ==> hybrid[i] < 0.0) && (exists i :: 0 <= i < |dist| && dist[i] < 2.0) ==>
              forall i :: 0 <= i < |dist| ==> dist[r] <= dist[i] && (i < r ==> dist[r] < dist[i])
    ensures (forall i :: 0 <= i < |hybrid| ==> hybrid[i] < 0.0) && (forall i :: 0 <= i < |dist| ==> dist[i] >= 2.0) ==> r == 0
  {
    var byScore := FirstMax(hybrid, -1.0);
    if byScore.Some? && hybrid[byScore.value] >= 0.0 then byScore.value
    else
      var neg := Negated(dist);
      var nearest := FirstMax(neg, -2.0);
      assert nearest.None? ==> forall i :: 0 <= i < |dist| ==> neg[i] <= -2.0 && dist[i] >= 2.0;
      assert nearest.Some? ==> forall i :: 0 <= i < |dist| ==> neg[i] == -dist[i];
      if nearest.Some? then nearest.value else 0
  }

  /** selectCoverFace: one pass for the best score, a second for the nearest face. */
  method SelectCoverFace(hybrid: seq<real>, dist: seq<real>) returns (best: nat)
    requires 0 < |hybrid| == |dist|
    ensures best == CoverIndex(hybrid, dist)
  {
    var found, bestHybrid := None, -1.0;
    for i := 0 to |hybrid|
      invariant found == FirstMax(hybrid[..i], -1.0)
      invariant bestHybrid == if found.Some? then hybrid[found.value] else -1.0
    {
      assert hybrid[..i + 1][..i] == hybrid[..i];
      if hybrid[i] > bestHybrid {
        bestHybrid := hybrid[i];
        found := Some(i);
      }
    }
    assert hybrid[..|hybrid|] == hybrid;
    if bestHybrid < 0.0 {
      best := 0;
      var bestDist := 2.0;
      ghost var neg := Negated(dist);
      for i := 0 to |dist|
        invariant var r := FirstMax(neg[..i], -2.0);
                  best == (if r.Some? then r.value else 0) && bestDist == (if r.Some? then dist[r.value] else 2.0)
      {
        assert neg[..i + 1][..i] == neg[..i];
        if dist[i] < bestDist {
          bestDist := dist[i];
          best := i;
        }
      }
      assert neg[..|dist|] == neg;
    } else {
      best := found.value;
    }
  }

  function Clamp01(v: real): real {
    if v < 0.0 then 0.0 else if v > 1.0 then 1.0 else v
  }

  /** Detector score, frontality and sharpness combined; a missing signal is neutral. */
  function FaceQualityFactor(detScore: Option<real>, frontality: Option<real>, sharpness: Option<real>): (q: real)
    ensures 0.0 <= q <= 1.0
    ensures detScore.None? ==> q >= 0.25
  {
    var q := if detScore.Some? then Clamp01(detScore.value) else 1.0;
    var f := if frontality.Some? then 0.5 + 0.5 * Clamp01(frontality.value) else 1.0;
    var s := if sharpness.Some? then 0.5 + 0.5 * Clamp01(sharpness.value) else 1.0;
    ProductInUnit(q, f);
    ProductInUnit(q * f, s);
    assert detScore.None? ==> f * s >= 0.25 by { HalfProduct(f, s); }
    q * f * s
  }

  lemma NonNegative(a: real, b: real)
    requires a >= 0.0 && b >= 0.0
    ensures a * b >= 0.0
  {
  }

  lemma ProductInUnit(a: real, b: real)
    requires 0.0 <= a <= 1.0 && 0.0 <= b <= 1.0
    ensures 0.0 <= a * b <= 1.0
  {
    NonNegative(a, b);
    NonNegative(1.0 - a, b);
    assert (1.0 - a) * b == b - a * b;
  }

  lemma HalfProduct(a: real, b: real)
    requires 0.5 <= a && 0.5 <= b
    ensures 0.25 <= a * b
  {
    assert (a - 0.5) * (b - 0.5) >= 0.0;
  }

  /** Aesthetics times area ratio times quality; -1 exactly when the face cannot be compared. `area` is absent for an unparseable box. */
  function HybridCoverScore(score: Option<real>, area: Option<real>, w: Option<int>, h: Option<int>, quality: real): (r: real)
    requires 0.0 <= quality <= 1.0
    ensures r == -1.0 || 0.0 <= r <= 1.0
    ensures r == -1.0 <==> score.None? || w.None? || h.None? || w.value <= 0 || h.value <= 0 || area.None? || area.value <= 0.0
  {
    if score.None? || w.None? || h.None? || w.value <= 0 || h.value <= 0 then -1.0
    else if area.None? || area.value <= 0.0 then -1.0
    else
      assert w.value * h.value > 0;
      var ratio := area.value / ((w.value * h.value) as real);
      var r := if ratio > 1.0 then 1.0 else ratio;
      var aest := Clamp01((score.value - 1.0) / 9.0);
      assert 0.0 <= ratio by { QuotientPositive(area.value, (w.value * h.value) as real); }
      ProductInUnit(aest, r);
      ProductInUnit(aest * r, quality);
      aest * r * quality
  }

  lemma QuotientPositive(a: real, b: real)
    requires a > 0.0 && b > 0.0
    ensures a / b >= 0.0
  {
  }

  /** The score of a face that covers the share c of a picture whose aesthetic score is a of the way from 1 to 10: the product
      of the two with the quality. */
  lemma HybridScores(a: real, c: real, w: int, h: int, q: real)
    requires 0.0 <= a <= 1.0 && 0.0 < c <= 1.0 && w > 0 && h > 0 && 0.0 <= q <= 1.0
    ensures HybridCoverScore(Some(1.0 + 9.0 * a), Some(c * (w * h) as real), Some(w), Some(h), q) == a * c * q
  {
    assert w * h > 0;
    PositiveProduct(c, (w * h) as real);
    Cancel(c, (w * h) as real);
    HybridAt(1.0 + 9.0 * a, c * (w * h) as real, w, h, q, a, c);
  }

  lemma HybridAt(score: real, area: real, w: int, h: int, q: real, a: real, c: real)
    requires w > 0 && h > 0 && 0.0 <= q <= 1.0 && 0.0 <= a <= 1.0 && c <= 1.0 && area > 0.0
    requires w * h > 0 && area / (w * h) as real == c && score == 1.0 + 9.0 * a
    ensures HybridCoverScore(Some(score), Some(area), Some(w), Some(h), q) == a * c * q
  {
    assert Clamp01((score - 1.0) / 9.0) == a;
  }

  /** Beyond either end of the aesthetic scale, and beyond the whole picture, nothing more counts. */
  lemma HybridEnds(score: Option<real>, area: real, w: int, h: int, q: real, beyond: real)
    requires w > 0 && h > 0 && 0.0 <= q <= 1.0
    ensures beyond < 1.0 ==> HybridCoverScore(Some(beyond), Some(area), Some(w), Some(h), q) == HybridCoverScore(Some(1.0), Some(area), Some(w), Some(h), q)
    ensures beyond > 10.0 ==> HybridCoverScore(Some(beyond), Some(area), Some(w), Some(h), q) == HybridCoverScore(Some(10.0), Some(area), Some(w), Some(h), q)
    ensures beyond > (w * h) as real ==>
              HybridCoverScore(score, Some(beyond), Some(w), Some(h), q) == HybridCoverScore(score, Some((w * h) as real), Some(w), Some(h), q)
  {
    assert w * h > 0;
    var all := (w * h) as real;
    assert Clamp01((1.0 - 1.0) / 9.0) == 0.0 && Clamp01((10.0 - 1.0) / 9.0) == 1.0;
    if beyond < 1.0 { assert Clamp01((beyond - 1.0) / 9.0) == 0.0; }
    if beyond > 10.0 { assert Clamp01((beyond - 1.0) / 9.0) == 1.0; }
    if beyond > all {
      ShareAbove(beyond, all);
      Cancel(1.0, all);
    }
  }

  lemma PositiveProduct(a: real, b: real)
    requires a > 0.0 && b > 0.0
    ensures a * b > 0.0
  {
  }

  lemma Cancel(c: real, b: real)
    requires b > 0.0
    ensures c * b / b == c
  {
  }

  lemma ShareAbove(more: real, all: real)
    requires more > all > 0.0
    ensures more / all > 1.0
  {
  }

  /** The quality is a product of one factor per signal, and a missing signal counts for nothing. */
  lemma QualityFactors(detScore: Option<real>, frontality: Option<real>, sharpness: Option<real>)
    ensures FaceQualityFactor(detScore, frontality, sharpness) ==
            FaceQualityFactor(detScore, None, None) * FaceQualityFactor(None, frontality, None) * FaceQualityFactor(None, None, sharpness)
    ensures FaceQualityFactor(None, None, None) == 1.0
  {
  }

  /** The factor of a detector score is the score itself; those of the other two signals run from a half to one; a signal
      outside the unit interval counts as the nearer end. */
  lemma QualityOfOne(v: real)
    ensures FaceQualityFactor(Some(v), None, None) == if v < 0.0 then 0.0 else if v > 1.0 then 1.0 else v
    ensures FaceQualityFactor(None, Some(v), None) == FaceQualityFactor(None, None, Some(v))
    ensures 2.0 * FaceQualityFactor(None, Some(v), None) == if v < 0.0 then 1.0 else if v > 1.0 then 2.0 else 1.0 + v
  {
  }

  // ---------------------------------------------------------------- one person's recomputation

  predicate Active(s: Store, p: PersonId, f: FaceId) {
    f in s.bind && s.bind[f] == p && f in s.faces && !s.faces[f].excluded
  }

  function Filter(s: Store, p: PersonId, order: seq<FaceId>): (r: seq<FaceId>)
    ensures forall f :: f in r <==> f in order && Active(s, p, f)
  {
    if order == [] then []
    else
      var t := Filter(s, p, order[..|order| - 1]);
      var f := order[|order| - 1];
      assert forall g :: g in order <==> g in order[..|order| - 1] || g == f;
      if Active(s, p, f) then t + [f] else t
  }

  /** The person's active faces, in row order. */
  function Rows(s: Store, p: PersonId): (r: seq<FaceId>)
    ensures forall f :: f in r <==> f in s.order && Active(s, p, f)
  {
    Filter(s, p, s.order)
  }

  /** The i-th face has the best score; when no face can be compared, it is the nearest to the centroid below distance 2; when
      there is none of those either, it is the first. Of equals it is the first. */
  ghost predicate Chosen(rows: seq<FaceId>, m: Metric, i: nat) {
    i < |rows| &&
    if exists j :: 0 <= j < |rows| && m.hybrid(rows[j]) >= 0.0 then
      forall j :: 0 <= j < |rows| ==> m.hybrid(rows[j]) <= m.hybrid(rows[i]) && (j < i ==> m.hybrid(rows[j]) < m.hybrid(rows[i]))
    else if exists j :: 0 <= j < |rows| && m.toCentroid(rows[j], rows) < 2.0 then
      forall j :: 0 <= j < |rows| ==>
        && m.toCentroid(rows[i], rows) <= m.toCentroid(rows[j], rows)
        && (j < i ==> m.toCentroid(rows[i], rows) < m.toCentroid(rows[j], rows))
    else i == 0
  }

  ghost predicate ChosenFace(rows: seq<FaceId>, m: Metric, f: FaceId) {
    exists i: nat :: Chosen(rows, m, i) && rows[i] == f
  }

  /** There is one such face. */
  lemma ChosenUnique(rows: seq<FaceId>, m: Metric, f: FaceId, g: FaceId)
    requires ChosenFace(rows, m, f) && ChosenFace(rows, m, g)
    ensures f == g && f in rows
  {
    var i: nat :| Chosen(rows, m, i) && rows[i] == f;
    var j: nat :| Chosen(rows, m, j) && rows[j] == g;
  }

  function BestRow(rows: seq<FaceId>, m: Metric): (f: FaceId)
    requires rows != []
    ensures f in rows && ChosenFace(rows, m, f)
  {
    var hybrid := seq(|rows|, i requires 0 <= i < |rows| => m.hybrid(rows[i]));
    var dist := seq(|rows|, i requires 0 <= i < |rows| => m.toCentroid(rows[i], rows));
    var best := CoverIndex(hybrid, dist);
    assert forall i :: 0 <= i < |rows| ==> hybrid[i] == m.hybrid(rows[i]) && dist[i] == m.toCentroid(rows[i], rows);
    assert Chosen(rows, m, best);
    rows[best]
  }

  function AssetOf(s: Store, f: FaceId): Option<AssetId> {
    if f in s.faces then Some(s.faces[f].asset) else None
  }

  predicate SameCover(a: Person, b: Person) {
    a.coverFace == b.coverFace && a.coverAsset == b.coverAsset && a.locked == b.locked
  }

  /** The fields that are the user's and not the cover's. */
  predicate SameIdentity(a: Person, b: Person) {
    a.name == b.name && a.favorite == b.favorite && a.relation == b.relation && a.hidden == b.hidden && a.hero == b.hero
  }

  predicate PinHolds(rows: seq<FaceId>, person: Person) {
    person.locked && person.coverFace.Some? && person.coverFace.value in rows
  }

  /** What any recomputation owes the cover: none without active faces, a pin that still holds as it is, and otherwise the
      best face, with a pin that no longer holds dropped. */
  ghost predicate CoverRule(s: Store, p: PersonId, m: Metric, before: Person, after: Person) {
    var rows := Rows(s, p);
    if rows == [] then after.coverFace == None && after.coverAsset == None && !after.locked
    else if PinHolds(rows, before) then SameCover(before, after)
    else
      && after.coverFace.Some? && ChosenFace(rows, m, after.coverFace.value) && after.coverAsset == AssetOf(s, after.coverFace.value)
      && after.locked == (before.locked && before.coverFace.None?)
  }

  /** The person row after recomputeOneCentroidTx, which also clears the hero of a person without active faces. */
  function OneCentroid(s: Store, p: PersonId, person: Person, m: Metric): (r: Person)
    ensures CoverRule(s, p, m, person, r)
    ensures SameIdentity(person, r.(hero := person.hero)) && r.hero == if Rows(s, p) == [] then None else person.hero
  {
    var rows := Rows(s, p);
    if rows == [] then person.(coverFace := None, coverAsset := None, locked := false, hero := None)
    else if PinHolds(rows, person) then person
    else
      var best := BestRow(rows, m);
      person.(coverFace := Some(best), coverAsset := AssetOf(s, best), locked := person.locked && person.coverFace.None?)
  }

  // ---------------------------------------------------------------- the invariant

  /** A cover is one of the person's own active faces, shown by its own asset; a locked cover is not empty. */
  ghost predicate CoverOk(s: Store, p: PersonId, person: Person) {
    && (person.coverFace.Some? ==> Active(s, p, person.coverFace.value) && person.coverAsset == AssetOf(s, person.coverFace.value))
    && (person.locked ==> person.coverFace.Some?)
  }

  ghost predicate Bound(s: Store) {
    && (forall f :: f in s.bind ==> f in s.faces && s.bind[f] in s.persons)
    && (forall f :: f in s.faces ==> f in s.order)
  }

  ghost predicate Clean(s: Store) {
    forall f :: f in s.bind && f in s.faces ==> !s.faces[f].excluded
  }

  ghost predicate Good(s: Store) {
    Bound(s) && Clean(s) && forall p :: p in s.persons ==> CoverOk(s, p, s.persons[p])
  }

  /** A recomputed cover is sound: empty or an own active face shown by its own asset, and set when locked. */
  lemma CoverRuleOk(s: Store, p: PersonId, m: Metric, before: Person, after: Person)
    requires Bound(s) && CoverRule(s, p, m, before, after)
    requires before.coverFace.Some? && before.locked && Active(s, p, before.coverFace.value) ==> before.coverAsset == AssetOf(s, before.coverFace.value)
    ensures CoverOk(s, p, after)
  {
    var rows := Rows(s, p);
    if rows != [] && !PinHolds(rows, before) { ChosenUnique(rows, m, after.coverFace.value, after.coverFace.value); }
  }

  /** The rule decides the cover: recomputations of one person from the same rows and the same cover end with the same one. */
  lemma CoverRuleDecides(s: Store, t: Store, p: PersonId, m: Metric, before: Person, after: Person, before': Person, after': Person)
    requires s.faces == t.faces && s.order == t.order && s.bind == t.bind && SameCover(before, before')
    requires CoverRule(s, p, m, before, after) && CoverRule(t, p, m, before', after')
    ensures SameCover(after, after')
  {
    SameRows(s, t, p, s.order);
    var rows := Rows(s, p);
    if rows != [] && !PinHolds(rows, before) { ChosenUnique(rows, m, after.coverFace.value, after'.coverFace.value); }
  }

  /** What a recomputation leaves, read off the tables: without an active face no cover and no lock; a pinned active face and
      its lock as they were. */
  lemma KeptCover(s: Store, p: PersonId, m: Metric, before: Person, after: Person)
    requires Bound(s) && CoverRule(s, p, m, before, after)
    ensures (forall f :: f in s.bind && s.bind[f] == p && f in s.faces ==> s.faces[f].excluded) ==>
              after.coverFace == None && after.coverAsset == None && !after.locked
    ensures forall f :: f in s.bind && s.bind[f] == p && f in s.faces && !s.faces[f].excluded && before.locked && before.coverFace == Some(f) ==>
              after.coverFace == Some(f) && after.coverAsset == before.coverAsset && after.locked
  {
    assert forall f :: f in Rows(s, p) <==> f in s.bind && s.bind[f] == p && f in s.faces && !s.faces[f].excluded;
    var rows := Rows(s, p);
    if rows != [] { assert rows[0] in rows; }
  }

  /** ... and otherwise the i-th active face, shown by its asset: the first with the best score if a face can be compared, else
      the first nearest to the centroid of all of them if one is nearer than 2, else the first. */
  lemma ReselectedCover(s: Store, p: PersonId, m: Metric, before: Person, after: Person) returns (i: nat)
    requires CoverRule(s, p, m, before, after) && Rows(s, p) != []
    requires before.locked && before.coverFace.Some? ==> before.coverFace.value !in Rows(s, p)
    ensures var rows := Rows(s, p);
            && i < |rows| && after.coverFace == Some(rows[i]) && rows[i] in s.faces && after.coverAsset == Some(s.faces[rows[i]].asset)
            && (after.locked <==> before.locked && before.coverFace.None?)
            && ((exists j :: 0 <= j < |rows| && m.hybrid(rows[j]) >= 0.0) ==>
                  forall j :: 0 <= j < |rows| ==> m.hybrid(rows[j]) <= m.hybrid(rows[i]) && (j < i ==> m.hybrid(rows[j]) < m.hybrid(rows[i])))
            && ((forall j :: 0 <= j < |rows| ==> m.hybrid(rows[j]) < 0.0) ==>
                  forall j :: 0 <= j < |rows| && m.toCentroid(rows[j], rows) < 2.0 ==>
                    && m.toCentroid(rows[i], rows) <= m.toCentroid(rows[j], rows)
                    && (j < i ==> m.toCentroid(rows[i], rows) < m.toCentroid(rows[j], rows)))
            && ((forall j :: 0 <= j < |rows| ==> m.hybrid(rows[j]) < 0.0 && m.toCentroid(rows[j], rows) >= 2.0) ==> i == 0)
  {
    var rows := Rows(s, p);
    i :| Chosen(rows, m, i) && rows[i] == after.coverFace.value;
    assert rows[i] in rows;
  }

  /** The active faces come in the order of the face rows. */
  lemma {:induction false} RowsInOrder(s: Store, p: PersonId, order: seq<FaceId>, i: nat, j: nat) returns (a: nat, b: nat)
    requires i < j < |Filter(s, p, order)|
    ensures a < b < |order| && order[a] == Filter(s, p, order)[i] && order[b] == Filter(s, p, order)[j]
  {
    var last := |order| - 1;
    var init := Filter(s, p, order[..last]);
    if j < |init| {
      a, b := RowsInOrder(s, p, order[..last], i, j);
    } else {
      b := last;
      assert init[i] in init;
      a :| 0 <= a < last && order[a] == init[i];
    }
  }

  lemma {:induction false} SameRows(s: Store, t: Store, p: PersonId, order: seq<FaceId>)
    requires forall f :: f in order ==> (Active(s, p, f) <==> Active(t, p, f))
    ensures Filter(s, p, order) == Filter(t, p, order)
  {
    if order != [] {
      assert order[|order| - 1] in order;
      SameRows(s, t, p, order[..|order| - 1]);
    }
  }
}
