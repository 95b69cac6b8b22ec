/** Any sequence of rebuilds and edits: what holds of the person tables throughout. */
module PersonRuns {
  import opened Options
  import opened People
  import opened PersonEdits
  import opened Rebuild

  /** A clustering pass loads the faces in one step and commits the persons in a later one. Pinning a cover reads the faces in
      one statement and updates the person in another. Everything else is one transaction or one statement. */
  datatype Event =
    | Load
    | Commit(labels: seq<int>, metric: Metric)
    | Merge(source: PersonId, target: PersonId, metric: Metric)
    | Detach(p: PersonId, assets: set<AssetId>, metric: Metric)
    | Purge(p: PersonId)
    | PinRead(r: nat, p: PersonId, asset: AssetId, metric: Metric)
    | PinWrite(r: nat)
    | Unlock(p: PersonId, metric: Metric)
    | EditIdentity(p: PersonId, person: Person)
    | Detect(f: FaceId, face: Face)

  /** A pin that has chosen its face and not yet written it. */
  datatype PinRequest = PinRequest(p: PersonId, asset: AssetId, face: FaceId)

  /** The tables, the faces a clustering pass has loaded, the faces excluded since then, and the pins under way. */
  datatype World = World(store: Store, loaded: seq<FaceId>, excludedSince: set<FaceId>, pins: map<nat, PinRequest>)

  ghost predicate LoadsActive(s: Store, snapshot: seq<FaceId>) {
    Distinct(snapshot) && forall f :: f in snapshot <==> f in s.faces && !s.faces[f].excluded
  }

  ghost predicate StoreStep(s: Store, snapshot: seq<FaceId>, pins: map<nat, PinRequest>, e: Event, t: Store) {
    match e
    case Load => t == s
    case Commit(labels, m) => |labels| == |snapshot| && Rebuilt(s, snapshot, labels, m, t)
    case Merge(from, into, m) => t == if from != into && from in s.persons && into in s.persons then Merged(s, from, into, m) else s
    case Detach(p, assets, m) => t == if p in s.persons then Detached(s, p, assets, m) else s
    case Purge(p) => t == if p in s.persons then Purged(s, p) else s
    case PinRead(r, p, asset, m) => r !in pins && t == s
    case PinWrite(r) => r in pins && t == PinWritten(s, pins[r].p, pins[r].face, pins[r].asset)
    case Unlock(p, m) => t == if p in s.persons then Unlocked(s, p, m) else s
    case EditIdentity(p, person) => p in s.persons && SameCover(s.persons[p], person) && t == s.(persons := s.persons[p := person])
    case Detect(f, face) => f !in s.faces && !face.excluded && t == s.(faces := s.faces[f := face], order := s.order + [f])
  }

  function NewlyExcluded(s: Store, t: Store): set<FaceId> {
    set f | f in s.faces && f in t.faces && !s.faces[f].excluded && t.faces[f].excluded
  }

  function PinsAfter(w: World, e: Event): map<nat, PinRequest> {
    match e
    case PinRead(r, p, asset, m) =>
      var f := PinnedFace(w.store, p, asset, m);
      if f.Some? then w.pins[r := PinRequest(p, asset, f.value)] else w.pins
    case PinWrite(r) => w.pins - {r}
    case _ => w.pins
  }

  ghost predicate Step(w: World, e: Event, v: World) {
    && StoreStep(w.store, w.loaded, w.pins, e, v.store)
    && v.pins == PinsAfter(w, e)
    && (if e.Load? then LoadsActive(w.store, v.loaded) && v.excludedSince == {}
        else v.loaded == w.loaded && v.excludedSince == w.excludedSince + NewlyExcluded(w.store, v.store))
  }

  ghost predicate MovesAt(trace: seq<World>, events: seq<Event>, k: nat)
    requires k < |events| && |trace| == |events| + 1
  {
    Step(trace[k], events[k], trace[k + 1])
  }

  ghost predicate Run(trace: seq<World>, events: seq<Event>) {
    && |trace| == |events| + 1
    && Good(trace[0].store) && trace[0].loaded == [] && trace[0].excludedSince == {} && trace[0].pins == map[]
    && forall k: nat :: k < |events| ==> MovesAt(trace, events, k)
  }

  /** The loaded faces that are excluded by now are exactly those excluded since the load, and a chosen face is on its asset. */
  ghost predicate Tracks(w: World) {
    && (forall f :: f in w.loaded ==> f in w.store.faces && (w.store.faces[f].excluded ==> f in w.excludedSince))
    && (forall f :: f in w.excludedSince ==> f in w.store.faces && w.store.faces[f].excluded)
    && (forall r :: r in w.pins ==> w.pins[r].face in w.store.faces && w.store.faces[w.pins[r].face].asset == w.pins[r].asset)
  }

  /** No step loses a face, moves it to another asset or takes an exclusion back. */
  lemma FacesOnlyGrow(s: Store, snapshot: seq<FaceId>, pins: map<nat, PinRequest>, e: Event, t: Store)
    requires StoreStep(s, snapshot, pins, e, t)
    ensures forall f :: f in s.faces ==>
              f in t.faces && t.faces[f].asset == s.faces[f].asset && (s.faces[f].excluded ==> t.faces[f].excluded)
  {
  }

  lemma TracksOn(w: World, e: Event, v: World)
    requires Tracks(w) && Step(w, e, v)
    ensures Tracks(v)
  {
    FacesOnlyGrow(w.store, w.loaded, w.pins, e, v.store);
  }

  lemma IdentityKeeps(s: Store, p: PersonId, person: Person)
    requires Good(s) && p in s.persons && SameCover(s.persons[p], person)
    ensures Good(s.(persons := s.persons[p := person]))
  {
    var t := s.(persons := s.persons[p := person]);
    forall q | q in t.persons ensures CoverOk(t, q, t.persons[q]) {
      assert CoverOk(s, q, s.persons[q]);
    }
  }

  lemma DetectKeeps(s: Store, f: FaceId, face: Face)
    requires Good(s) && f !in s.faces && !face.excluded
    ensures Good(s.(faces := s.faces[f := face], order := s.order + [f]))
  {
    var t := s.(faces := s.faces[f := face], order := s.order + [f]);
    forall q | q in t.persons ensures CoverOk(t, q, t.persons[q]) {
      assert CoverOk(s, q, s.persons[q]);
    }
  }

  lemma EditKeeps(s: Store, snapshot: seq<FaceId>, pins: map<nat, PinRequest>, e: Event, t: Store)
    requires Good(s) && StoreStep(s, snapshot, pins, e, t) && !e.Commit? && !e.PinWrite?
    ensures Good(t)
  {
    match e {
      case Load =>
      case PinRead(r, p, asset, m) =>
      case Merge(from, into, m) => if from != into && from in s.persons && into in s.persons { MergeKeeps(s, from, into, m); }
      case Detach(p, assets, m) => if p in s.persons { DetachKeeps(s, p, assets, m); }
      case Purge(p) => PurgeKeeps(s, p);
      case Unlock(p, m) => if p in s.persons { UnlockKeeps(s, p, m); }
      case EditIdentity(p, person) => IdentityKeeps(s, p, person);
      case Detect(f, face) => DetectKeeps(s, f, face);
    }
  }

  /** None of the faces the pass loaded has been excluded since. */
  ghost predicate Untouched(w: World) {
    forall f :: f in w.loaded ==> f !in w.excludedSince
  }

  /** The person of the pin is gone, or the face it chose is still one of the person's active faces. */
  ghost predicate StillPinnable(w: World, r: nat) {
    r in w.pins && w.pins[r].p in w.store.persons ==> Active(w.store, w.pins[r].p, w.pins[r].face)
  }

  /** What each of the two late writes needs at the moment it is made. */
  ghost predicate Timely(w: World, e: Event) {
    && (e.Commit? ==> Untouched(w))
    && (e.PinWrite? ==> StillPinnable(w, e.r))
  }

  lemma GoodOn(w: World, e: Event, v: World)
    requires Good(w.store) && Tracks(w) && Step(w, e, v)
    ensures Good(v.store) <==> Timely(w, e)
  {
    if e.Commit? {
      RebuildKeepsIffFresh(w.store, w.loaded, e.labels, e.metric, v.store);
    } else if e.PinWrite? {
      PinWriteKeepsIff(w.store, w.pins[e.r].p, w.pins[e.r].face, w.pins[e.r].asset);
    } else {
      EditKeeps(w.store, w.loaded, w.pins, e, v.store);
    }
  }

  ghost predicate TimelyAt(trace: seq<World>, events: seq<Event>, k: nat)
    requires k < |events| && |trace| == |events| + 1
  {
    Timely(trace[k], events[k])
  }

  lemma {:induction false} TracksUpTo(trace: seq<World>, events: seq<Event>, k: nat)
    requires Run(trace, events) && k < |trace|
    ensures Tracks(trace[k])
  {
    if k > 0 {
      TracksUpTo(trace, events, k - 1);
      assert MovesAt(trace, events, k - 1);
      TracksOn(trace[k - 1], events[k - 1], trace[k]);
    }
  }

  lemma {:induction false} GoodUpTo(trace: seq<World>, events: seq<Event>, k: nat)
    requires Run(trace, events) && k < |trace|
    requires forall i: nat :: i < k ==> TimelyAt(trace, events, i)
    ensures Good(trace[k].store)
  {
    if k > 0 {
      GoodUpTo(trace, events, k - 1);
      TracksUpTo(trace, events, k - 1);
      assert MovesAt(trace, events, k - 1) && TimelyAt(trace, events, k - 1);
      GoodOn(trace[k - 1], events[k - 1], trace[k]);
    }
  }

  /** Over every run: each face is bound at most once (`bind` is a map), excluded faces are bound to nobody, each cover is
      empty or one of the person's own active faces and a locked cover is not empty - exactly when no clustering pass
      commits after one of the faces it loaded has been detached or purged, and no pin is written after the face it chose
      has left the person. */
  lemma RunsStayGood(trace: seq<World>, events: seq<Event>)
    requires Run(trace, events)
    ensures (forall k: nat :: k < |trace| ==> Good(trace[k].store)) <==> (forall i: nat :: i < |events| ==> TimelyAt(trace, events, i))
  {
    if forall i: nat :: i < |events| ==> TimelyAt(trace, events, i) {
      forall k: nat | k < |trace| ensures Good(trace[k].store) {
        GoodUpTo(trace, events, k);
      }
    }
    if forall k: nat :: k < |trace| ==> Good(trace[k].store) {
      forall i: nat | i < |events| ensures TimelyAt(trace, events, i) {
        TracksUpTo(trace, events, i);
        assert MovesAt(trace, events, i);
        assert Good(trace[i].store) && Good(trace[i + 1].store);
        GoodOn(trace[i], events[i], trace[i + 1]);
      }
    }
  }

  // ---------------------------------------------------------------- a pin overtaken by a detach

  /** Whenever a person outlives the detaching of an asset, a pin that had chosen a face on it leaves an excluded cover. */
  lemma DetachOvertakesPin(s: Store, p: PersonId, asset: AssetId, m: Metric)
    requires Good(s) && p in s.persons && PinnedFace(s, p, asset, m).Some? && p in Detached(s, p, {asset}, m).persons
    ensures var f, t := PinnedFace(s, p, asset, m).value, Detached(s, p, {asset}, m);
            Good(t) && f in t.faces && t.faces[f].excluded && !Good(PinWritten(t, p, f, asset))
  {
    var f, t := PinnedFace(s, p, asset, m).value, Detached(s, p, {asset}, m);
    DetachKeeps(s, p, {asset}, m);
    assert f in FacesOn(s, p, {asset});
    PinWriteKeepsIff(t, p, f, asset);
  }

  const ANN := Person("Ann", false, "", false, None, None, false, None)

  /** Ann has face 7 on asset 1 and nothing else; detaching the asset keeps her, because she has a name. */
  lemma AnnLosesHerFace(m: Metric) returns (s: Store, t: Store)
    ensures Good(s) && 3 in s.persons && PinnedFace(s, 3, 1, m) == Some(7) && t == Detached(s, 3, {1}, m)
    ensures Good(t) && 3 in t.persons && 7 in t.faces && t.faces[7].excluded && !Good(PinWritten(t, 3, 7, 1))
    ensures NewlyExcluded(s, t) == {7} && NewlyExcluded(s, s) == {} && NewlyExcluded(t, t) == {}
  {
    s := Store(map[7 := Face(1, false)], [7], map[7 := 3], map[3 := ANN]);
    assert Active(s, 3, 7) && 7 in s.order;
    assert PinnedFace(s, 3, 1, m) == Some(7) && Good(s);
    t := Detached(s, 3, {1}, m);
    assert 7 in FacesOn(s, 3, {1});
    DetachOvertakesPin(s, 3, 1, m);
  }

  lemma ReadStep(s: Store, p: PersonId, asset: AssetId, m: Metric, f: FaceId)
    requires PinnedFace(s, p, asset, m) == Some(f)
    ensures Step(World(s, [], {}, map[]), PinRead(0, p, asset, m), World(s, [], {}, map[0 := PinRequest(p, asset, f)]))
  {
    assert NewlyExcluded(s, s) == {};
  }

  lemma DetachStep(s: Store, p: PersonId, assets: set<AssetId>, m: Metric, t: Store, pins: map<nat, PinRequest>)
    requires p in s.persons && t == Detached(s, p, assets, m)
    ensures Step(World(s, [], {}, pins), Detach(p, assets, m), World(t, [], NewlyExcluded(s, t), pins))
  {
  }

  lemma WriteStep(t: Store, gone: set<FaceId>, p: PersonId, asset: AssetId, f: FaceId)
    ensures Step(World(t, [], gone, map[0 := PinRequest(p, asset, f)]), PinWrite(0), World(PinWritten(t, p, f, asset), [], gone, map[]))
  {
    assert NewlyExcluded(t, PinWritten(t, p, f, asset)) == {};
    assert map[0 := PinRequest(p, asset, f)] - {0} == map[];
  }

  lemma RunOfThree(w: World, e: Event, v1: World, e1: Event, v2: World, e2: Event, v3: World)
    requires Good(w.store) && w.loaded == [] && w.excludedSince == {} && w.pins == map[]
    requires Step(w, e, v1) && Step(v1, e1, v2) && Step(v2, e2, v3)
    ensures Run([w, v1, v2, v3], [e, e1, e2])
  {
    var trace, events := [w, v1, v2, v3], [e, e1, e2];
    forall k: nat | k < |events| ensures MovesAt(trace, events, k) {
      assert k == 0 || k == 1 || k == 2;
    }
  }

  /** Read, detach, write. */
  function OvertakenTrace(s: Store, p: PersonId, asset: AssetId, f: FaceId, t: Store): (r: seq<World>)
    ensures |r| == 4 && r[2].store == t && r[3].store == PinWritten(t, p, f, asset)
  {
    var gone, pins := NewlyExcluded(s, t), map[0 := PinRequest(p, asset, f)];
    [World(s, [], {}, map[]), World(s, [], {}, pins), World(t, [], gone, pins), World(PinWritten(t, p, f, asset), [], gone, map[])]
  }

  function OvertakenEvents(p: PersonId, asset: AssetId, m: Metric): (r: seq<Event>)
    ensures |r| == 3 && forall i :: 0 <= i < |r| ==> !r[i].Commit?
  {
    [PinRead(0, p, asset, m), Detach(p, {asset}, m), PinWrite(0)]
  }

  lemma OvertakenRun(s: Store, p: PersonId, asset: AssetId, m: Metric, f: FaceId, t: Store)
    requires Good(s) && p in s.persons && PinnedFace(s, p, asset, m) == Some(f) && t == Detached(s, p, {asset}, m)
    ensures Run(OvertakenTrace(s, p, asset, f, t), OvertakenEvents(p, asset, m))
  {
    var gone, pins := NewlyExcluded(s, t), map[0 := PinRequest(p, asset, f)];
    ReadStep(s, p, asset, m, f);
    DetachStep(s, p, {asset}, m, t, pins);
    WriteStep(t, gone, p, asset, f);
    RunOfThree(World(s, [], {}, map[]), PinRead(0, p, asset, m), World(s, [], {}, pins), Detach(p, {asset}, m),
               World(t, [], gone, pins), PinWrite(0), World(PinWritten(t, p, f, asset), [], gone, map[]));
  }

  /** A run without any clustering that ends with an excluded face as a locked cover. */
  lemma StalePinRun(m: Metric) returns (trace: seq<World>, events: seq<Event>)
    ensures Run(trace, events) && |trace| == 4 && forall i :: 0 <= i < |events| ==> !events[i].Commit?
    ensures Good(trace[2].store) && !Good(trace[3].store)
    ensures var t := trace[3].store;
            3 in t.persons && t.persons[3].locked && t.persons[3].coverFace == Some(7) && 7 in t.faces && t.faces[7].excluded
  {
    var s, t := AnnLosesHerFace(m);
    OvertakenRun(s, 3, 1, m, 7, t);
    trace, events := OvertakenTrace(s, 3, 1, 7, t), OvertakenEvents(3, 1, m);
  }
}
