/** Merge, detach, purge, cover pinning and full rebuild over the face tables. */
module PersonEdits {
  import opened Options
  import opened People

  /** Persons whose identity survives a rebuild. */
  predicate Anchored(p: Person) {
    p.name != "" || p.favorite || p.relation != "" || p.hidden || p.locked || p.hero.Some?
  }

  /** The narrower test that keeps a person whose last face has been detached. */
  predicate KeptWhenEmpty(p: Person) {
    p.name != "" || p.favorite || p.relation != "" || p.hidden
  }

  function Refresh(s: Store, p: PersonId, m: Metric): Store {
    if p in s.persons then s.(persons := s.persons[p := OneCentroid(s, p, s.persons[p], m)]) else s
  }

  // ---------------------------------------------------------------- what each transaction commits

  function Merged(s: Store, from: PersonId, into: PersonId, m: Metric): Store {
    var bind := map f | f in s.bind :: if s.bind[f] == from then into else s.bind[f];
    Refresh(s.(bind := bind, persons := s.persons - {from}), into, m)
  }

  function Exclude(s: Store, gone: set<FaceId>): Store {
    s.(faces := map f | f in s.faces :: if f in gone then s.faces[f].(excluded := true) else s.faces[f],
       bind := s.bind - gone)
  }

  function FacesOn(s: Store, p: PersonId, assets: set<AssetId>): set<FaceId> {
    set f | f in s.bind && Active(s, p, f) && s.faces[f].asset in assets
  }

  function Detached(s: Store, p: PersonId, assets: set<AssetId>, m: Metric): Store
    requires p in s.persons
  {
    var gone := FacesOn(s, p, assets);
    if gone == {} then s
    else
      var t := Refresh(Stripped(s, p, gone, assets), p, m);
      if (forall f :: f in t.bind ==> t.bind[f] != p) && !KeptWhenEmpty(t.persons[p]) then t.(persons := t.persons - {p}) else t
  }

  function Purged(s: Store, p: PersonId): Store {
    Exclude(s, set f | f in s.bind && s.bind[f] == p).(persons := s.persons - {p})
  }

  /** The first index with the largest area. */
  function FirstLargest(v: seq<real>): (r: nat)
    requires v != []
    ensures r < |v| && forall i :: 0 <= i < |v| ==> v[i] <= v[r] && (i < r ==> v[i] < v[r])
  {
    assert v[0] > v[0] - 1.0;
    FirstMax(v, v[0] - 1.0).value
  }

  function OnAsset(s: Store, p: PersonId, asset: AssetId, order: seq<FaceId>): (r: seq<FaceId>)
    ensures forall f :: f in r <==> f in order && Active(s, p, f) && s.faces[f].asset == asset
  {
    if order == [] then []
    else
      var t := OnAsset(s, p, asset, order[..|order| - 1]);
      var f := order[|order| - 1];
      assert forall g :: g in order <==> g in order[..|order| - 1] || g == f;
      if Active(s, p, f) && s.faces[f].asset == asset then t + [f] else t
  }

  /** The largest of the person's faces on the asset, or nothing. */
  function PinnedFace(s: Store, p: PersonId, asset: AssetId, m: Metric): (r: Option<FaceId>)
    ensures r.Some? ==> Active(s, p, r.value) && s.faces[r.value].asset == asset
    ensures r.Some? ==> forall f :: f in s.order && Active(s, p, f) && s.faces[f].asset == asset ==> m.area(f) <= m.area(r.value)
    ensures r.None? ==> forall f :: f in s.order && Active(s, p, f) ==> s.faces[f].asset != asset
  {
    var c := OnAsset(s, p, asset, s.order);
    if c == [] then None
    else
      var areas := seq(|c|, i requires 0 <= i < |c| => m.area(c[i]));
      var best := c[FirstLargest(areas)];
      assert best in c;
      assert forall f :: f in c ==> m.area(f) <= m.area(best) by {
        forall f | f in c ensures m.area(f) <= m.area(best) {
          var i :| 0 <= i < |c| && c[i] == f;
          assert areas[i] == m.area(f);
        }
      }
      Some(best)
  }

  /** The k-th of those faces has a row before which only the first k of them have theirs. */
  lemma {:induction false} OnAssetInOrder(s: Store, p: PersonId, asset: AssetId, order: seq<FaceId>, k: nat) returns (i: nat)
    requires k < |OnAsset(s, p, asset, order)|
    ensures i < |order| && order[i] == OnAsset(s, p, asset, order)[k]
    ensures forall j :: 0 <= j < i && Active(s, p, order[j]) && s.faces[order[j]].asset == asset ==> order[j] in OnAsset(s, p, asset, order)[..k]
  {
    var last := |order| - 1;
    var init := OnAsset(s, p, asset, order[..last]);
    if k < |init| {
      i := OnAssetInOrder(s, p, asset, order[..last], k);
      assert OnAsset(s, p, asset, order)[..k] == init[..k];
    } else {
      i := last;
      assert OnAsset(s, p, asset, order)[..k] == init;
      assert forall j :: 0 <= j < last ==> order[j] in order[..last];
    }
  }

  /** Of equally large faces the pin takes the one whose row comes first. */
  lemma PinnedFaceIsFirst(s: Store, p: PersonId, asset: AssetId, m: Metric) returns (i: nat)
    requires PinnedFace(s, p, asset, m).Some?
    ensures i < |s.order| && PinnedFace(s, p, asset, m) == Some(s.order[i])
    ensures forall j :: 0 <= j < i && Active(s, p, s.order[j]) && s.faces[s.order[j]].asset == asset ==> m.area(s.order[j]) < m.area(s.order[i])
  {
    var c := OnAsset(s, p, asset, s.order);
    var areas := seq(|c|, i requires 0 <= i < |c| => m.area(c[i]));
    var k := FirstLargest(areas);
    i := OnAssetInOrder(s, p, asset, s.order, k);
    forall g | g in c[..k] ensures m.area(g) < m.area(c[k]) {
      var l :| 0 <= l < k && c[l] == g;
      assert areas[l] < areas[k];
    }
  }

  /** The pin's UPDATE: it matches no row when the person is gone, and looks at no face. */
  function PinWritten(s: Store, p: PersonId, f: FaceId, asset: AssetId): Store {
    if p in s.persons then s.(persons := s.persons[p := s.persons[p].(coverFace := Some(f), coverAsset := Some(asset), locked := true)]) else s
  }

  function Unlocked(s: Store, p: PersonId, m: Metric): Store
    requires p in s.persons
  {
    Refresh(s.(persons := s.persons[p := s.persons[p].(locked := false)]), p, m)
  }

  // ---------------------------------------------------------------- each of them keeps the tables good

  /** Merging leaves the covers of the persons it does not name in place. */
  lemma MergeSpares(s: Store, from: PersonId, into: PersonId, q: PersonId, u: Store)
    requires Good(s) && q in s.persons && q != from && q != into
    requires u.faces == s.faces && u.bind == map f | f in s.bind :: if s.bind[f] == from then into else s.bind[f]
    ensures CoverOk(u, q, s.persons[q])
  {
    assert CoverOk(s, q, s.persons[q]);
  }

  /** The person that is merged into has a sound cover afterwards. */
  lemma MergeIntoKeeps(s: Store, from: PersonId, into: PersonId, m: Metric)
    requires Good(s) && from != into && from in s.persons && into in s.persons
    ensures var u := Merged(s, from, into, m); into in u.persons && CoverOk(u, into, u.persons[into])
  {
    var t := s.(bind := map f | f in s.bind :: if s.bind[f] == from then into else s.bind[f], persons := s.persons - {from});
    assert CoverOk(s, into, s.persons[into]);
    CoverRuleOk(t, into, m, t.persons[into], OneCentroid(t, into, t.persons[into], m));
  }

  lemma MergeKeeps(s: Store, from: PersonId, into: PersonId, m: Metric)
    requires Good(s) && from != into && from in s.persons && into in s.persons
    ensures Good(Merged(s, from, into, m))
  {
    var u := Merged(s, from, into, m);
    MergeIntoKeeps(s, from, into, m);
    forall q | q in u.persons && q != into ensures CoverOk(u, q, u.persons[q]) {
      MergeSpares(s, from, into, q, u);
    }
  }

  lemma ExcludeKeeps(s: Store, gone: set<FaceId>)
    requires Bound(s) && Clean(s)
    ensures Bound(Exclude(s, gone)) && Clean(Exclude(s, gone))
    ensures forall p, f :: Active(Exclude(s, gone), p, f) <==> Active(s, p, f) && f !in gone
  {
  }

  /** The person after losing `gone`, before the recomputation. */
  function Stripped(s: Store, p: PersonId, gone: set<FaceId>, assets: set<AssetId>): Store
    requires p in s.persons
  {
    var person := s.persons[p];
    var hero := if person.hero.Some? && person.hero.value in assets then None else person.hero;
    Exclude(s, gone).(persons := s.persons[p := person.(hero := hero)])
  }

  lemma StripKeeps(s: Store, p: PersonId, gone: set<FaceId>, assets: set<AssetId>, m: Metric)
    requires Good(s) && p in s.persons && forall f :: f in gone ==> f in s.bind && s.bind[f] == p
    ensures Good(Refresh(Stripped(s, p, gone, assets), p, m))
  {
    ExcludeKeeps(s, gone);
    var t := Stripped(s, p, gone, assets);
    assert CoverOk(s, p, s.persons[p]);
    CoverRuleOk(t, p, m, t.persons[p], OneCentroid(t, p, t.persons[p], m));
    var u := Refresh(t, p, m);
    forall q | q in u.persons ensures CoverOk(u, q, u.persons[q]) {
      if q != p { OthersKeep(s, p, gone, q, u); }
    }
  }

  lemma DropKeeps(s: Store, p: PersonId)
    requires Good(s) && forall f :: f in s.bind ==> s.bind[f] != p
    ensures Good(s.(persons := s.persons - {p}))
  {
    var u := s.(persons := s.persons - {p});
    forall q | q in u.persons ensures CoverOk(u, q, u.persons[q]) {
      assert CoverOk(s, q, s.persons[q]);
    }
  }

  lemma DetachKeeps(s: Store, p: PersonId, assets: set<AssetId>, m: Metric)
    requires Good(s) && p in s.persons
    ensures Good(Detached(s, p, assets, m))
  {
    var gone := FacesOn(s, p, assets);
    if gone != {} {
      StripKeeps(s, p, gone, assets, m);
      var t := Refresh(Stripped(s, p, gone, assets), p, m);
      if forall f :: f in t.bind ==> t.bind[f] != p { DropKeeps(t, p); }
    }
  }

  /** Excluding faces of p leaves every other person's cover in place. */
  lemma OthersKeep(s: Store, p: PersonId, gone: set<FaceId>, q: PersonId, u: Store)
    requires Good(s) && q in s.persons && q != p && forall f :: f in gone ==> f in s.bind && s.bind[f] == p
    requires u.faces == Exclude(s, gone).faces && u.bind == Exclude(s, gone).bind
    ensures CoverOk(u, q, s.persons[q])
  {
    assert CoverOk(s, q, s.persons[q]);
  }

  lemma PurgeKeeps(s: Store, p: PersonId)
    requires Good(s)
    ensures Good(Purged(s, p))
  {
    var gone := set f | f in s.bind && s.bind[f] == p;
    ExcludeKeeps(s, gone);
    var u := Purged(s, p);
    forall q | q in u.persons ensures CoverOk(u, q, u.persons[q]) {
      OthersKeep(s, p, gone, q, u);
    }
  }

  /** The pin's UPDATE keeps the tables good exactly when the person is gone or the face is still one of its active faces on
      the asset. */
  lemma PinWriteKeepsIff(s: Store, p: PersonId, f: FaceId, asset: AssetId)
    requires Good(s)
    ensures Good(PinWritten(s, p, f, asset)) <==> (p in s.persons ==> Active(s, p, f) && s.faces[f].asset == asset)
  {
    var u := PinWritten(s, p, f, asset);
    if p in s.persons && Active(s, p, f) && s.faces[f].asset == asset {
      forall q | q in u.persons ensures CoverOk(u, q, u.persons[q]) {
        assert CoverOk(s, q, s.persons[q]);
      }
    } else if p in s.persons {
      assert Good(u) ==> CoverOk(u, p, u.persons[p]);
    }
  }

  lemma UnlockKeeps(s: Store, p: PersonId, m: Metric)
    requires Good(s) && p in s.persons
    ensures Good(Unlocked(s, p, m))
  {
    var t := s.(persons := s.persons[p := s.persons[p].(locked := false)]);
    CoverRuleOk(t, p, m, t.persons[p], OneCentroid(t, p, t.persons[p], m));
    var u := Unlocked(s, p, m);
    forall q | q in u.persons ensures CoverOk(u, q, u.persons[q]) {
      assert CoverOk(s, q, s.persons[q]);
    }
  }

  // ---------------------------------------------------------------- what each of them does, read off the old tables

  predicate ActiveOf(s: Store, q: set<PersonId>, f: FaceId) {
    f in s.bind && s.bind[f] in q && f in s.faces && !s.faces[f].excluded
  }

  /** Whoever is recomputed ends with a cover that obeys the rule, and keeps the user's fields but for the hero, which a person
      without active faces loses; nobody else changes. */
  lemma RefreshEffect(s: Store, p: PersonId, m: Metric)
    requires p in s.persons
    ensures var u := Refresh(s, p, m);
            && u.faces == s.faces && u.order == s.order && u.bind == s.bind && u.persons == s.persons[p := u.persons[p]]
            && CoverRule(u, p, m, s.persons[p], u.persons[p]) && Rows(u, p) == Rows(s, p)
            && SameIdentity(s.persons[p], u.persons[p].(hero := s.persons[p].hero))
            && u.persons[p].hero == (if Rows(s, p) == [] then None else s.persons[p].hero)
  {
    SameRows(s, Refresh(s, p, m), p, s.order);
  }

  /** There is a row to recompute from exactly when there is an active face. */
  lemma RowsIff(s: Store, p: PersonId)
    requires Bound(s)
    ensures Rows(s, p) == [] <==> forall f :: !ActiveOf(s, {p}, f)
  {
    var rows := Rows(s, p);
    assert forall f :: f in rows <==> ActiveOf(s, {p}, f);
    if rows != [] { assert rows[0] in rows; }
  }

  /** A merge moves every face of `from` to `into` and loses no binding, face or third person; `into` stays who it is. */
  lemma MergeEffect(s: Store, from: PersonId, into: PersonId, m: Metric)
    requires Good(s) && from != into && from in s.persons && into in s.persons
    ensures var u := Merged(s, from, into, m);
            && u.faces == s.faces && u.order == s.order && u.bind.Keys == s.bind.Keys
            && (forall f :: f in s.bind ==> u.bind[f] == if s.bind[f] == from || s.bind[f] == into then into else s.bind[f])
            && u.persons.Keys == s.persons.Keys - {from}
            && (forall q :: q in u.persons && q != into ==> u.persons[q] == s.persons[q])
            && CoverRule(u, into, m, s.persons[into], u.persons[into])
            && SameIdentity(s.persons[into], u.persons[into].(hero := s.persons[into].hero))
            && u.persons[into].hero == (if exists f :: ActiveOf(s, {from, into}, f) then s.persons[into].hero else None)
  {
    var t := s.(bind := map f | f in s.bind :: if s.bind[f] == from then into else s.bind[f], persons := s.persons - {from});
    RefreshEffect(t, into, m);
    MergedRows(s, from, into, t);
  }

  lemma MergedRows(s: Store, from: PersonId, into: PersonId, t: Store)
    requires Good(s) && from in s.persons && into in s.persons && from != into
    requires t == s.(bind := map f | f in s.bind :: if s.bind[f] == from then into else s.bind[f], persons := s.persons - {from})
    ensures Rows(t, into) == [] <==> !exists f :: ActiveOf(s, {from, into}, f)
  {
    assert Bound(t);
    RowsIff(t, into);
    assert forall f :: ActiveOf(t, {into}, f) <==> ActiveOf(s, {from, into}, f);
  }

  /** A purge marks every face of the person excluded and unbinds it; nothing else changes. */
  lemma PurgeEffect(s: Store, p: PersonId)
    requires Good(s)
    ensures var u := Purged(s, p);
            && u.order == s.order && u.faces.Keys == s.faces.Keys && u.persons == s.persons - {p}
            && (forall f :: f in s.faces ==> u.faces[f].asset == s.faces[f].asset)
            && (forall f :: f in s.faces ==> (u.faces[f].excluded <==> s.faces[f].excluded || (f in s.bind && s.bind[f] == p)))
            && (forall f :: f in u.bind <==> f in s.bind && s.bind[f] != p)
            && (forall f :: f in u.bind ==> u.bind[f] == s.bind[f])
  {
  }

  /** The face is one of p's active faces on one of the assets. */
  predicate Taken(s: Store, p: PersonId, assets: set<AssetId>, f: FaceId) {
    f in s.bind && s.bind[f] == p && f in s.faces && !s.faces[f].excluded && s.faces[f].asset in assets
  }

  /** What a detach does to the faces: exactly those of p on the assets are excluded and unbound. */
  ghost predicate TakenAway(s: Store, p: PersonId, assets: set<AssetId>, u: Store) {
    && u.order == s.order && u.faces.Keys == s.faces.Keys
    && (forall f :: f in s.faces ==> u.faces[f].asset == s.faces[f].asset)
    && (forall f :: f in s.faces ==> (u.faces[f].excluded <==> s.faces[f].excluded || Taken(s, p, assets, f)))
    && (forall f :: f in u.bind <==> f in s.bind && !Taken(s, p, assets, f))
    && (forall f :: f in u.bind ==> u.bind[f] == s.bind[f])
  }

  lemma StripEffect(s: Store, p: PersonId, assets: set<AssetId>)
    requires Good(s) && p in s.persons
    ensures var t, person := Stripped(s, p, FacesOn(s, p, assets), assets), s.persons[p];
            && TakenAway(s, p, assets, t) && t.persons.Keys == s.persons.Keys
            && (forall q :: q in s.persons && q != p ==> t.persons[q] == s.persons[q])
            && SameCover(t.persons[p], person) && SameIdentity(t.persons[p].(hero := person.hero), person)
            && t.persons[p].hero == if person.hero.Some? && person.hero.value in assets then None else person.hero
  {
    assert forall f :: f in FacesOn(s, p, assets) <==> Taken(s, p, assets, f);
  }

  /** A detach takes away exactly the person's active faces on the assets, and those are what it counts; if there are none,
      nothing changes. */
  lemma DetachEffect(s: Store, p: PersonId, assets: set<AssetId>, m: Metric)
    requires Good(s) && p in s.persons
    ensures forall f :: f in FacesOn(s, p, assets) <==> Taken(s, p, assets, f)
    ensures (forall f :: !Taken(s, p, assets, f)) ==> Detached(s, p, assets, m) == s
    ensures TakenAway(s, p, assets, Detached(s, p, assets, m))
  {
    var gone := FacesOn(s, p, assets);
    assert forall f :: f in gone <==> Taken(s, p, assets, f);
    if gone != {} {
      StripEffect(s, p, assets);
      RefreshEffect(Stripped(s, p, gone, assets), p, m);
    } else {
      assert TakenAway(s, p, assets, s);
    }
  }

  /** Other persons never change in a detach. */
  lemma DetachSpares(s: Store, p: PersonId, assets: set<AssetId>, m: Metric, q: PersonId)
    requires Good(s) && p in s.persons && q != p
    ensures q in Detached(s, p, assets, m).persons <==> q in s.persons
    ensures q in s.persons ==> Detached(s, p, assets, m).persons[q] == s.persons[q]
  {
    StripEffect(s, p, assets);
    RefreshEffect(Stripped(s, p, FacesOn(s, p, assets), assets), p, m);
  }

  /** When it takes some, the person goes exactly when no face is left to it and it has no name, no relation and no favourite or
      hidden mark; otherwise it keeps those fields, loses a hero on the assets, and every hero with its last face, and its cover
      is recomputed. */
  lemma DetachedPerson(s: Store, p: PersonId, assets: set<AssetId>, m: Metric)
    requires Good(s) && p in s.persons && exists f :: Taken(s, p, assets, f)
    ensures var u, person := Detached(s, p, assets, m), s.persons[p];
            var emptied := forall f :: f in s.bind && s.bind[f] == p ==> Taken(s, p, assets, f);
            && (p !in u.persons <==> emptied && person.name == "" && person.relation == "" && !person.favorite && !person.hidden)
            && (p in u.persons ==>
                  && u.persons[p].name == person.name && u.persons[p].relation == person.relation
                  && u.persons[p].favorite == person.favorite && u.persons[p].hidden == person.hidden
                  && u.persons[p].hero == (if emptied || (person.hero.Some? && person.hero.value in assets) then None else person.hero)
                  && CoverRule(u, p, m, person, u.persons[p]))
  {
    var gone := FacesOn(s, p, assets);
    var f :| Taken(s, p, assets, f);
    assert f in gone;
    var t := Stripped(s, p, gone, assets);
    StripEffect(s, p, assets);
    RefreshEffect(t, p, m);
    StrippedRows(s, p, assets, t);
    var r := Refresh(t, p, m);
    if p in Detached(s, p, assets, m).persons { assert Detached(s, p, assets, m) == r; }
  }

  lemma StrippedRows(s: Store, p: PersonId, assets: set<AssetId>, t: Store)
    requires Good(s) && TakenAway(s, p, assets, t) && t.persons.Keys == s.persons.Keys
    ensures Rows(t, p) == [] <==> forall f :: f in s.bind && s.bind[f] == p ==> Taken(s, p, assets, f)
    ensures (forall f :: f in t.bind ==> t.bind[f] != p) <==> forall f :: f in s.bind && s.bind[f] == p ==> Taken(s, p, assets, f)
  {
    assert Bound(t);
    RowsIff(t, p);
    forall f | f in s.bind && s.bind[f] == p ensures ActiveOf(t, {p}, f) <==> !Taken(s, p, assets, f) {
    }
    forall f | ActiveOf(t, {p}, f) ensures f in s.bind && s.bind[f] == p {
    }
  }

  /** A pin leaves the chosen face as a locked cover on its asset, and nothing else changes. */
  lemma PinEffect(s: Store, p: PersonId, f: FaceId, asset: AssetId)
    ensures var u := PinWritten(s, p, f, asset);
            && u.faces == s.faces && u.order == s.order && u.bind == s.bind && u.persons.Keys == s.persons.Keys
            && (forall q :: q in s.persons && q != p ==> u.persons[q] == s.persons[q])
            && (p in s.persons ==>
                  && u.persons[p].coverFace == Some(f) && u.persons[p].coverAsset == Some(asset) && u.persons[p].locked
                  && SameIdentity(s.persons[p], u.persons[p]))
  {
  }

  /** Unlocking forgets the pin: the person ends unlocked, without a cover when it has no active face, and otherwise with the
      active face that the scores and distances choose; nothing else changes. */
  lemma UnlockReselects(s: Store, p: PersonId, m: Metric)
    requires p in s.persons
    ensures var u := Unlocked(s, p, m); var person := u.persons[p];
            && !person.locked && (person.coverFace.Some? <==> Rows(s, p) != [])
            && (person.coverFace.Some? ==> ChosenFace(Rows(s, p), m, person.coverFace.value))
            && (person.coverFace.Some? ==> person.coverFace.value in s.faces && person.coverAsset == Some(s.faces[person.coverFace.value].asset))
            && u.faces == s.faces && u.order == s.order && u.bind == s.bind && u.persons == s.persons[p := person]
            && SameIdentity(s.persons[p], person.(hero := s.persons[p].hero))
  {
    var t := s.(persons := s.persons[p := s.persons[p].(locked := false)]);
    SameRows(s, t, p, s.order);
    RefreshEffect(t, p, m);
    var person := Unlocked(s, p, m).persons[p];
    if Rows(s, p) != [] { ChosenUnique(Rows(s, p), m, person.coverFace.value, person.coverFace.value); }
  }
}
