/** The moments tables as the store updates them, statement by statement inside each transaction. */
module MomentTables {
  import opened Options
  import opened Moments
  import opened MomentRuns

  /** ORDER BY score DESC, asset_id ASC LIMIT 1. */
  method PickBest(members: map<AssetId, Member>, candidates: set<AssetId>) returns (best: Option<AssetId>)
    requires candidates <= members.Keys
    ensures best.None? <==> candidates == {}
    ensures best.Some? ==> IsBest(members, candidates, best.value)
  {
    best := None;
    var rest := candidates;
    while rest != {}
      invariant rest <= candidates
      invariant best.None? <==> rest == candidates
      invariant best.Some? ==> IsBest(members, candidates - rest, best.value)
      decreases rest
    {
      var a :| a in rest;
      if best.None? || members[a].score > members[best.value].score || (members[a].score == members[best.value].score && a < best.value) {
        best := Some(a);
      }
      rest := rest - {a};
    }
    assert candidates - rest == candidates;
  }

  lemma TimesGrow(ids: set<AssetId>, a: AssetId, assets: map<AssetId, Asset>)
    ensures TimesOf(ids + {a}, assets) ==
            TimesOf(ids, assets) + if a in assets && assets[a].takenAt.Some? then {assets[a].takenAt.value} else {}
  {
  }

  /** MIN and MAX of taken_at over the members. */
  method TimeWindow(members: map<AssetId, Member>, assets: map<AssetId, Asset>) returns (from: Option<int>, to: Option<int>)
    ensures IsWindow(Times(members, assets), from, to)
  {
    from, to := None, None;
    var rest := members.Keys;
    while rest != {}
      invariant rest <= members.Keys
      invariant IsWindow(TimesOf(members.Keys - rest, assets), from, to)
      decreases rest
    {
      var a :| a in rest;
      ghost var done := members.Keys - rest;
      rest := rest - {a};
      assert members.Keys - rest == done + {a};
      TimesGrow(done, a, assets);
      if a in assets && assets[a].takenAt.Some? {
        var t := assets[a].takenAt.value;
        if from.None? || t < from.value { from := Some(t); }
        if to.None? || t > to.value { to := Some(t); }
      }
    }
    assert members.Keys - rest == members.Keys;
  }

  predicate AllKnown(entries: seq<Entry>, assets: map<AssetId, Asset>) {
    forall e :: e in entries ==> e.asset in assets
  }

  predicate AllDraftsKnown(drafts: seq<Draft>, assets: map<AssetId, Asset>) {
    forall d :: d in drafts ==> AllKnown(d.entries, assets)
  }

  predicate LastAt(ids: seq<MomentId>, i: int, m: MomentId) {
    0 <= i < |ids| && ids[i] == m && forall j :: i < j < |ids| ==> ids[j] != m
  }

  /** The order a moment gets from a dragged list: ten times its last position, or its present one when it is not listed. */
  function Position(ids: seq<MomentId>, m: MomentId, current: Option<int>): (r: Option<int>)
    ensures m !in ids ==> r == current
    ensures forall i :: LastAt(ids, i, m) ==> r == Some((i + 1) * 10)
  {
    if ids == [] then current
    else if ids[|ids| - 1] == m then Some(|ids| * 10)
    else
      var init := ids[..|ids| - 1];
      assert forall i :: LastAt(ids, i, m) ==> LastAt(init, i, m);
      Position(init, m, current)
  }

  lemma UpsertedSnoc(members: map<AssetId, Member>, entries: seq<Entry>, i: nat, assets: map<AssetId, Asset>, now: int)
    requires i < |entries|
    ensures var u, e := Upserted(members, entries[..i], now), entries[i];
            Upserted(members, entries[..i + 1], now) ==
            u[e.asset := Member(e.featured, e.score, e.manual, if e.asset in u then u[e.asset].addedAt else Some(now))]
    ensures AllKnown(entries[..i + 1], assets) <==> AllKnown(entries[..i], assets) && entries[i].asset in assets
    ensures AllKnown(entries, assets) ==> entries[i].asset in assets
  {
    assert entries[..i + 1] == entries[..i] + [entries[i]];
    assert entries[..i + 1][..i] == entries[..i];
    assert entries[i] in entries;
  }

  lemma StagesSnoc(moments: map<MomentId, Album>, drafts: seq<Draft>, i: nat, assets: map<AssetId, Asset>, now: int,
                   stages: seq<map<MomentId, Album>>, next: map<MomentId, Album>)
    requires i < |drafts| && Stages(moments, drafts[..i], assets, now, stages) && DraftStep(stages[i], drafts[i], assets, now, next)
    ensures Stages(moments, drafts[..i + 1], assets, now, stages + [next])
  {
    var longer, done := stages + [next], drafts[..i + 1];
    forall k: nat | k < i + 1 ensures DraftStepAt(longer, done, assets, now, k) {
      if k < i { assert DraftStepAt(stages, drafts[..i], assets, now, k); }
    }
  }

  lemma KnownSnoc(drafts: seq<Draft>, i: nat, assets: map<AssetId, Asset>)
    requires i < |drafts|
    ensures AllDraftsKnown(drafts[..i + 1], assets) <==> AllDraftsKnown(drafts[..i], assets) && AllKnown(drafts[i].entries, assets)
    ensures AllDraftsKnown(drafts, assets) ==> AllKnown(drafts[i].entries, assets)
  {
    assert drafts[..i + 1] == drafts[..i] + [drafts[i]];
    assert drafts[i] in drafts;
  }

  function Reordered(moments: map<MomentId, Album>, ids: seq<MomentId>): (r: map<MomentId, Album>)
    ensures OnlyPresentation(moments, r)
  {
    map m | m in moments :: moments[m].(row := moments[m].row.(sortOrder := Position(ids, m, moments[m].row.sortOrder)))
  }

  lemma ReorderedSnoc(moments: map<MomentId, Album>, ids: seq<MomentId>, i: nat)
    requires i < |ids|
    ensures var r, id := Reordered(moments, ids[..i]), ids[i];
            Reordered(moments, ids[..i + 1]) == if id in moments then r[id := r[id].(row := r[id].row.(sortOrder := Some((i + 1) * 10)))] else r
  {
    assert ids[..i + 1][..i] == ids[..i];
  }

  class MomentStore {
    var assets: map<AssetId, Asset>
    var moments: map<MomentId, Album>

    /** The moments row of a draft, inserted or written over the existing one. */
    method UpsertMoment(d: Draft) returns (album: Album)
      ensures album == UpsertedRow(Lookup(moments, d.id), d)
    {
      if d.id in moments {
        album := moments[d.id];
        var title := if album.row.namedByLLM then album.row.title else d.title;
        album := album.(row := album.row.(recipe := d.recipe, title := title, cover := d.cover, count := d.count, from := d.from, to := d.to));
      } else {
        album := Album(Row(d.recipe, d.title, false, false, None, d.cover, d.count, d.from, d.to), map[], map[]);
      }
    }

    /** The draft's member rows, one by one; fails on an asset that does not exist. */
    method UpsertMembers(members: map<AssetId, Member>, entries: seq<Entry>, now: int) returns (ok: bool, r: map<AssetId, Member>)
      ensures ok <==> AllKnown(entries, assets)
      ensures ok ==> r == Upserted(members, entries, now)
    {
      r := members;
      for i := 0 to |entries|
        invariant r == Upserted(members, entries[..i], now)
        invariant AllKnown(entries[..i], assets)
      {
        var e := entries[i];
        UpsertedSnoc(members, entries, i, assets, now);
        if e.asset !in assets { return false, r; }
        r := r[e.asset := Member(e.featured, e.score, e.manual, if e.asset in r then r[e.asset].addedAt else Some(now))];
      }
      assert entries[..|entries|] == entries;
      ok := true;
    }

    /** Deletes the members the draft did not produce, except live pins. */
    method DeleteStale(members: map<AssetId, Member>, edits: map<AssetId, Op>, entries: seq<Entry>) returns (r: map<AssetId, Member>)
      ensures r == Trimmed(members, DraftSet(entries) + LivePins(edits, assets))
    {
      var exempt := set a | a in edits && edits[a] == Pin && a in assets && assets[a].alive;
      var drafted := set e | e in entries :: e.asset;
      r := map a | a in members && (a in drafted || a in exempt) :: members[a];
    }

    /** The replay: excludes first, then pins of live assets that are absent. */
    method ApplyMomentEdits(members: map<AssetId, Member>, edits: map<AssetId, Op>, now: int) returns (hasEdits: bool, r: map<AssetId, Member>)
      ensures r == Replayed(members, edits, assets, now)
      ensures hasEdits <==> edits != map[]
    {
      var excluded := set a | a in edits && edits[a] == Exclude;
      var kept := members - excluded;
      var absent := map a | a in edits && edits[a] == Pin && a in assets && assets[a].alive && a !in kept :: PinnedMember(now);
      r := kept + absent;
      assert r == Replayed(members, edits, assets, now);
      hasEdits := |edits| > 0;
    }

    method RefreshDerived(album: Album, hadWindow: bool) returns (r: Album)
      ensures Refreshed(album, assets, hadWindow, r)
    {
      var row := album.row.(count := |album.members|);
      if hadWindow {
        var from, to := TimeWindow(album.members, assets);
        row := row.(from := from, to := to);
      }
      if row.cover.None? || row.cover.value !in album.members {
        var pick := PickBest(album.members, FeaturedOf(album.members));
        if pick.None? {
          pick := PickBest(album.members, album.members.Keys);
        }
        row := row.(cover := pick);
      }
      r := album.(row := row);
    }

    /** One turn of the sync loop. */
    method SyncDraft(d: Draft, now: int) returns (ok: bool)
      modifies this`moments
      ensures ok <==> AllKnown(d.entries, assets)
      ensures ok ==> DraftStep(old(moments), d, assets, now, moments)
    {
      var album := UpsertMoment(d);
      var members;
      ok, members := UpsertMembers(album.members, d.entries, now);
      if !ok { return; }
      members := DeleteStale(members, album.edits, d.entries);
      var hasEdits;
      hasEdits, members := ApplyMomentEdits(members, album.edits, now);
      album := album.(members := members);
      assert album == Drafted(Lookup(moments, d.id), d, assets, now);
      if hasEdits {
        album := RefreshDerived(album, d.from.Some?);
      }
      moments := moments[d.id := album];
    }

    /** One transaction: every draft, then the moments of the recipe that were not drafted; a failure undoes it all. */
    method SyncRecipeMoments(recipe: string, drafts: seq<Draft>, now: int) returns (ok: bool)
      modifies this`moments
      ensures ok <==> AllDraftsKnown(drafts, assets)
      ensures ok ==> Synced(old(moments), recipe, drafts, assets, now, moments)
      ensures !ok ==> moments == old(moments)
    {
      var begin := moments;
      ghost var stages := [moments];
      for i := 0 to |drafts|
        invariant Stages(begin, drafts[..i], assets, now, stages) && stages[i] == moments
        invariant AllDraftsKnown(drafts[..i], assets)
      {
        KnownSnoc(drafts, i, assets);
        ok := SyncDraft(drafts[i], now);
        if !ok {
          moments := begin;
          return;
        }
        StagesSnoc(begin, drafts, i, assets, now, stages, moments);
        stages := stages + [moments];
      }
      assert drafts[..|drafts|] == drafts;
      var keep := DraftIds(drafts);
      ghost var last := moments;
      moments := map id | id in moments && (id in keep || moments[id].row.recipe != recipe) :: moments[id];
      assert Stages(begin, drafts, assets, now, stages) && moments == Surviving(stages[|drafts|], recipe, drafts);
      ok := true;
    }

    /** One asset of a pin or exclude call, and the number of member rows it changed. */
    method EditOne(album: Album, asset: AssetId, op: Op, now: int) returns (r: Album, affected: nat)
      requires asset in assets
      ensures r == EditedOne(album, assets, asset, op, now)
      ensures affected == 0 <==> r.members == album.members
    {
      var members := album.members;
      affected := 0;
      if op == Pin {
        if asset !in members && assets[asset].alive {
          members := members[asset := PinnedMember(now)];
          affected := 1;
        }
      } else {
        if asset in members { affected := 1; }
        members := members - {asset};
      }
      r := Album(album.row, members, album.edits[asset := op]);
    }

    /** Every asset of the call that exists; the others are ignored. */
    method EditAll(album: Album, ids: seq<AssetId>, op: Op, now: int) returns (r: Album, affected: nat)
      ensures r == EditedAll(album, assets, ids, op, now) && r.row == album.row
      ensures affected == 0 <==> r.members == album.members
    {
      r, affected := album, 0;
      for i := 0 to |ids|
        invariant r == EditedAll(album, assets, ids[..i], op, now)
        invariant affected == 0 <==> r.members == album.members
      {
        assert ids[..i + 1][..i] == ids[..i];
        if ids[i] in assets {
          MonotoneEdits(album, assets, ids[..i], ids[i], op, now);
          var n;
          r, n := EditOne(r, ids[i], op, now);
          affected := affected + n;
        }
      }
      assert ids[..|ids|] == ids;
      EditEffect(album, assets, ids, op, now);
    }

    /** Pin or exclude assets. Fails, changing nothing, for a moment that does not exist. */
    method ApplyMomentEditOp(id: MomentId, ids: seq<AssetId>, op: Op, now: int) returns (count: Option<int>)
      modifies this`moments
      ensures id !in old(moments) ==> count == None && moments == old(moments)
      ensures id in old(moments) ==>
                && id in moments && moments == old(moments)[id := moments[id]]
                && Edited(old(moments)[id], assets, ids, op, now, moments[id])
                && count == Some(moments[id].row.count)
    {
      if id !in moments { return None; }
      var album, affected := EditAll(moments[id], ids, op, now);
      if affected > 0 {
        album := RefreshDerived(album, album.row.from.Some?);
      }
      moments := moments[id := album];
      return Some(album.row.count);
    }

    method HideMoment(id: MomentId)
      modifies this`moments
      ensures OnlyPresentation(old(moments), moments)
      ensures forall m :: m in moments ==> moments[m].row == if m == id then old(moments)[m].row.(hidden := true) else old(moments)[m].row
    {
      if id in moments {
        moments := moments[id := moments[id].(row := moments[id].row.(hidden := true))];
      }
    }

    method SetMomentTitle(id: MomentId, title: string)
      modifies this`moments
      ensures OnlyPresentation(old(moments), moments)
      ensures forall m :: m in moments ==>
                moments[m].row == if m == id then old(moments)[m].row.(title := title, namedByLLM := true) else old(moments)[m].row
    {
      if id in moments {
        moments := moments[id := moments[id].(row := moments[id].row.(title := title, namedByLLM := true))];
      }
    }

    /** The last position of a moment in `ids` decides its order; unknown ids are skipped. */
    method ReorderMoments(ids: seq<MomentId>)
      modifies this`moments
      ensures OnlyPresentation(old(moments), moments)
      ensures forall m :: m in moments ==> moments[m].row == old(moments)[m].row.(sortOrder := Position(ids, m, old(moments)[m].row.sortOrder))
    {
      assert Reordered(moments, ids[..0]) == moments;
      for i := 0 to |ids|
        invariant moments == Reordered(old(moments), ids[..i])
      {
        var id := ids[i];
        ReorderedSnoc(old(moments), ids, i);
        if id in moments {
          moments := moments[id := moments[id].(row := moments[id].row.(sortOrder := Some((i + 1) * 10)))];
        }
      }
      assert ids[..|ids|] == ids;
    }
  }

  /** Within one call members only come or only go, so a change is never undone by a later asset of the call. */
  lemma MonotoneEdits(a: Album, assets: map<AssetId, Asset>, ids: seq<AssetId>, next: AssetId, op: Op, now: int)
    requires next in assets
    ensures var e := EditedAll(a, assets, ids, op, now);
            var f := EditedOne(e, assets, next, op, now);
            f.members == a.members <==> e.members == a.members && f.members == e.members
  {
    EditEffect(a, assets, ids, op, now);
    EditEffect(a, assets, ids + [next], op, now);
    assert (ids + [next])[..|ids|] == ids;
    var e := EditedAll(a, assets, ids, op, now);
    var f := EditedOne(e, assets, next, op, now);
    if f.members == a.members {
      assert f.members.Keys == a.members.Keys;
      if op == Pin {
        assert a.members.Keys <= e.members.Keys <= f.members.Keys;
      } else {
        assert f.members.Keys <= e.members.Keys <= a.members.Keys;
      }
      assert e.members.Keys == a.members.Keys;
    }
  }
}
