/** Pin and exclude edits, and what holds of the moments over any run of edits and recalculations. */
module MomentRuns {
  import opened Options
  import opened Moments

  // ---------------------------------------------------------------- one edit call

  function EditedOne(a: Album, assets: map<AssetId, Asset>, asset: AssetId, op: Op, now: int): Album {
    if asset !in assets then a
    else
      var edits := a.edits[asset := op];
      match op
      case Pin =>
        Album(a.row, if asset in a.members || !assets[asset].alive then a.members else a.members[asset := PinnedMember(now)], edits)
      case Exclude => Album(a.row, a.members - {asset}, edits)
  }

  function EditedAll(a: Album, assets: map<AssetId, Asset>, ids: seq<AssetId>, op: Op, now: int): Album {
    if ids == [] then a
    else EditedOne(EditedAll(a, assets, ids[..|ids| - 1], op, now), assets, ids[|ids| - 1], op, now)
  }

  /** A committed applyMomentEditOp; the derived fields are refreshed only when a member row changed. */
  ghost predicate Edited(a: Album, assets: map<AssetId, Asset>, ids: seq<AssetId>, op: Op, now: int, b: Album) {
    var e := EditedAll(a, assets, ids, op, now);
    if e.members == a.members then b == e else Refreshed(e, assets, a.row.from.Some?, b)
  }

  function Known(ids: seq<AssetId>, assets: map<AssetId, Asset>): set<AssetId> {
    set x | x in ids && x in assets
  }

  function Alive(ids: seq<AssetId>, assets: map<AssetId, Asset>): set<AssetId> {
    set x | x in ids && x in assets && assets[x].alive
  }

  lemma EditedIdsSnoc(ids: seq<AssetId>, assets: map<AssetId, Asset>)
    requires ids != []
    ensures var init, last := ids[..|ids| - 1], ids[|ids| - 1];
            && Known(ids, assets) == Known(init, assets) + (if last in assets then {last} else {})
            && Alive(ids, assets) == Alive(init, assets) + (if last in assets && assets[last].alive then {last} else {})
  {
    var init, last := ids[..|ids| - 1], ids[|ids| - 1];
    assert forall x :: x in ids <==> x in init || x == last;
  }

  lemma {:induction false} EditEffect(a: Album, assets: map<AssetId, Asset>, ids: seq<AssetId>, op: Op, now: int)
    ensures var e := EditedAll(a, assets, ids, op, now);
            && e.row == a.row
            && e.edits.Keys == a.edits.Keys + Known(ids, assets)
            && (forall x :: x in e.edits ==> e.edits[x] == if x in Known(ids, assets) then op else a.edits[x])
            && (op == Pin ==> e.members.Keys == a.members.Keys + Alive(ids, assets))
            && (op == Exclude ==> e.members.Keys == a.members.Keys - Known(ids, assets))
            && (forall x :: x in e.members ==> e.members[x] == if x in a.members then a.members[x] else PinnedMember(now))
  {
    if ids != [] {
      var init, last := ids[..|ids| - 1], ids[|ids| - 1];
      EditEffect(a, assets, init, op, now);
      EditedIdsSnoc(ids, assets);
      var e := EditedAll(a, assets, ids, op, now);
      assert op == Pin ==> e.members.Keys == a.members.Keys + Alive(ids, assets);
      assert op == Exclude ==> e.members.Keys == a.members.Keys - Known(ids, assets);
    }
  }

  /** Pinning adds the live assets, excluding removes all known ones, unknown ids are ignored, and no member that stays is
      downgraded; the last edit of an asset is the one in force. */
  lemma EditMembers(a: Album, assets: map<AssetId, Asset>, ids: seq<AssetId>, op: Op, now: int, b: Album)
    requires Edited(a, assets, ids, op, now, b)
    ensures b.members.Keys == if op == Pin then a.members.Keys + Alive(ids, assets) else a.members.Keys - Known(ids, assets)
    ensures forall x :: x in b.members && x in a.members ==> b.members[x] == a.members[x]
    ensures b.edits.Keys == a.edits.Keys + Known(ids, assets)
    ensures forall x :: x in b.edits ==> b.edits[x] == if x in Known(ids, assets) then op else a.edits[x]
  {
    EditEffect(a, assets, ids, op, now);
  }

  /** The same, asset by asset; an added member's row is plain and marked as manual. */
  lemma EditedAssets(a: Album, assets: map<AssetId, Asset>, ids: seq<AssetId>, op: Op, now: int, b: Album, x: AssetId)
    requires Edited(a, assets, ids, op, now, b)
    ensures x in b.members <==>
            if op == Pin then x in a.members || (x in ids && x in assets && assets[x].alive)
            else x in a.members && !(x in ids && x in assets)
    ensures x in b.members && x !in a.members ==> b.members[x] == Member(false, 0.0, true, Some(now))
    ensures x in ids && x in assets ==> x in b.edits && b.edits[x] == op
    ensures !(x in ids && x in assets) ==> (x in b.edits <==> x in a.edits) && (x in a.edits ==> b.edits[x] == a.edits[x])
  {
    EditEffect(a, assets, ids, op, now);
  }

  /** The row: only a change of members refreshes it, and then it touches count, cover and window. */
  lemma EditedRow(a: Album, assets: map<AssetId, Asset>, ids: seq<AssetId>, op: Op, now: int, b: Album)
    requires Edited(a, assets, ids, op, now, b)
    ensures b.members.Keys == a.members.Keys ==> b.row == a.row
    ensures b.members.Keys != a.members.Keys ==>
              && b.row.count == |b.members| && b.row.title == a.row.title && b.row.recipe == a.row.recipe && UserRowKept(a.row, b.row)
              && (a.row.cover.Some? && a.row.cover.value in b.members ==> b.row.cover == a.row.cover)
              && (a.row.from.None? ==> b.row.from == None && b.row.to == a.row.to)
  {
    EditMembers(a, assets, ids, op, now, b);
    var e := EditedAll(a, assets, ids, op, now);
    EditedAllRow(a, assets, ids, op, now);
    if e.members != a.members {
      RefreshedRow(e, assets, a.row.from.Some?, b);
      SameKeys(a.members, b.members);
    }
  }

  lemma EditedAllRow(a: Album, assets: map<AssetId, Asset>, ids: seq<AssetId>, op: Op, now: int)
    ensures EditedAll(a, assets, ids, op, now).row == a.row
  {
    EditEffect(a, assets, ids, op, now);
  }

  lemma SameKeys(m: map<AssetId, Member>, n: map<AssetId, Member>)
    requires forall x :: x in n && x in m ==> n[x] == m[x]
    ensures m.Keys == n.Keys ==> m == n
  {
  }

  predicate UserRowKept(r: Row, t: Row) {
    r.hidden == t.hidden && r.sortOrder == t.sortOrder && r.namedByLLM == t.namedByLLM
  }

  // ---------------------------------------------------------------- the invariant

  ghost predicate Consistent(a: Album) {
    && a.row.count == |a.members|
    && (a.row.cover.Some? ==> a.row.cover.value in a.members)
    && forall x :: x in Excluded(a.edits) ==> x !in a.members
  }

  /** The engine's own count and cover match the members it drafted. */
  predicate DraftOk(d: Draft) {
    && d.count == |DraftSet(d.entries)|
    && (d.cover.Some? ==> d.cover.value in DraftSet(d.entries))
  }

  lemma RefreshConsistent(a: Album, assets: map<AssetId, Asset>, hadWindow: bool, b: Album)
    requires Refreshed(a, assets, hadWindow, b)
    ensures b.row.count == |b.members| && (b.row.cover.Some? ==> b.row.cover.value in b.members)
    ensures b.row.cover.None? ==> b.members == map[]
  {
  }

  lemma NothingEdited(entries: seq<Entry>, assets: map<AssetId, Asset>)
    ensures Intended(entries, map[], assets) == DraftSet(entries) && Excluded(map[]) == {}
  {
  }

  lemma DraftConsistent(prior: Option<Album>, d: Draft, assets: map<AssetId, Asset>, now: int, b: Album)
    requires SyncedAlbum(prior, d, assets, now, b) && DraftOk(d)
    ensures Consistent(b)
  {
    DraftedMembers(prior, d, assets, now, b);
    var a := Drafted(prior, d, assets, now);
    if a.edits == map[] {
      NothingEdited(d.entries, assets);
    } else {
      RefreshConsistent(a, assets, d.from.Some?, b);
    }
  }

  lemma EditKeepsOut(a: Album, assets: map<AssetId, Asset>, ids: seq<AssetId>, op: Op, now: int, b: Album)
    requires Consistent(a) && Edited(a, assets, ids, op, now, b)
    ensures forall x :: x in Excluded(b.edits) ==> x !in b.members
  {
    forall x | x in Excluded(b.edits) ensures x !in b.members {
      EditedAssets(a, assets, ids, op, now, b, x);
      assert x in a.edits && a.edits[x] == Exclude ==> x in Excluded(a.edits);
    }
  }

  lemma EditConsistent(a: Album, assets: map<AssetId, Asset>, ids: seq<AssetId>, op: Op, now: int, b: Album)
    requires Consistent(a) && Edited(a, assets, ids, op, now, b)
    ensures Consistent(b)
  {
    EditKeepsOut(a, assets, ids, op, now, b);
    EditedAllRow(a, assets, ids, op, now);
    var e := EditedAll(a, assets, ids, op, now);
    if e.members != a.members { RefreshConsistent(e, assets, a.row.from.Some?, b); }
  }

  ghost predicate AllConsistent(moments: map<MomentId, Album>) {
    forall id :: id in moments ==> Consistent(moments[id])
  }

  lemma DraftStepConsistent(before: map<MomentId, Album>, d: Draft, assets: map<AssetId, Asset>, now: int, after: map<MomentId, Album>)
    requires AllConsistent(before) && DraftStep(before, d, assets, now, after) && DraftOk(d)
    ensures AllConsistent(after)
  {
    DraftConsistent(Lookup(before, d.id), d, assets, now, after[d.id]);
  }

  ghost predicate KeepsAt(stages: seq<map<MomentId, Album>>, k: nat)
    requires k + 1 < |stages|
  {
    AllConsistent(stages[k]) ==> AllConsistent(stages[k + 1])
  }

  lemma {:induction false} KeptThroughout(stages: seq<map<MomentId, Album>>, k: nat)
    requires k < |stages| && AllConsistent(stages[0]) && forall j: nat :: j + 1 < |stages| ==> KeepsAt(stages, j)
    ensures AllConsistent(stages[k])
  {
    if k > 0 {
      KeptThroughout(stages, k - 1);
      assert KeepsAt(stages, k - 1);
    }
  }

  lemma SyncConsistent(moments: map<MomentId, Album>, recipe: string, drafts: seq<Draft>, assets: map<AssetId, Asset>, now: int,
                       after: map<MomentId, Album>)
    requires AllConsistent(moments) && Synced(moments, recipe, drafts, assets, now, after)
    requires forall i :: 0 <= i < |drafts| ==> DraftOk(drafts[i])
    ensures AllConsistent(after)
  {
    var stages :| Stages(moments, drafts, assets, now, stages) && after == Surviving(stages[|drafts|], recipe, drafts);
    forall k: nat | k + 1 < |stages| ensures KeepsAt(stages, k) {
      assert DraftStepAt(stages, drafts, assets, now, k);
      if AllConsistent(stages[k]) { DraftStepConsistent(stages[k], drafts[k], assets, now, stages[k + 1]); }
    }
    KeptThroughout(stages, |drafts|);
  }

  // ---------------------------------------------------------------- runs

  /** The statements on the moments tables, and any change of which assets exist, are alive or were taken when. */
  datatype Event =
    | Sync(recipe: string, drafts: seq<Draft>, now: int)
    | Edit(id: MomentId, ids: seq<AssetId>, op: Op, now: int)
    | Hide(id: MomentId)
    | SetTitle(id: MomentId, title: string)
    | Reorder(ids: seq<MomentId>)
    | AssetsChange

  datatype World = World(moments: map<MomentId, Album>, assets: map<AssetId, Asset>)

  /** Every moment keeps its members and edits, and its count and cover. */
  ghost predicate OnlyPresentation(before: map<MomentId, Album>, after: map<MomentId, Album>) {
    && after.Keys == before.Keys
    && forall id :: id in before ==>
         && after[id].members == before[id].members && after[id].edits == before[id].edits
         && after[id].row.count == before[id].row.count && after[id].row.cover == before[id].row.cover
  }

  ghost predicate Step(w: World, e: Event, v: World) {
    && (!e.AssetsChange? ==> v.assets == w.assets)
    && match e
       case Sync(recipe, drafts, now) => v.moments == w.moments || Synced(w.moments, recipe, drafts, w.assets, now, v.moments)
       case Edit(id, ids, op, now) =>
         if id !in w.moments then v.moments == w.moments
         else id in v.moments && v.moments == w.moments[id := v.moments[id]] && Edited(w.moments[id], w.assets, ids, op, now, v.moments[id])
       case AssetsChange => v.moments == w.moments
       case _ => OnlyPresentation(w.moments, v.moments)
  }

  ghost predicate MovesAt(trace: seq<World>, events: seq<Event>, k: nat)
    requires k < |events| && |trace| == |events| + 1
  {
    Step(trace[k], events[k], trace[k + 1])
  }

  ghost predicate Run(trace: seq<World>, events: seq<Event>) {
    |trace| == |events| + 1 && forall k: nat :: k < |events| ==> MovesAt(trace, events, k)
  }

  ghost predicate EventOk(e: Event) {
    e.Sync? ==> forall i :: 0 <= i < |e.drafts| ==> DraftOk(e.drafts[i])
  }

  lemma StepConsistent(w: World, e: Event, v: World)
    requires AllConsistent(w.moments) && Step(w, e, v) && EventOk(e)
    ensures AllConsistent(v.moments)
  {
    match e {
      case Sync(recipe, drafts, now) =>
        if v.moments != w.moments { SyncConsistent(w.moments, recipe, drafts, w.assets, now, v.moments); }
      case Edit(id, ids, op, now) =>
        if id in w.moments { EditConsistent(w.moments[id], w.assets, ids, op, now, v.moments[id]); }
      case _ =>
        forall id | id in v.moments ensures Consistent(v.moments[id]) {
          assert Consistent(w.moments[id]);
        }
    }
  }

  /** Over any run whose drafts are right about their own members, the stored count is the number of members, the cover is
      empty or a member, and no excluded asset is a member. */
  lemma {:induction false} RunsStayConsistent(trace: seq<World>, events: seq<Event>, k: nat)
    requires Run(trace, events) && AllConsistent(trace[0].moments) && k < |trace|
    requires forall i :: 0 <= i < |events| ==> EventOk(events[i])
    ensures AllConsistent(trace[k].moments)
  {
    if k > 0 {
      RunsStayConsistent(trace, events, k - 1);
      assert MovesAt(trace, events, k - 1);
      StepConsistent(trace[k - 1], events[k - 1], trace[k]);
    }
  }

  ghost predicate Out(w: World, id: MomentId, a: AssetId) {
    id in w.moments && a in w.moments[id].edits && w.moments[id].edits[a] == Exclude
  }

  predicate Pins(e: Event, id: MomentId, a: AssetId) {
    e.Edit? && e.id == id && e.op == Pin && a in e.ids
  }

  lemma ExcludeHolds(w: World, e: Event, v: World, id: MomentId, a: AssetId)
    requires Out(w, id, a) && Step(w, e, v) && id in v.moments && !Pins(e, id, a)
    ensures Out(v, id, a)
  {
    match e {
      case Sync(recipe, drafts, now) =>
        if v.moments != w.moments { SyncSurvivors(w.moments, recipe, drafts, w.assets, now, v.moments, id); }
      case Edit(m, ids, op, now) =>
        if m in w.moments { EditMembers(w.moments[m], w.assets, ids, op, now, v.moments[m]); }
      case _ =>
    }
  }

  /** Event k leaves the moment in place and does not pin the asset. */
  ghost predicate SurvivesUnpinned(trace: seq<World>, events: seq<Event>, k: nat, id: MomentId, a: AssetId)
    requires k < |events| && |trace| == |events| + 1
  {
    id in trace[k + 1].moments && !Pins(events[k], id, a)
  }

  /** While its moment survives, an excluded asset stays out until it is pinned again. */
  lemma {:induction false} ExcludedStaysOut(trace: seq<World>, events: seq<Event>, i: nat, k: nat, id: MomentId, a: AssetId)
    requires Run(trace, events) && AllConsistent(trace[0].moments) && i <= k < |trace|
    requires forall j :: 0 <= j < |events| ==> EventOk(events[j])
    requires Out(trace[i], id, a)
    requires forall j: nat :: i <= j < k ==> SurvivesUnpinned(trace, events, j, id, a)
    ensures Out(trace[k], id, a) && a !in trace[k].moments[id].members
  {
    if k > i {
      ExcludedStaysOut(trace, events, i, k - 1, id, a);
      assert MovesAt(trace, events, k - 1) && SurvivesUnpinned(trace, events, k - 1, id, a);
      ExcludeHolds(trace[k - 1], events[k - 1], trace[k], id, a);
    }
    RunsStayConsistent(trace, events, k);
    assert Consistent(trace[k].moments[id]);
    assert a in Excluded(trace[k].moments[id].edits);
  }
}
