/** Moments: members, the user's pin and exclude edits, and the recalculation that updates them in place. */
module Moments {
  import opened Options

  type MomentId = nat
  type AssetId = nat

  datatype Op = Pin | Exclude

  /** `alive`: indexed, not in trash and not offline. */
  datatype Asset = Asset(alive: bool, takenAt: Option<int>)

  /** A moment_assets row. */
  datatype Member = Member(featured: bool, score: real, manual: bool, addedAt: Option<int>)

  datatype Row = Row(recipe: string, title: string, namedByLLM: bool, hidden: bool, sortOrder: Option<int>,
                     cover: Option<AssetId>, count: int, from: Option<int>, to: Option<int>)

  /** One moment with its member and edit rows; both go with the moment when it is deleted. */
  datatype Album = Album(row: Row, members: map<AssetId, Member>, edits: map<AssetId, Op>)

  datatype Entry = Entry(asset: AssetId, featured: bool, score: real, manual: bool)

  datatype Draft = Draft(id: MomentId, recipe: string, title: string, cover: Option<AssetId>, count: int,
                         from: Option<int>, to: Option<int>, entries: seq<Entry>)

  // ---------------------------------------------------------------- membership

  function DraftSet(entries: seq<Entry>): set<AssetId> {
    set e | e in entries :: e.asset
  }

  function Excluded(edits: map<AssetId, Op>): set<AssetId> {
    set a | a in edits && edits[a] == Exclude
  }

  function LivePins(edits: map<AssetId, Op>, assets: map<AssetId, Asset>): set<AssetId> {
    set a | a in edits && edits[a] == Pin && a in assets && assets[a].alive
  }

  /** What a recalculation is for: the draft, less what the user excluded, plus what the user pinned and is alive. */
  function Intended(entries: seq<Entry>, edits: map<AssetId, Op>, assets: map<AssetId, Asset>): set<AssetId> {
    (DraftSet(entries) - Excluded(edits)) + LivePins(edits, assets)
  }

  function PinnedMember(now: int): Member {
    Member(false, 0.0, true, Some(now))
  }

  lemma DraftSetSnoc(entries: seq<Entry>, e: Entry)
    ensures DraftSet(entries + [e]) == DraftSet(entries) + {e.asset}
  {
    forall a ensures a in DraftSet(entries + [e]) <==> a in DraftSet(entries) + {e.asset} {
      if a in DraftSet(entries) {
        var x :| x in entries && x.asset == a;
        assert x in entries + [e];
      }
      assert e in entries + [e];
    }
  }

  /** The draft's rows written over the existing ones; an existing row keeps its join time. */
  function Upserted(members: map<AssetId, Member>, entries: seq<Entry>, now: int): (r: map<AssetId, Member>)
    ensures r.Keys == members.Keys + DraftSet(entries)
    ensures forall a :: a in r ==> r[a].addedAt == if a in members then members[a].addedAt else Some(now)
    ensures forall a :: a in members && a !in DraftSet(entries) ==> r[a] == members[a]
  {
    if entries == [] then members
    else
      var prev := Upserted(members, entries[..|entries| - 1], now);
      var e := entries[|entries| - 1];
      DraftSetSnoc(entries[..|entries| - 1], e);
      assert entries == entries[..|entries| - 1] + [e];
      prev[e.asset := Member(e.featured, e.score, e.manual, if e.asset in prev then prev[e.asset].addedAt else Some(now))]
  }

  function Trimmed(members: map<AssetId, Member>, keep: set<AssetId>): map<AssetId, Member> {
    map a | a in members && a in keep :: members[a]
  }

  /** The user's edits laid over the members: excludes removed, then live pins added where absent. */
  function Replayed(members: map<AssetId, Member>, edits: map<AssetId, Op>, assets: map<AssetId, Asset>, now: int): map<AssetId, Member> {
    (map a | a in LivePins(edits, assets) :: PinnedMember(now)) + (members - Excluded(edits))
  }

  function SyncedMembers(members: map<AssetId, Member>, entries: seq<Entry>, edits: map<AssetId, Op>, assets: map<AssetId, Asset>, now: int): map<AssetId, Member> {
    Replayed(Trimmed(Upserted(members, entries, now), DraftSet(entries) + LivePins(edits, assets)), edits, assets, now)
  }

  /** The simple form: forget the members, insert the draft, replay the edits. */
  function WholesaleMembers(entries: seq<Entry>, edits: map<AssetId, Op>, assets: map<AssetId, Asset>, now: int): map<AssetId, Member> {
    Replayed(Upserted(map[], entries, now), edits, assets, now)
  }

  predicate SameScores(a: Member, b: Member) {
    a.featured == b.featured && a.score == b.score && a.manual == b.manual
  }

  lemma {:induction false} UpsertScores(m: map<AssetId, Member>, n: map<AssetId, Member>, entries: seq<Entry>, now: int, a: AssetId)
    requires a in DraftSet(entries)
    ensures SameScores(Upserted(m, entries, now)[a], Upserted(n, entries, now)[a])
  {
    var e := entries[|entries| - 1];
    if e.asset != a {
      var x :| x in entries && x.asset == a;
      assert x in entries[..|entries| - 1];
      UpsertScores(m, n, entries[..|entries| - 1], now, a);
    }
  }

  lemma SyncedKeys(members: map<AssetId, Member>, entries: seq<Entry>, edits: map<AssetId, Op>, assets: map<AssetId, Asset>, now: int)
    ensures SyncedMembers(members, entries, edits, assets, now).Keys == Intended(entries, edits, assets)
  {
  }

  lemma WholesaleKeys(entries: seq<Entry>, edits: map<AssetId, Op>, assets: map<AssetId, Asset>, now: int)
    ensures WholesaleMembers(entries, edits, assets, now).Keys == Intended(entries, edits, assets)
  {
  }

  /** The in-place diff has the members of wholesale replacement; drafted members carry the same scores; a member that was
      there keeps its join time, and a pin-only member keeps its whole row. */
  lemma DiffAgreesWithWholesale(members: map<AssetId, Member>, entries: seq<Entry>, edits: map<AssetId, Op>, assets: map<AssetId, Asset>, now: int)
    ensures var r, w := SyncedMembers(members, entries, edits, assets, now), WholesaleMembers(entries, edits, assets, now);
            && r.Keys == w.Keys == Intended(entries, edits, assets)
            && (forall a :: a in r && a in DraftSet(entries) ==> SameScores(r[a], w[a]))
            && (forall a :: a in r ==> r[a].addedAt == if a in members then members[a].addedAt else Some(now))
            && (forall a :: a in r && a in members && a !in DraftSet(entries) ==> r[a] == members[a])
  {
    var r, w := SyncedMembers(members, entries, edits, assets, now), WholesaleMembers(entries, edits, assets, now);
    SyncedKeys(members, entries, edits, assets, now);
    WholesaleKeys(entries, edits, assets, now);
    forall a | a in r && a in DraftSet(entries) ensures SameScores(r[a], w[a]) {
      UpsertScores(members, map[], entries, now, a);
    }
  }

  // ---------------------------------------------------------------- derived fields

  /** The candidate with the highest score, and of those the smallest id. */
  ghost predicate IsBest(members: map<AssetId, Member>, candidates: set<AssetId>, a: AssetId)
    requires candidates <= members.Keys
  {
    a in candidates &&
    forall b :: b in candidates ==> members[a].score > members[b].score || (members[a].score == members[b].score && a <= b)
  }

  lemma {:induction false} BestExists(members: map<AssetId, Member>, candidates: set<AssetId>) returns (a: AssetId)
    requires candidates <= members.Keys && candidates != {}
    ensures IsBest(members, candidates, a)
    decreases |candidates|
  {
    a :| a in candidates;
    if candidates != {a} {
      assert candidates == (candidates - {a}) + {a};
      var b := BestExists(members, candidates - {a});
      if members[b].score > members[a].score || (members[b].score == members[a].score && b <= a) { a := b; }
    }
  }

  function FeaturedOf(members: map<AssetId, Member>): set<AssetId> {
    set a | a in members && members[a].featured
  }

  /** The cover after a refresh: the current one while it is a member, else the best featured member, else the best member. */
  ghost predicate IsCover(members: map<AssetId, Member>, current: Option<AssetId>, cover: Option<AssetId>) {
    if current.Some? && current.value in members then cover == current
    else if members == map[] then cover == None
    else
      cover.Some? && IsBest(members, if FeaturedOf(members) != {} then FeaturedOf(members) else members.Keys, cover.value)
  }

  function TimesOf(ids: set<AssetId>, assets: map<AssetId, Asset>): set<int> {
    set a | a in ids && a in assets && assets[a].takenAt.Some? :: assets[a].takenAt.value
  }

  function Times(members: map<AssetId, Member>, assets: map<AssetId, Asset>): set<int> {
    TimesOf(members.Keys, assets)
  }

  ghost predicate IsWindow(times: set<int>, from: Option<int>, to: Option<int>) {
    if times == {} then from == None && to == None
    else
      && from.Some? && from.value in times && (forall t :: t in times ==> from.value <= t)
      && to.Some? && to.value in times && (forall t :: t in times ==> t <= to.value)
  }

  /** The album after its count, cover and (for a moment that has one) time window are recomputed. */
  ghost predicate Refreshed(a: Album, assets: map<AssetId, Asset>, hadWindow: bool, b: Album) {
    && b.members == a.members && b.edits == a.edits
    && b.row == a.row.(count := b.row.count, cover := b.row.cover, from := b.row.from, to := b.row.to)
    && b.row.count == |a.members|
    && IsCover(a.members, a.row.cover, b.row.cover)
    && if hadWindow then IsWindow(Times(a.members, assets), b.row.from, b.row.to) else b.row.from == a.row.from && b.row.to == a.row.to
  }

  // ---------------------------------------------------------------- one draft, one recipe

  /** The moments row once the draft is written over it. */
  function UpsertedRow(prior: Option<Album>, d: Draft): Album {
    match prior
    case None => Album(Row(d.recipe, d.title, false, false, None, d.cover, d.count, d.from, d.to), map[], map[])
    case Some(a) =>
      a.(row := a.row.(recipe := d.recipe, title := if a.row.namedByLLM then a.row.title else d.title,
                       cover := d.cover, count := d.count, from := d.from, to := d.to))
  }

  /** The album before the derived fields are refreshed. */
  function Drafted(prior: Option<Album>, d: Draft, assets: map<AssetId, Asset>, now: int): Album {
    var a := UpsertedRow(prior, d);
    a.(members := SyncedMembers(a.members, d.entries, a.edits, assets, now))
  }

  ghost predicate SyncedAlbum(prior: Option<Album>, d: Draft, assets: map<AssetId, Asset>, now: int, b: Album) {
    var a := Drafted(prior, d, assets, now);
    if a.edits == map[] then b == a else Refreshed(a, assets, d.from.Some?, b)
  }

  function Lookup(moments: map<MomentId, Album>, id: MomentId): Option<Album> {
    if id in moments then Some(moments[id]) else None
  }

  ghost predicate DraftStep(before: map<MomentId, Album>, d: Draft, assets: map<AssetId, Asset>, now: int, after: map<MomentId, Album>) {
    && d.id in after && after == before[d.id := after[d.id]]
    && SyncedAlbum(Lookup(before, d.id), d, assets, now, after[d.id])
  }

  ghost predicate DraftStepAt(stages: seq<map<MomentId, Album>>, drafts: seq<Draft>, assets: map<AssetId, Asset>, now: int, k: nat)
    requires k < |drafts| && k + 1 < |stages|
  {
    DraftStep(stages[k], drafts[k], assets, now, stages[k + 1])
  }

  /** stages[k] is the table after the first k drafts. */
  ghost predicate Stages(moments: map<MomentId, Album>, drafts: seq<Draft>, assets: map<AssetId, Asset>, now: int, stages: seq<map<MomentId, Album>>) {
    && |stages| == |drafts| + 1 && stages[0] == moments
    && forall k: nat :: k < |drafts| ==> DraftStepAt(stages, drafts, assets, now, k)
  }

  function DraftIds(drafts: seq<Draft>): set<MomentId> {
    set d | d in drafts :: d.id
  }

  function Surviving(moments: map<MomentId, Album>, recipe: string, drafts: seq<Draft>): map<MomentId, Album> {
    map id | id in moments && (id in DraftIds(drafts) || moments[id].row.recipe != recipe) :: moments[id]
  }

  /** A committed SyncRecipeMoments. */
  ghost predicate Synced(moments: map<MomentId, Album>, recipe: string, drafts: seq<Draft>, assets: map<AssetId, Asset>, now: int,
                         after: map<MomentId, Album>) {
    exists stages :: Stages(moments, drafts, assets, now, stages) && after == Surviving(stages[|drafts|], recipe, drafts)
  }

  // ---------------------------------------------------------------- what one draft does

  lemma DraftedMembers(prior: Option<Album>, d: Draft, assets: map<AssetId, Asset>, now: int, b: Album)
    requires SyncedAlbum(prior, d, assets, now, b)
    ensures var edits, members := if prior.Some? then prior.value.edits else map[], if prior.Some? then prior.value.members else map[];
            && b.edits == edits
            && b.members.Keys == Intended(d.entries, edits, assets)
            && (forall a :: a in b.members ==> b.members[a].addedAt == if a in members then members[a].addedAt else Some(now))
  {
    var a := UpsertedRow(prior, d);
    DiffAgreesWithWholesale(a.members, d.entries, a.edits, assets, now);
  }

  /** What a recalculation leaves alone: the user's edits, hiding and ordering, and a title the language model gave. */
  ghost predicate UserFieldsKept(a: Album, b: Album) {
    && b.edits == a.edits && b.row.hidden == a.row.hidden && b.row.sortOrder == a.row.sortOrder
    && b.row.namedByLLM == a.row.namedByLLM && (a.row.namedByLLM ==> b.row.title == a.row.title)
  }

  /** The user and the language model have not touched the row. */
  predicate Plain(r: Row) {
    !r.hidden && r.sortOrder == None && !r.namedByLLM
  }

  // ---------------------------------------------------------------- a whole sync

  function Edits(moments: map<MomentId, Album>, id: MomentId): map<AssetId, Op> {
    if id in moments then moments[id].edits else map[]
  }

  function Members(moments: map<MomentId, Album>, id: MomentId): map<AssetId, Member> {
    if id in moments then moments[id].members else map[]
  }

  /** How writing one draft changes moment `id`. */
  ghost predicate StepOn(before: map<MomentId, Album>, d: Draft, assets: map<AssetId, Asset>, now: int, after: map<MomentId, Album>, id: MomentId) {
    && (id in after <==> id in before || id == d.id)
    && (id in before ==> UserFieldsKept(before[id], after[id]))
    && (id !in before && id in after ==> Plain(after[id].row))
    && Edits(after, id) == Edits(before, id)
    && if id != d.id then Lookup(after, id) == Lookup(before, id)
       else
         && Members(after, id).Keys == Intended(d.entries, Edits(before, id), assets)
         && forall a :: a in Members(after, id) ==>
              Members(after, id)[a].addedAt == if a in Members(before, id) then Members(before, id)[a].addedAt else Some(now)
  }

  lemma DraftStepOn(before: map<MomentId, Album>, d: Draft, assets: map<AssetId, Asset>, now: int, after: map<MomentId, Album>, id: MomentId)
    requires DraftStep(before, d, assets, now, after)
    ensures StepOn(before, d, assets, now, after, id)
  {
    if id == d.id { DraftedMembers(Lookup(before, id), d, assets, now, after[id]); }
  }

  lemma StageOn(moments: map<MomentId, Album>, drafts: seq<Draft>, assets: map<AssetId, Asset>, now: int,
                stages: seq<map<MomentId, Album>>, k: nat, id: MomentId)
    requires Stages(moments, drafts, assets, now, stages) && k < |drafts|
    ensures StepOn(stages[k], drafts[k], assets, now, stages[k + 1], id)
  {
    assert DraftStepAt(stages, drafts, assets, now, k);
    DraftStepOn(stages[k], drafts[k], assets, now, stages[k + 1], id);
  }

  /** `on` says of each draft what it did to moment `id`. */
  ghost predicate History(stages: seq<map<MomentId, Album>>, drafts: seq<Draft>, assets: map<AssetId, Asset>, now: int, id: MomentId) {
    |stages| == |drafts| + 1 && forall k: nat :: k < |drafts| ==> HistoryAt(stages, drafts, assets, now, id, k)
  }

  ghost predicate HistoryAt(stages: seq<map<MomentId, Album>>, drafts: seq<Draft>, assets: map<AssetId, Asset>, now: int, id: MomentId, k: nat)
    requires k < |drafts| && k + 1 < |stages|
  {
    StepOn(stages[k], drafts[k], assets, now, stages[k + 1], id)
  }

  lemma HistoryOf(moments: map<MomentId, Album>, drafts: seq<Draft>, assets: map<AssetId, Asset>, now: int,
                  stages: seq<map<MomentId, Album>>, id: MomentId)
    requires Stages(moments, drafts, assets, now, stages)
    ensures History(stages, drafts, assets, now, id)
  {
    forall k: nat | k < |drafts| ensures HistoryAt(stages, drafts, assets, now, id, k) {
      StageOn(moments, drafts, assets, now, stages, k, id);
    }
  }

  lemma {:induction false} StageKeeps(stages: seq<map<MomentId, Album>>, drafts: seq<Draft>, assets: map<AssetId, Asset>, now: int, k: nat, id: MomentId)
    requires History(stages, drafts, assets, now, id) && k <= |drafts|
    ensures id in stages[0] ==> id in stages[k] && UserFieldsKept(stages[0][id], stages[k][id])
    ensures id !in stages[0] && id in stages[k] ==> Plain(stages[k][id].row)
    ensures Edits(stages[k], id) == Edits(stages[0], id)
    ensures (forall j :: 0 <= j < k ==> drafts[j].id != id) ==> Lookup(stages[k], id) == Lookup(stages[0], id)
    ensures id in stages[k] <==> id in stages[0] || exists j :: 0 <= j < k && drafts[j].id == id
    ensures k > 0 && drafts[k - 1].id == id ==> Members(stages[k], id).Keys == Intended(drafts[k - 1].entries, Edits(stages[0], id), assets)
  {
    if k > 0 {
      StageKeeps(stages, drafts, assets, now, k - 1, id);
      assert HistoryAt(stages, drafts, assets, now, id, k - 1);
    }
  }

  ghost predicate LastDraft(drafts: seq<Draft>, i: nat, id: MomentId) {
    i < |drafts| && drafts[i].id == id && forall j :: i < j < |drafts| ==> drafts[j].id != id
  }

  lemma {:induction false} LaterDrafts(stages: seq<map<MomentId, Album>>, drafts: seq<Draft>, assets: map<AssetId, Asset>, now: int,
                                       i: nat, k: nat, id: MomentId)
    requires History(stages, drafts, assets, now, id) && LastDraft(drafts, i, id) && i < k <= |drafts|
    ensures Lookup(stages[k], id) == Lookup(stages[i + 1], id)
  {
    if k > i + 1 {
      LaterDrafts(stages, drafts, assets, now, i, k - 1, id);
      assert HistoryAt(stages, drafts, assets, now, id, k - 1);
    }
  }

  /** Every drafted moment ends with the intended members of its last draft (trips in one ISO week share an id). */
  lemma SyncMembership(moments: map<MomentId, Album>, recipe: string, drafts: seq<Draft>, assets: map<AssetId, Asset>, now: int,
                       after: map<MomentId, Album>, i: nat)
    requires Synced(moments, recipe, drafts, assets, now, after) && i < |drafts| && LastDraft(drafts, i, drafts[i].id)
    ensures drafts[i].id in after
    ensures after[drafts[i].id].members.Keys == Intended(drafts[i].entries, Edits(moments, drafts[i].id), assets)
    ensures var edits := if drafts[i].id in moments then moments[drafts[i].id].edits else map[];
            forall a :: a in after[drafts[i].id].members <==>
                 || ((exists e :: e in drafts[i].entries && e.asset == a) && !(a in edits && edits[a] == Exclude))
                 || (a in edits && edits[a] == Pin && a in assets && assets[a].alive)
  {
    var id := drafts[i].id;
    var stages :| Stages(moments, drafts, assets, now, stages) && after == Surviving(stages[|drafts|], recipe, drafts);
    HistoryOf(moments, drafts, assets, now, stages, id);
    StageKeeps(stages, drafts, assets, now, i + 1, id);
    LaterDrafts(stages, drafts, assets, now, i, |drafts|, id);
    assert drafts[i] in drafts;
  }

  // ---------------------------------------------------------------- the rows a sync leaves

  /** A freshly picked cover is featured if any member is, has the highest score among its kind, and of those the smallest id. */
  lemma PickedCover(members: map<AssetId, Member>, current: Option<AssetId>, cover: Option<AssetId>)
    requires IsCover(members, current, cover) && !(current.Some? && current.value in members) && members != map[]
    ensures cover.Some? && cover.value in members
    ensures forall x :: x in members ==>
              && (members[x].featured ==> members[cover.value].featured)
              && (members[x].featured == members[cover.value].featured ==>
                    members[x].score < members[cover.value].score || (members[x].score == members[cover.value].score && cover.value <= x))
  {
    forall x | x in members && members[x].featured ensures x in FeaturedOf(members) {
    }
  }

  /** What a refresh leaves: count, cover and window in terms of the members. */
  lemma RefreshedRow(a: Album, assets: map<AssetId, Asset>, hadWindow: bool, b: Album)
    requires Refreshed(a, assets, hadWindow, b)
    ensures b.members == a.members && b.edits == a.edits && b.row.count == |a.members|
    ensures b.row.recipe == a.row.recipe && b.row.title == a.row.title && UserFieldsKept(a, b)
    ensures a.row.cover.Some? && a.row.cover.value in a.members ==> b.row.cover == a.row.cover
    ensures b.row.cover.None? <==> a.members == map[]
    ensures !(a.row.cover.Some? && a.row.cover.value in a.members) && a.members != map[] ==>
              var c := b.row.cover.value;
              && c in a.members
              && forall x :: x in a.members ==>
                   && (a.members[x].featured ==> a.members[c].featured)
                   && (a.members[x].featured == a.members[c].featured ==>
                         a.members[x].score < a.members[c].score || (a.members[x].score == a.members[c].score && c <= x))
    ensures !hadWindow ==> b.row.from == a.row.from && b.row.to == a.row.to
    ensures hadWindow ==>
              && (forall x :: x in a.members && x in assets && assets[x].takenAt.Some? ==>
                    b.row.from.Some? && b.row.to.Some? && b.row.from.value <= assets[x].takenAt.value <= b.row.to.value)
              && (b.row.from.Some? ==> exists x :: x in a.members && x in assets && assets[x].takenAt == b.row.from)
              && (b.row.to.Some? ==> exists x :: x in a.members && x in assets && assets[x].takenAt == b.row.to)
  {
    if !(a.row.cover.Some? && a.row.cover.value in a.members) && a.members != map[] { PickedCover(a.members, a.row.cover, b.row.cover); }
    if hadWindow {
      var times := Times(a.members, assets);
      forall x | x in a.members && x in assets && assets[x].takenAt.Some? ensures assets[x].takenAt.value in times {
      }
    }
  }

  /** The row a draft leaves: its recipe and title (unless the language model gave one), and the flags of the row before. */
  lemma DraftedRow(prior: Option<Album>, d: Draft, assets: map<AssetId, Asset>, now: int, b: Album)
    requires SyncedAlbum(prior, d, assets, now, b)
    ensures b.row.recipe == d.recipe
    ensures b.row.title == if prior.Some? && prior.value.row.namedByLLM then prior.value.row.title else d.title
    ensures if prior.Some? then UserFieldsKept(prior.value, b) else Plain(b.row) && b.edits == map[]
    ensures b.edits == map[] ==> b.row.from == d.from && b.row.to == d.to && b.row.cover == d.cover && b.row.count == d.count
    ensures b.edits != map[] ==>
              && b.row.count == |b.members|
              && (d.cover.Some? && d.cover.value in b.members ==> b.row.cover == d.cover)
              && (b.row.cover.None? <==> b.members == map[]) && (b.row.cover.Some? ==> b.row.cover.value in b.members)
              && (d.from.None? ==> b.row.from == None && b.row.to == d.to)
              && (d.from.Some? ==> forall x :: x in b.members && x in assets && assets[x].takenAt.Some? ==>
                    b.row.from.Some? && b.row.to.Some? && b.row.from.value <= assets[x].takenAt.value <= b.row.to.value)
  {
    if b.edits != map[] { RefreshedRow(Drafted(prior, d, assets, now), assets, d.from.Some?, b); }
  }

  ghost predicate LastEntry(entries: seq<Entry>, j: nat, a: AssetId) {
    j < |entries| && entries[j].asset == a && forall k :: j < k < |entries| ==> entries[k].asset != a
  }

  lemma {:induction false} UpsertedLast(members: map<AssetId, Member>, entries: seq<Entry>, now: int, j: nat)
    requires j < |entries| && LastEntry(entries, j, entries[j].asset)
    ensures var a, e := entries[j].asset, entries[j];
            a in Upserted(members, entries, now) && SameScores(Upserted(members, entries, now)[a], Member(e.featured, e.score, e.manual, None))
  {
    if j < |entries| - 1 { UpsertedLast(members, entries[..|entries| - 1], now, j); }
  }

  /** The member rows of a sync: a drafted asset has the columns of its last entry; one that only a pin keeps has its old row,
      or a plain row of its own that is marked as manual. */
  lemma SyncedRows(members: map<AssetId, Member>, entries: seq<Entry>, edits: map<AssetId, Op>, assets: map<AssetId, Asset>, now: int, a: AssetId)
    requires a in SyncedMembers(members, entries, edits, assets, now)
    ensures var r := SyncedMembers(members, entries, edits, assets, now)[a];
            && (forall j: nat :: LastEntry(entries, j, a) ==> SameScores(r, Member(entries[j].featured, entries[j].score, entries[j].manual, None)))
            && ((forall e :: e in entries ==> e.asset != a) ==> r == if a in members then members[a] else Member(false, 0.0, true, Some(now)))
  {
    var up, r := Upserted(members, entries, now), SyncedMembers(members, entries, edits, assets, now)[a];
    forall j: nat | LastEntry(entries, j, a) ensures SameScores(r, Member(entries[j].featured, entries[j].score, entries[j].manual, None)) {
      UpsertedLast(members, entries, now, j);
      assert entries[j] in entries;
      assert r == up[a];
    }
  }

  lemma DraftedScores(prior: Option<Album>, d: Draft, assets: map<AssetId, Asset>, now: int, b: Album, a: AssetId)
    requires SyncedAlbum(prior, d, assets, now, b) && a in b.members
    ensures forall j: nat :: LastEntry(d.entries, j, a) ==>
              b.members[a].featured == d.entries[j].featured && b.members[a].score == d.entries[j].score && b.members[a].manual == d.entries[j].manual
    ensures (forall e :: e in d.entries ==> e.asset != a) ==>
              b.members[a] == if prior.Some? && a in prior.value.members then prior.value.members[a] else Member(false, 0.0, true, Some(now))
  {
    var base := UpsertedRow(prior, d);
    SyncedRows(base.members, d.entries, base.edits, assets, now, a);
  }

  /** The last draft of a moment decides: what the moment was before it, and that it is what a sync leaves. */
  lemma LastStage(moments: map<MomentId, Album>, recipe: string, drafts: seq<Draft>, assets: map<AssetId, Asset>, now: int,
                  after: map<MomentId, Album>, i: nat) returns (prior: Option<Album>)
    requires Synced(moments, recipe, drafts, assets, now, after) && i < |drafts| && LastDraft(drafts, i, drafts[i].id)
    ensures var id := drafts[i].id;
            && id in after && SyncedAlbum(prior, drafts[i], assets, now, after[id])
            && (id in moments ==> prior.Some? && UserFieldsKept(moments[id], prior.value))
            && (id !in moments && prior.Some? ==> Plain(prior.value.row) && prior.value.edits == map[])
  {
    var id := drafts[i].id;
    var stages :| Stages(moments, drafts, assets, now, stages) && after == Surviving(stages[|drafts|], recipe, drafts);
    HistoryOf(moments, drafts, assets, now, stages, id);
    StageKeeps(stages, drafts, assets, now, i, id);
    LaterDrafts(stages, drafts, assets, now, i, |drafts|, id);
    assert DraftStepAt(stages, drafts, assets, now, i);
    assert drafts[i] in drafts;
    prior := Lookup(stages[i], id);
  }

  /** The row of a drafted moment after a sync: recipe and title of its last draft, but a title the language model gave stays;
      without edits also window, cover and count of the draft, with edits the count of the members; a moment that is new is not
      hidden, not ordered and not named by the language model. */
  lemma SyncRow(moments: map<MomentId, Album>, recipe: string, drafts: seq<Draft>, assets: map<AssetId, Asset>, now: int,
                after: map<MomentId, Album>, i: nat)
    requires Synced(moments, recipe, drafts, assets, now, after) && i < |drafts| && LastDraft(drafts, i, drafts[i].id)
    ensures var id, d := drafts[i].id, drafts[i];
            && id in after && after[id].row.recipe == d.recipe
            && after[id].row.title == (if id in moments && moments[id].row.namedByLLM then moments[id].row.title else d.title)
            && (id !in moments ==> !after[id].row.hidden && after[id].row.sortOrder == None && !after[id].row.namedByLLM && after[id].edits == map[])
            && (after[id].edits == map[] ==>
                  after[id].row.from == d.from && after[id].row.to == d.to && after[id].row.cover == d.cover && after[id].row.count == d.count)
            && (after[id].edits != map[] ==>
                  && after[id].row.count == |after[id].members|
                  && (d.cover.Some? && d.cover.value in after[id].members ==> after[id].row.cover == d.cover)
                  && (d.from.None? ==> after[id].row.from == None && after[id].row.to == d.to))
  {
    var prior := LastStage(moments, recipe, drafts, assets, now, after, i);
    DraftedRow(prior, drafts[i], assets, now, after[drafts[i].id]);
  }

  /** Its member rows: a drafted member has the columns of its last entry in the last draft. */
  lemma SyncScores(moments: map<MomentId, Album>, recipe: string, drafts: seq<Draft>, assets: map<AssetId, Asset>, now: int,
                   after: map<MomentId, Album>, i: nat, j: nat)
    requires Synced(moments, recipe, drafts, assets, now, after) && i < |drafts| && LastDraft(drafts, i, drafts[i].id)
    requires j < |drafts[i].entries| && LastEntry(drafts[i].entries, j, drafts[i].entries[j].asset)
    ensures var id, e := drafts[i].id, drafts[i].entries[j];
            id in after && (e.asset in after[id].members ==>
              var r := after[id].members[e.asset]; r.featured == e.featured && r.score == e.score && r.manual == e.manual)
  {
    var prior := LastStage(moments, recipe, drafts, assets, now, after, i);
    var b := after[drafts[i].id];
    if drafts[i].entries[j].asset in b.members { DraftedScores(prior, drafts[i], assets, now, b, drafts[i].entries[j].asset); }
  }

  /** Which moments a sync leaves: the drafted ones and those of other recipes; and what it never touches. */
  lemma SyncSurvivors(moments: map<MomentId, Album>, recipe: string, drafts: seq<Draft>, assets: map<AssetId, Asset>, now: int,
                      after: map<MomentId, Album>, id: MomentId)
    requires Synced(moments, recipe, drafts, assets, now, after)
    ensures id in after <==> id in DraftIds(drafts) || (id in moments && moments[id].row.recipe != recipe)
    ensures id in moments && id in after ==> UserFieldsKept(moments[id], after[id])
    ensures id in after && id !in DraftIds(drafts) ==> after[id] == moments[id]
    ensures id in after ==> Edits(after, id) == Edits(moments, id)
  {
    var stages :| Stages(moments, drafts, assets, now, stages) && after == Surviving(stages[|drafts|], recipe, drafts);
    HistoryOf(moments, drafts, assets, now, stages, id);
    StageKeeps(stages, drafts, assets, now, |drafts|, id);
    if id in DraftIds(drafts) {
      var d :| d in drafts && d.id == id;
      var j :| 0 <= j < |drafts| && drafts[j] == d;
    } else {
      forall j | 0 <= j < |drafts| ensures drafts[j].id != id {
        assert drafts[j] in drafts;
      }
    }
  }

  /** The asset is a member after each of the first k drafts of the moment. */
  ghost predicate AlwaysIn(drafts: seq<Draft>, k: nat, id: MomentId, edits: map<AssetId, Op>, assets: map<AssetId, Asset>, a: AssetId)
    requires k <= |drafts|
  {
    forall j :: 0 <= j < k && drafts[j].id == id ==> a in Intended(drafts[j].entries, edits, assets)
  }

  lemma {:induction false} StageJoinTime(moments: map<MomentId, Album>, drafts: seq<Draft>, assets: map<AssetId, Asset>, now: int,
                                         stages: seq<map<MomentId, Album>>, k: nat, id: MomentId, a: AssetId)
    requires History(stages, drafts, assets, now, id) && stages[0] == moments && k <= |drafts| && id in moments && a in moments[id].members
    ensures id in stages[k]
    ensures a in stages[k][id].members ==>
              stages[k][id].members[a].addedAt ==
              if AlwaysIn(drafts, k, id, moments[id].edits, assets, a) then moments[id].members[a].addedAt else Some(now)
    ensures AlwaysIn(drafts, k, id, moments[id].edits, assets, a) ==> a in stages[k][id].members
  {
    if k > 0 {
      StageJoinTime(moments, drafts, assets, now, stages, k - 1, id, a);
      StageKeeps(stages, drafts, assets, now, k - 1, id);
      assert HistoryAt(stages, drafts, assets, now, id, k - 1);
    }
  }

  /** Join times: a member that every draft of its moment keeps has its old one afterwards; one that a draft dropped and a
      later draft of the same moment brought back is stamped anew. */
  lemma JoinTimes(moments: map<MomentId, Album>, recipe: string, drafts: seq<Draft>, assets: map<AssetId, Asset>, now: int,
                  after: map<MomentId, Album>, id: MomentId, a: AssetId)
    requires Synced(moments, recipe, drafts, assets, now, after)
    requires id in moments && a in moments[id].members && id in after && a in after[id].members
    ensures after[id].members[a].addedAt ==
            if AlwaysIn(drafts, |drafts|, id, moments[id].edits, assets, a) then moments[id].members[a].addedAt else Some(now)
  {
    var stages :| Stages(moments, drafts, assets, now, stages) && after == Surviving(stages[|drafts|], recipe, drafts);
    HistoryOf(moments, drafts, assets, now, stages, id);
    StageJoinTime(moments, drafts, assets, now, stages, |drafts|, id, a);
  }

  /** Two drafts of one moment: a member that the first leaves out and the second brings back has joined anew. */
  lemma SharedIdRestamps(moments: map<MomentId, Album>, recipe: string, first: Draft, second: Draft, assets: map<AssetId, Asset>, now: int,
                         after: map<MomentId, Album>, a: AssetId)
    requires first.id == second.id && first.id in moments && moments[first.id].edits == map[]
    requires a in moments[first.id].members && a !in DraftSet(first.entries) && a in DraftSet(second.entries)
    requires Synced(moments, recipe, [first, second], assets, now, after)
    ensures first.id in after && a in after[first.id].members && after[first.id].members[a].addedAt == Some(now)
  {
    var id, drafts := first.id, [first, second];
    SyncMembership(moments, recipe, drafts, assets, now, after, 1);
    JoinTimes(moments, recipe, drafts, assets, now, after, id, a);
    assert a !in Intended(drafts[0].entries, moments[id].edits, assets);
  }

  /** One draft of a moment without edits. */
  lemma PlainStep(moments: map<MomentId, Album>, d: Draft, assets: map<AssetId, Asset>, now: int) returns (after: map<MomentId, Album>)
    requires Edits(moments, d.id) == map[]
    ensures DraftStep(moments, d, assets, now, after) && Edits(after, d.id) == map[]
  {
    after := moments[d.id := Drafted(Lookup(moments, d.id), d, assets, now)];
  }

  /** Two drafts of such a moment, synced one after the other. */
  lemma SyncOfTwo(moments: map<MomentId, Album>, recipe: string, first: Draft, second: Draft, assets: map<AssetId, Asset>, now: int)
    returns (after: map<MomentId, Album>)
    requires first.id == second.id && Edits(moments, first.id) == map[]
    ensures Synced(moments, recipe, [first, second], assets, now, after)
  {
    var one := PlainStep(moments, first, assets, now);
    var two := PlainStep(one, second, assets, now);
    TwoStages(moments, first, one, second, two, assets, now);
    after := Surviving(two, recipe, [first, second]);
  }

  lemma TwoStages(moments: map<MomentId, Album>, first: Draft, one: map<MomentId, Album>, second: Draft, two: map<MomentId, Album>,
                  assets: map<AssetId, Asset>, now: int)
    requires DraftStep(moments, first, assets, now, one) && DraftStep(one, second, assets, now, two)
    ensures Stages(moments, [first, second], assets, now, [moments, one, two])
  {
    var drafts, stages := [first, second], [moments, one, two];
    forall k: nat | k < |drafts| ensures DraftStepAt(stages, drafts, assets, now, k) {
      assert k == 0 || k == 1;
    }
  }

  /** Such a sync exists: asset 5 joined at 0, and a week whose trips hold asset 6 and asset 5 restamps it. */
  lemma SharedWeek(now: int) returns (moments: map<MomentId, Album>, assets: map<AssetId, Asset>, drafts: seq<Draft>, after: map<MomentId, Album>)
    requires now != 0
    ensures |drafts| == 2 && drafts[0].id == drafts[1].id == 1 && forall d, e :: d in drafts && e in d.entries ==> e.asset in assets
    ensures Synced(moments, "trip", drafts, assets, now, after) && 1 in moments && 1 in after
    ensures 5 in moments[1].members && 5 in after[1].members && after[1].members[5].addedAt != moments[1].members[5].addedAt
  {
    var row := Row("trip", "Week", false, false, None, None, 1, None, None);
    moments := map[1 := Album(row, map[5 := Member(false, 0.0, false, Some(0))], map[])];
    assets := map[5 := Asset(true, None), 6 := Asset(true, None)];
    var other, kept := Entry(6, false, 0.0, false), Entry(5, false, 0.0, false);
    var first := Draft(1, "trip", "Week", None, 1, None, None, [other]);
    var second := Draft(1, "trip", "Week", None, 1, None, None, [kept]);
    assert kept in second.entries;
    drafts := [first, second];
    after := SyncOfTwo(moments, "trip", first, second, assets, now);
    SharedIdRestamps(moments, "trip", first, second, assets, now, after, 5);
  }

  /** With one draft per moment, every asset that was and stays a member keeps its join time. */
  lemma JoinTimesKept(moments: map<MomentId, Album>, recipe: string, drafts: seq<Draft>, assets: map<AssetId, Asset>, now: int,
                      after: map<MomentId, Album>, id: MomentId, a: AssetId)
    requires Synced(moments, recipe, drafts, assets, now, after)
    requires id in moments && a in moments[id].members && id in after && a in after[id].members
    requires forall i, j :: 0 <= i < j < |drafts| ==> drafts[i].id != drafts[j].id
    ensures after[id].members[a].addedAt == moments[id].members[a].addedAt
  {
    JoinTimes(moments, recipe, drafts, assets, now, after, id, a);
    forall j | 0 <= j < |drafts| && drafts[j].id == id ensures a in Intended(drafts[j].entries, moments[id].edits, assets) {
      SyncMembership(moments, recipe, drafts, assets, now, after, j);
    }
  }

  lemma {:induction false} LastOf(drafts: seq<Draft>, id: MomentId) returns (i: nat)
    requires id in DraftIds(drafts)
    ensures LastDraft(drafts, i, id)
  {
    var d :| d in drafts && d.id == id;
    var last := |drafts| - 1;
    if drafts[last].id == id {
      i := last;
    } else {
      assert d in drafts[..last];
      i := LastOf(drafts[..last], id);
    }
  }

  /** Syncing the same drafts again changes neither the moments nor their members. */
  lemma SyncTwice(moments: map<MomentId, Album>, recipe: string, drafts: seq<Draft>, assets: map<AssetId, Asset>, now: int, later: int,
                  once: map<MomentId, Album>, twice: map<MomentId, Album>)
    requires Synced(moments, recipe, drafts, assets, now, once) && Synced(once, recipe, drafts, assets, later, twice)
    ensures twice.Keys == once.Keys
    ensures forall id :: id in once ==> twice[id].members.Keys == once[id].members.Keys
  {
    forall id ensures id in once <==> id in twice
      ensures id in once ==> twice[id].members.Keys == once[id].members.Keys
    {
      SyncSurvivors(moments, recipe, drafts, assets, now, once, id);
      SyncSurvivors(once, recipe, drafts, assets, later, twice, id);
      if id in DraftIds(drafts) {
        var i := LastOf(drafts, id);
        SyncMembership(moments, recipe, drafts, assets, now, once, i);
        SyncMembership(once, recipe, drafts, assets, later, twice, i);
      }
    }
  }
}
