/** Smart search: the over-fetching loop, the page slice, and the first page with its OCR hits in front. */
module Search {
  import opened Options
  import opened SearchCut

  /** A neighbour of the query vector, nearest first; `live`: not in trash, not offline, not a live-photo video, and within
      the year and month filters. */
  datatype Candidate = Candidate(id: nat, live: bool, score: Option<real>)

  const MAX_K: nat := 2000
  const SLACK: nat := 16

  function Min(a: nat, b: nat): nat {
    if a < b then a else b
  }

  function AsHit(c: Candidate): Hit {
    Hit(c.id, Semantic, c.score, false)
  }

  /** A floor of zero or less lets everything through. */
  predicate Similar(score: Option<real>, minSim: real) {
    minSim <= 0.0 || score.None? || score.value >= minSim
  }

  // ---------------------------------------------------------------- a fixed ranking and its filtered form

  /** The live neighbours, in order. */
  function LiveHits(ranking: seq<Candidate>): seq<Hit> {
    if ranking == [] then []
    else
      var c := ranking[|ranking| - 1];
      LiveHits(ranking[..|ranking| - 1]) + if c.live then [AsHit(c)] else []
  }

  function Kept(hits: seq<Hit>, minSim: real): seq<Hit> {
    if hits == [] then []
    else
      var h := hits[|hits| - 1];
      Kept(hits[..|hits| - 1], minSim) + if Similar(h.score, minSim) then [h] else []
  }

  /** The fully filtered ranking. */
  function Matches(ranking: seq<Candidate>, minSim: real): seq<Hit> {
    Kept(LiveHits(ranking), minSim)
  }

  function Nearest(ranking: seq<Candidate>, k: nat): seq<Candidate> {
    ranking[..Min(k, |ranking|)]
  }

  lemma {:induction false} LivePrefix(ranking: seq<Candidate>, k: nat)
    requires k <= |ranking|
    ensures LiveHits(ranking[..k]) <= LiveHits(ranking)
    ensures |LiveHits(ranking)| <= |ranking|
    ensures |LiveHits(ranking[..k])| == |LiveHits(ranking)| ==> forall i :: k <= i < |ranking| ==> !ranking[i].live
  {
    if k == |ranking| {
      assert ranking[..k] == ranking;
      if ranking != [] { LivePrefix(ranking[..|ranking| - 1], |ranking| - 1); }
    } else {
      var init := ranking[..|ranking| - 1];
      assert init[..k] == ranking[..k];
      LivePrefix(init, k);
    }
  }

  lemma {:induction false} KeptPrefix(hits: seq<Hit>, k: nat, minSim: real)
    requires k <= |hits|
    ensures Kept(hits[..k], minSim) <= Kept(hits, minSim)
  {
    if k == |hits| {
      assert hits[..k] == hits;
    } else {
      var init := hits[..|hits| - 1];
      assert init[..k] == hits[..k];
      KeptPrefix(init, k, minSim);
    }
  }

  /** Whatever k is, the fetch yields a prefix of the filtered ranking. */
  lemma FetchIsPrefix(ranking: seq<Candidate>, k: nat, minSim: real)
    ensures Matches(Nearest(ranking, k), minSim) <= Matches(ranking, minSim)
  {
    LivePrefix(ranking, Min(k, |ranking|));
    var live := LiveHits(Nearest(ranking, k));
    assert live == LiveHits(ranking)[..|live|];
    KeptPrefix(LiveHits(ranking), |live|, minSim);
  }

  /** knnSemanticFetch: the k nearest through the structural filters, then through the similarity floor. */
  method KnnSemanticFetch(ranking: seq<Candidate>, k: nat, minSim: real) returns (raw: seq<Hit>, filtered: seq<Hit>)
    ensures raw == LiveHits(Nearest(ranking, k)) && filtered == Matches(Nearest(ranking, k), minSim)
  {
    raw := [];
    var near := Nearest(ranking, k);
    for i := 0 to |near|
      invariant raw == LiveHits(near[..i])
    {
      assert near[..i + 1][..i] == near[..i];
      if near[i].live { raw := raw + [AsHit(near[i])]; }
    }
    assert near[..|near|] == near;
    filtered := [];
    for i := 0 to |raw|
      invariant filtered == Kept(raw[..i], minSim)
    {
      assert raw[..i + 1][..i] == raw[..i];
      if minSim <= 0.0 || raw[i].score.None? || raw[i].score.value >= minSim { filtered := filtered + [raw[i]]; }
    }
    assert raw[..|raw|] == raw;
  }

  // ---------------------------------------------------------------- the widening loop

  function Slack(i: nat): (r: nat)
    ensures r >= SLACK
  {
    if i == 0 then SLACK else 2 * Slack(i - 1)
  }

  /** The i-th value of k. */
  function Width(need: nat, i: nat): nat {
    Min(need + Slack(i), MAX_K)
  }

  /** The i-th round is the last: enough hits, the cap, or no more live neighbours than the round before. */
  predicate Stops(ranking: seq<Candidate>, need: nat, minSim: real, i: nat) {
    || |Matches(Nearest(ranking, Width(need, i)), minSim)| >= need
    || Width(need, i) >= MAX_K
    || (i > 0 && |LiveHits(Nearest(ranking, Width(need, i)))| == |LiveHits(Nearest(ranking, Width(need, i - 1)))|)
  }

  ghost predicate LastRound(ranking: seq<Candidate>, need: nat, minSim: real, i: nat) {
    Stops(ranking, need, minSim, i) && forall j: nat :: j < i ==> !Stops(ranking, need, minSim, j)
  }

  method Widen(ranking: seq<Candidate>, need: nat, minSim: real) returns (assets: seq<Hit>, ghost last: nat)
    ensures LastRound(ranking, need, minSim, last) && Width(need, last) <= 2000
    ensures assets == Matches(Nearest(ranking, Width(need, last)), minSim)
    ensures exists i :: LastRound(ranking, need, minSim, i) && assets == Matches(Nearest(ranking, Width(need, i)), minSim)
  {
    var slack, k, prevRaw := SLACK, Min(need + SLACK, MAX_K), -1;
    last := 0;
    while true
      invariant slack == Slack(last) && k == Width(need, last)
      invariant prevRaw == if last == 0 then -1 else |LiveHits(Nearest(ranking, Width(need, last - 1)))|
      invariant forall j: nat :: j < last ==> !Stops(ranking, need, minSim, j)
      decreases MAX_K - k
    {
      var raw, filtered := KnnSemanticFetch(ranking, k, minSim);
      assets := filtered;
      if |filtered| >= need || k >= MAX_K { break; }
      if |raw| == prevRaw { break; }
      prevRaw := |raw|;
      slack := slack * 2;
      k := Min(need + slack, MAX_K);
      last := last + 1;
    }
  }

  /** The loop makes at most eight fetches: doubling the slack seven times reaches the cap. */
  lemma FewRounds(ranking: seq<Candidate>, need: nat, minSim: real, last: nat)
    requires LastRound(ranking, need, minSim, last)
    ensures last <= 7
  {
    assert Slack(7) == 2 * Slack(6) && Slack(6) == 2 * Slack(5) && Slack(5) == 2 * Slack(4) && Slack(4) == 2 * Slack(3);
    assert Width(need, 7) == MAX_K;
    assert Stops(ranking, need, minSim, 7);
  }

  // ---------------------------------------------------------------- pages

  function Page(hits: seq<Hit>, offset: nat, limit: nat): seq<Hit> {
    if offset >= |hits| then [] else hits[offset..Min(offset + limit, |hits|)]
  }

  /** The semantic page is always a prefix of the slice of the filtered ranking, and full when the fetch has enough. */
  lemma PageIsPrefix(ranking: seq<Candidate>, minSim: real, k: nat, offset: nat, limit: nat)
    ensures var got, all := Matches(Nearest(ranking, k), minSim), Matches(ranking, minSim);
            && Page(got, offset, limit) <= Page(all, offset, limit)
            && (|got| >= offset + limit ==> |Page(got, offset, limit)| == limit && Page(got, offset, limit) == Page(all, offset, limit))
  {
    FetchIsPrefix(ranking, k, minSim);
  }

  predicate Matching(c: Candidate, minSim: real) {
    c.live && Similar(c.score, minSim)
  }

  /** How many matches are nearer than the x-th neighbour. */
  function Rank(ranking: seq<Candidate>, minSim: real, x: nat): nat
    requires x <= |ranking|
  {
    |Matches(ranking[..x], minSim)|
  }

  /** The x-th neighbour is a match of the slice that lies beyond the k nearest. */
  predicate Hidden(ranking: seq<Candidate>, minSim: real, k: nat, offset: nat, limit: nat, x: nat) {
    k <= x < |ranking| && Matching(ranking[x], minSim) && offset <= Rank(ranking, minSim, x) < offset + limit
  }

  lemma RankStep(ranking: seq<Candidate>, minSim: real, x: nat)
    requires x < |ranking|
    ensures Rank(ranking, minSim, x + 1) == Rank(ranking, minSim, x) + if Matching(ranking[x], minSim) then 1 else 0
  {
    assert ranking[..x + 1][..x] == ranking[..x];
    var live := LiveHits(ranking[..x]);
    if ranking[x].live {
      var h := AsHit(ranking[x]);
      assert LiveHits(ranking[..x + 1]) == live + [h];
      assert (live + [h])[..|live|] == live && (live + [h])[|live|] == h;
      assert Kept(live + [h], minSim) == Kept(live, minSim) + if Similar(h.score, minSim) then [h] else [];
    } else {
      assert LiveHits(ranking[..x + 1]) == live;
    }
  }

  lemma RankGrows(ranking: seq<Candidate>, minSim: real, x: nat, y: nat)
    requires x <= y <= |ranking|
    ensures Rank(ranking, minSim, x) <= Rank(ranking, minSim, y)
  {
    FetchIsPrefix(ranking[..y], x, minSim);
    assert Nearest(ranking[..y], x) == ranking[..x];
  }

  /** Every match has its neighbour. */
  lemma {:induction false} NeighborOfRank(ranking: seq<Candidate>, minSim: real, n: nat, r: nat) returns (x: nat)
    requires n <= |ranking| && r < Rank(ranking, minSim, n)
    ensures x < n && Matching(ranking[x], minSim) && Rank(ranking, minSim, x) == r
  {
    RankStep(ranking, minSim, n - 1);
    if r < Rank(ranking, minSim, n - 1) {
      x := NeighborOfRank(ranking, minSim, n - 1, r);
    } else {
      x := n - 1;
    }
  }

  lemma SameSlice(got: seq<Hit>, all: seq<Hit>, offset: nat, limit: nat)
    requires got <= all
    ensures Page(got, offset, limit) == Page(all, offset, limit) <==> limit == 0 || |all| <= offset || |got| >= Min(offset + limit, |all|)
  {
  }

  /** For any k: the page is the whole slice of the filtered ranking exactly when no match of the slice lies beyond the k
      nearest neighbours. */
  lemma PageIsWholeIff(ranking: seq<Candidate>, minSim: real, k: nat, offset: nat, limit: nat)
    ensures Page(Matches(Nearest(ranking, k), minSim), offset, limit) == Page(Matches(ranking, minSim), offset, limit) <==>
            forall x: nat :: !Hidden(ranking, minSim, k, offset, limit, x)
  {
    var got, all := Matches(Nearest(ranking, k), minSim), Matches(ranking, minSim);
    var n := Min(k, |ranking|);
    FetchIsPrefix(ranking, k, minSim);
    SameSlice(got, all, offset, limit);
    assert ranking[..|ranking|] == ranking;
    assert |got| == Rank(ranking, minSim, n) && |all| == Rank(ranking, minSim, |ranking|);
    forall x: nat | Hidden(ranking, minSim, k, offset, limit, x) ensures limit > 0 && |all| > offset && |got| < Min(offset + limit, |all|) {
      RankGrows(ranking, minSim, n, x);
      RankStep(ranking, minSim, x);
      RankGrows(ranking, minSim, x + 1, |ranking|);
    }
    if limit > 0 && |all| > offset && |got| < Min(offset + limit, |all|) {
      var x := NeighborOfRank(ranking, minSim, |ranking|, if |got| < offset then offset else |got|);
      if x < n {
        RankStep(ranking, minSim, x);
        RankGrows(ranking, minSim, x + 1, n);
      }
      assert Hidden(ranking, minSim, k, offset, limit, x);
    }
  }

  // ---------------------------------------------------------------- what stands on a page

  /** The neighbours nearer than the x-th that are live and reach the floor. */
  function MatchesBefore(ranking: seq<Candidate>, minSim: real, x: nat): set<nat> {
    set y: nat | y < x && y < |ranking| && ranking[y].live
                 && (minSim <= 0.0 || ranking[y].score.None? || ranking[y].score.value >= minSim)
  }

  lemma {:induction false} RankCounts(ranking: seq<Candidate>, minSim: real, x: nat)
    requires x <= |ranking|
    ensures Rank(ranking, minSim, x) == |MatchesBefore(ranking, minSim, x)|
  {
    if x > 0 {
      RankCounts(ranking, minSim, x - 1);
      RankStep(ranking, minSim, x - 1);
      assert MatchesBefore(ranking, minSim, x) == MatchesBefore(ranking, minSim, x - 1) + if Matching(ranking[x - 1], minSim) then {x - 1} else {};
    } else {
      assert MatchesBefore(ranking, minSim, 0) == {};
    }
  }

  /** The match of a rank is its neighbour's hit. */
  lemma {:induction false} MatchAt(ranking: seq<Candidate>, minSim: real, n: nat, x: nat)
    requires x < n <= |ranking| && Matching(ranking[x], minSim)
    ensures var r, all := Rank(ranking, minSim, x), Matches(ranking[..n], minSim);
            r < |all| && all[r] == Hit(ranking[x].id, Semantic, ranking[x].score, false)
  {
    RankStep(ranking, minSim, x);
    FetchIsPrefix(ranking[..n], x + 1, minSim);
    assert Nearest(ranking[..n], x + 1) == ranking[..x + 1];
    var upTo := ranking[..x + 1];
    assert upTo[..x] == ranking[..x];
    assert LiveHits(upTo) == LiveHits(upTo[..x]) + [AsHit(ranking[x])];
    assert (LiveHits(upTo[..x]) + [AsHit(ranking[x])])[..|LiveHits(upTo[..x])|] == LiveHits(upTo[..x]);
    assert Matches(upTo, minSim) == Matches(ranking[..x], minSim) + [AsHit(ranking[x])];
  }

  /** The i-th entry of the page at an offset is the hit of a live neighbour that reaches the floor and has exactly offset + i
      such neighbours in front of it; there are never more than `limit` entries. */
  lemma PageEntry(ranking: seq<Candidate>, minSim: real, k: nat, offset: nat, limit: nat, i: nat) returns (x: nat)
    requires i < |Page(Matches(Nearest(ranking, k), minSim), offset, limit)|
    ensures i < limit && x < |ranking| && ranking[x].live
    ensures minSim <= 0.0 || ranking[x].score.None? || ranking[x].score.value >= minSim
    ensures Page(Matches(Nearest(ranking, k), minSim), offset, limit)[i] == Hit(ranking[x].id, Semantic, ranking[x].score, false)
    ensures |MatchesBefore(ranking, minSim, x)| == offset + i
  {
    var n := Min(k, |ranking|);
    x := NeighborOfRank(ranking, minSim, n, offset + i);
    MatchAt(ranking, minSim, n, x);
    RankCounts(ranking, minSim, x);
  }

  // ---------------------------------------------------------------- why the loop stops

  /** The (j+1)-st window, the neighbours that widening for the (j+1)-st time adds, holds a live one. */
  ghost predicate FruitfulWindow(ranking: seq<Candidate>, need: nat, j: nat) {
    exists x: nat :: Width(need, j) <= x < Min(Width(need, j + 1), |ranking|) && ranking[x].live
  }

  lemma WidthGrows(need: nat, j: nat)
    ensures Width(need, j) <= Width(need, j + 1)
  {
  }

  lemma {:induction false} LiveGrows(ranking: seq<Candidate>, k: nat)
    requires k <= |ranking|
    ensures |LiveHits(ranking[..k])| <= |LiveHits(ranking)|
    ensures |LiveHits(ranking[..k])| == |LiveHits(ranking)| <==> forall i :: k <= i < |ranking| ==> !ranking[i].live
  {
    if k == |ranking| {
      assert ranking[..k] == ranking;
    } else {
      var init := ranking[..|ranking| - 1];
      assert init[..k] == ranking[..k];
      LiveGrows(init, k);
    }
  }

  /** The live count stands still exactly over a window without a live neighbour. */
  lemma StandsStillIffBarren(ranking: seq<Candidate>, need: nat, j: nat)
    ensures |LiveHits(Nearest(ranking, Width(need, j + 1)))| == |LiveHits(Nearest(ranking, Width(need, j)))| <==>
            !FruitfulWindow(ranking, need, j)
  {
    WidthGrows(need, j);
    var wide := Nearest(ranking, Width(need, j + 1));
    var narrow := Min(Width(need, j), |ranking|);
    assert wide[..narrow] == Nearest(ranking, Width(need, j));
    LiveGrows(wide, narrow);
    assert forall x: nat :: x < |wide| ==> wide[x] == ranking[x];
  }

  /** The loop's exits in terms of the ranking alone: enough matches within the width, the cap, or a barren last window. */
  lemma StopsIff(ranking: seq<Candidate>, need: nat, minSim: real, i: nat)
    ensures Stops(ranking, need, minSim, i) <==>
            || Rank(ranking, minSim, Min(Width(need, i), |ranking|)) >= need
            || Width(need, i) == 2000
            || (i > 0 && !FruitfulWindow(ranking, need, i - 1))
  {
    if i > 0 { StandsStillIffBarren(ranking, need, i - 1); }
  }

  /** The page of a search is the whole slice exactly when no match of the slice lies beyond the last width; and when one does,
      the loop has stopped at the cap of 2000 or after a barren window. */
  lemma SearchIsWholeIff(ranking: seq<Candidate>, minSim: real, offset: nat, limit: nat, last: nat)
    requires LastRound(ranking, offset + limit, minSim, last)
    ensures var k := Width(offset + limit, last);
            var page, slice := Page(Matches(Nearest(ranking, k), minSim), offset, limit), Page(Matches(ranking, minSim), offset, limit);
            && (page == slice <==> forall x: nat :: !Hidden(ranking, minSim, k, offset, limit, x))
            && (page != slice ==> k == 2000 || (last > 0 && !FruitfulWindow(ranking, offset + limit, last - 1)))
  {
    PageIsWholeIff(ranking, minSim, Width(offset + limit, last), offset, limit);
    ShortPageReason(ranking, minSim, offset, limit, last);
  }

  lemma ShortPageReason(ranking: seq<Candidate>, minSim: real, offset: nat, limit: nat, last: nat)
    requires Stops(ranking, offset + limit, minSim, last)
    ensures var k := Width(offset + limit, last);
            || Page(Matches(Nearest(ranking, k), minSim), offset, limit) == Page(Matches(ranking, minSim), offset, limit)
            || k == 2000 || (last > 0 && !FruitfulWindow(ranking, offset + limit, last - 1))
  {
    PageIsPrefix(ranking, minSim, Width(offset + limit, last), offset, limit);
    StopsIff(ranking, offset + limit, minSim, last);
  }

  /** A search that ends neither at the cap (unless the cap covers the ranking) nor after a barren window (unless there was
      nothing left to widen into) returns the whole slice. */
  lemma WholePageWithoutBarrenWindow(ranking: seq<Candidate>, minSim: real, offset: nat, limit: nat, last: nat)
    requires LastRound(ranking, offset + limit, minSim, last)
    requires Width(offset + limit, last) < MAX_K || |ranking| <= MAX_K
    requires last > 0 ==> FruitfulWindow(ranking, offset + limit, last - 1) || Width(offset + limit, last - 1) >= |ranking|
    ensures Page(Matches(Nearest(ranking, Width(offset + limit, last)), minSim), offset, limit) == Page(Matches(ranking, minSim), offset, limit)
  {
    SearchIsWholeIff(ranking, minSim, offset, limit, last);
    if last > 0 { WidthGrows(offset + limit, last - 1); }
  }

  lemma {:induction false} DeadHits(ranking: seq<Candidate>)
    requires forall i :: 0 <= i < |ranking| ==> !ranking[i].live
    ensures LiveHits(ranking) == []
  {
    if ranking != [] { DeadHits(ranking[..|ranking| - 1]); }
  }

  /** A short page does not mean that the library is exhausted: 33 dead neighbours hide the live one behind them. */
  lemma BarrenWindowHidesTheRest() returns (ranking: seq<Candidate>, last: nat)
    ensures LastRound(ranking, 1, 0.0, last) && Width(1, last) < |ranking| <= MAX_K
    ensures Page(Matches(Nearest(ranking, Width(1, last)), 0.0), 0, 1) == [] && |Page(Matches(ranking, 0.0), 0, 1)| == 1
  {
    ranking := seq(33, i requires 0 <= i => Candidate(i, false, Some(0.9))) + [Candidate(33, true, Some(0.8))];
    last := 1;
    assert Slack(1) == 32;
    assert Width(1, 0) == 17 && Width(1, 1) == 33;
    DeadHits(ranking[..17]);
    DeadHits(ranking[..33]);
    assert Nearest(ranking, 17) == ranking[..17] && Nearest(ranking, 33) == ranking[..33];
    assert LiveHits(ranking) == [AsHit(ranking[33])];
    assert LiveHits(ranking)[..0] == [];
  }

  lemma {:induction false} AllMatch(ranking: seq<Candidate>)
    requires forall i :: 0 <= i < |ranking| ==> ranking[i].live
    ensures |Matches(ranking, 0.0)| == |ranking|
  {
    if ranking != [] {
      AllMatch(ranking[..|ranking| - 1]);
      RankStep(ranking, 0.0, |ranking| - 1);
      assert ranking[..|ranking|] == ranking;
    }
  }

  /** The cap does the same: the page at offset 1999 of 2001 live neighbours has one entry instead of two. */
  lemma CapHidesTheRest() returns (ranking: seq<Candidate>)
    ensures LastRound(ranking, 2001, 0.0, 0) && Width(2001, 0) == MAX_K
    ensures |Page(Matches(Nearest(ranking, MAX_K), 0.0), 1999, 2)| == 1 && |Page(Matches(ranking, 0.0), 1999, 2)| == 2
  {
    ranking := seq(2001, i requires 0 <= i => Candidate(i, true, Some(0.9)));
    AllMatch(ranking);
    AllMatch(ranking[..2000]);
    assert Nearest(ranking, MAX_K) == ranking[..2000];
  }

  // ---------------------------------------------------------------- pages never overlap

  ghost predicate DistinctIds(hits: seq<Hit>) {
    forall i, j :: 0 <= i < j < |hits| ==> hits[i].id != hits[j].id
  }

  ghost predicate DistinctCandidates(ranking: seq<Candidate>) {
    forall i, j :: 0 <= i < j < |ranking| ==> ranking[i].id != ranking[j].id
  }

  lemma {:induction false} LiveDistinct(ranking: seq<Candidate>)
    requires DistinctCandidates(ranking)
    ensures DistinctIds(LiveHits(ranking))
    ensures forall h :: h in LiveHits(ranking) ==> exists i :: 0 <= i < |ranking| && ranking[i].id == h.id && h == AsHit(ranking[i])
  {
    if ranking != [] {
      var init, c := ranking[..|ranking| - 1], ranking[|ranking| - 1];
      LiveDistinct(init);
      forall h | h in LiveHits(ranking) ensures exists i :: 0 <= i < |ranking| && ranking[i].id == h.id && h == AsHit(ranking[i]) {
        if h in LiveHits(init) {
          var i :| 0 <= i < |init| && init[i].id == h.id && h == AsHit(init[i]);
          assert ranking[i] == init[i];
        } else {
          assert ranking[|init|].id == h.id;
        }
      }
      forall i | 0 <= i < |LiveHits(init)| ensures LiveHits(init)[i].id != c.id {
        assert LiveHits(init)[i] in LiveHits(init);
      }
    }
  }

  lemma {:induction false} KeptDistinct(hits: seq<Hit>, minSim: real)
    requires DistinctIds(hits)
    ensures DistinctIds(Kept(hits, minSim))
    ensures forall h :: h in Kept(hits, minSim) ==> h in hits
  {
    if hits != [] {
      var init := hits[..|hits| - 1];
      KeptDistinct(init, minSim);
      forall i | 0 <= i < |Kept(init, minSim)| ensures Kept(init, minSim)[i].id != hits[|init|].id {
        assert Kept(init, minSim)[i] in init;
      }
    }
  }

  /** Two searches of the same ranking at page offsets that do not overlap share no semantic hit, however far each widened. */
  lemma PagesAreDisjoint(ranking: seq<Candidate>, minSim: real, k: nat, l: nat, offset: nat, limit: nat, offset': nat, limit': nat, h: Hit, h': Hit)
    requires DistinctCandidates(ranking) && offset + limit <= offset'
    requires h in Page(Matches(Nearest(ranking, k), minSim), offset, limit)
    requires h' in Page(Matches(Nearest(ranking, l), minSim), offset', limit')
    ensures h.id != h'.id
  {
    LiveDistinct(ranking);
    KeptDistinct(LiveHits(ranking), minSim);
    var all := Matches(ranking, minSim);
    var i := PagePosition(ranking, minSim, k, offset, limit, h);
    var j := PagePosition(ranking, minSim, l, offset', limit', h');
    assert i < j;
  }

  lemma PagePosition(ranking: seq<Candidate>, minSim: real, k: nat, offset: nat, limit: nat, h: Hit) returns (i: nat)
    requires h in Page(Matches(Nearest(ranking, k), minSim), offset, limit)
    ensures offset <= i < offset + limit && i < |Matches(ranking, minSim)| && Matches(ranking, minSim)[i] == h
  {
    FetchIsPrefix(ranking, k, minSim);
    var got := Matches(Nearest(ranking, k), minSim);
    var x :| 0 <= x < |Page(got, offset, limit)| && Page(got, offset, limit)[x] == h;
    i := offset + x;
    assert got[i] == h;
  }

  // ---------------------------------------------------------------- OCR hits in front

  function Ids(hits: seq<Hit>): set<nat> {
    set h | h in hits :: h.id
  }

  /** The first hit of every id, in order. */
  function Dedup(hits: seq<Hit>): seq<Hit> {
    if hits == [] then []
    else
      var init, h := hits[..|hits| - 1], hits[|hits| - 1];
      if h.id in Ids(init) then Dedup(init) else Dedup(init) + [h]
  }

  function Fresh(hits: seq<Hit>, seen: set<nat>): (r: seq<Hit>)
    ensures forall h :: h in r <==> h in hits && h.id !in seen
  {
    if hits == [] then []
    else
      var init, h := hits[..|hits| - 1], hits[|hits| - 1];
      assert forall x :: x in hits <==> x in init || x == h;
      Fresh(init, seen) + if h.id in seen then [] else [h]
  }

  lemma IdsSnoc(hits: seq<Hit>, h: Hit)
    ensures Ids(hits + [h]) == Ids(hits) + {h.id}
  {
    forall x ensures x in Ids(hits + [h]) <==> x in Ids(hits) + {h.id} {
      if x in Ids(hits) {
        var y :| y in hits && y.id == x;
        assert y in hits + [h];
      }
      assert h in hits + [h];
    }
  }

  method MergeOCRFirst(ocr: seq<Hit>, clip: seq<Hit>) returns (merged: seq<Hit>)
    ensures merged == Dedup(ocr + clip)
  {
    var seen, both := {}, ocr + clip;
    merged := [];
    for i := 0 to |both|
      invariant merged == Dedup(both[..i]) && seen == Ids(both[..i])
    {
      var h := both[i];
      IdsSnoc(both[..i], h);
      assert both[..i + 1] == both[..i] + [h];
      if h.id in seen { continue; }
      seen := seen + {h.id};
      merged := merged + [h];
    }
    assert both[..|both|] == both;
  }

  lemma {:induction false} DedupDistinct(hits: seq<Hit>)
    ensures DistinctIds(Dedup(hits)) && Ids(Dedup(hits)) == Ids(hits)
    ensures forall h :: h in Dedup(hits) ==> h in hits
  {
    if hits != [] {
      var init, h := hits[..|hits| - 1], hits[|hits| - 1];
      DedupDistinct(init);
      assert hits == init + [h];
      IdsSnoc(init, h);
      IdsSnoc(Dedup(init), h);
      forall i | 0 <= i < |Dedup(init)| ensures Dedup(init)[i].id in Ids(init) {
        assert Dedup(init)[i] in Dedup(init);
      }
    }
  }

  lemma IdsConcat(a: seq<Hit>, b: seq<Hit>)
    ensures Ids(a + b) == Ids(a) + Ids(b)
  {
    forall x ensures x in Ids(a + b) <==> x in Ids(a) + Ids(b) {
      if x in Ids(a) {
        var y :| y in a && y.id == x;
        assert y in a + b;
      }
      if x in Ids(b) {
        var y :| y in b && y.id == x;
        assert y in a + b;
      }
    }
  }

  lemma LastIsNew(clip: seq<Hit>)
    requires clip != [] && DistinctIds(clip)
    ensures clip[|clip| - 1].id !in Ids(clip[..|clip| - 1])
  {
    var init, h := clip[..|clip| - 1], clip[|clip| - 1];
    forall y | y in init ensures y.id != h.id {
      var i :| 0 <= i < |init| && init[i] == y;
      assert clip[i].id != clip[|init|].id;
    }
  }

  lemma Assoc(a: seq<Hit>, b: seq<Hit>, c: seq<Hit>)
    ensures a + (b + c) == (a + b) + c
  {
  }

  lemma Unsnoc(a: seq<Hit>) returns (init: seq<Hit>, h: Hit)
    requires a != []
    ensures init == a[..|a| - 1] && h == a[|a| - 1] && a == init + [h]
  {
    init, h := a[..|a| - 1], a[|a| - 1];
  }

  lemma MergeStep(ocr: seq<Hit>, init: seq<Hit>, h: Hit)
    requires h.id !in Ids(init) && Dedup(ocr + init) == Dedup(ocr) + Fresh(init, Ids(ocr))
    ensures Dedup(ocr + (init + [h])) == Dedup(ocr) + Fresh(init + [h], Ids(ocr))
  {
    IdsConcat(ocr, init);
    DedupSnoc(ocr + init, h);
    Assoc(ocr, init, [h]);
    FreshSnoc(init, h, Ids(ocr));
    Assoc(Dedup(ocr), Fresh(init, Ids(ocr)), [h]);
  }

  /** The merge is the OCR hits, each id once, followed by the semantic hits that OCR did not find, in their order. */
  lemma {:induction false} MergeSplits(ocr: seq<Hit>, clip: seq<Hit>)
    requires DistinctIds(clip)
    ensures Dedup(ocr + clip) == Dedup(ocr) + Fresh(clip, Ids(ocr))
  {
    if clip == [] {
      assert ocr + clip == ocr;
    } else {
      var init, h := Unsnoc(clip);
      MergeSplits(ocr, init);
      LastIsNew(clip);
      MergeStep(ocr, init, h);
    }
  }

  lemma FreshSnoc(hits: seq<Hit>, h: Hit, seen: set<nat>)
    ensures Fresh(hits + [h], seen) == if h.id in seen then Fresh(hits, seen) else Fresh(hits, seen) + [h]
  {
    assert (hits + [h])[..|hits|] == hits;
  }

  lemma DedupSnoc(hits: seq<Hit>, h: Hit)
    ensures Dedup(hits + [h]) == if h.id in Ids(hits) then Dedup(hits) else Dedup(hits) + [h]
  {
    assert (hits + [h])[..|hits|] == hits;
  }

  /** No id of either list is lost or doubled, whatever the number of OCR hits. */
  lemma MergeLosesNothing(ocr: seq<Hit>, clip: seq<Hit>)
    ensures DistinctIds(Dedup(ocr + clip)) && Ids(Dedup(ocr + clip)) == Ids(ocr) + Ids(clip)
  {
    DedupDistinct(ocr + clip);
    IdsConcat(ocr, clip);
  }

  // ---------------------------------------------------------------- the first page is ranked

  /** The scored semantic hits of a page descend. */
  predicate Ranked(hits: seq<Hit>) {
    forall i, j :: 0 <= i < j < |hits| && Scored(hits[i]) && Scored(hits[j]) ==> hits[i].score.value >= hits[j].score.value
  }

  lemma RankedScores(hits: seq<Hit>)
    requires Ranked(hits)
    ensures Descending(Scores(hits))
  {
    var at := Positions(hits);
    forall k, l | 0 <= k < l < |at| ensures Scores(hits)[k] >= Scores(hits)[l] {
      assert at[k] < at[l];
    }
  }

  lemma {:induction false} FreshRanked(hits: seq<Hit>, seen: set<nat>)
    requires Ranked(hits)
    ensures Ranked(Fresh(hits, seen))
  {
    if hits != [] {
      var init, h := hits[..|hits| - 1], hits[|hits| - 1];
      FreshRanked(init, seen);
      forall i | 0 <= i < |Fresh(init, seen)| && Scored(Fresh(init, seen)[i]) && Scored(h) ensures Fresh(init, seen)[i].score.value >= h.score.value {
        var x := Fresh(init, seen)[i];
        assert x in init;
        var j :| 0 <= j < |init| && init[j] == x;
        assert hits[j] == x;
      }
    }
  }

  lemma RankedConcat(front: seq<Hit>, back: seq<Hit>)
    requires Ranked(back) && forall h :: h in front ==> !Scored(h)
    ensures Ranked(front + back)
  {
    var merged := front + back;
    forall i | 0 <= i < |front| ensures !Scored(merged[i]) {
      assert front[i] in front;
    }
    forall i, j | 0 <= i < j < |merged| && Scored(merged[i]) && Scored(merged[j]) ensures merged[i].score.value >= merged[j].score.value {
      assert merged[i] == back[i - |front|] && merged[j] == back[j - |front|];
    }
  }

  /** With OCR hits in front, the semantic scores of the merged page still descend. */
  lemma MergedRanked(ocr: seq<Hit>, clip: seq<Hit>)
    requires Ranked(clip) && DistinctIds(clip) && forall h :: h in ocr ==> h.matchedBy == OCR
    ensures Descending(Scores(Dedup(ocr + clip)))
  {
    MergeSplits(ocr, clip);
    FreshRanked(clip, Ids(ocr));
    DedupDistinct(ocr);
    RankedConcat(Dedup(ocr), Fresh(clip, Ids(ocr)));
    RankedScores(Dedup(ocr + clip));
  }

  /** Nearer neighbours score no worse. */
  predicate NearestFirst(ranking: seq<Candidate>) {
    forall i, j :: 0 <= i < j < |ranking| && ranking[i].score.Some? && ranking[j].score.Some? ==> ranking[i].score.value >= ranking[j].score.value
  }

  lemma {:induction false} LiveRanked(ranking: seq<Candidate>)
    requires NearestFirst(ranking)
    ensures Ranked(LiveHits(ranking))
    ensures forall h :: h in LiveHits(ranking) ==> exists i :: 0 <= i < |ranking| && ranking[i].score == h.score
    ensures forall h :: h in LiveHits(ranking) ==> !h.belowCut && h.matchedBy == Semantic
  {
    if ranking != [] {
      var init, c := ranking[..|ranking| - 1], ranking[|ranking| - 1];
      LiveRanked(init);
      forall h | h in LiveHits(init) ensures exists i :: 0 <= i < |init| && ranking[i].score == h.score {
        var i :| 0 <= i < |init| && init[i].score == h.score;
        assert ranking[i].score == h.score;
      }
      forall i | 0 <= i < |LiveHits(init)| ensures LiveHits(init)[i] in LiveHits(init) {
      }
      assert ranking[|init|].score == AsHit(c).score;
    }
  }

  lemma {:induction false} KeptRanked(hits: seq<Hit>, minSim: real)
    requires Ranked(hits)
    ensures Ranked(Kept(hits, minSim))
    ensures forall h :: h in Kept(hits, minSim) ==> h in hits
  {
    if hits != [] {
      var init, h := Unsnoc(hits);
      KeptRanked(init, minSim);
      forall i | 0 <= i < |Kept(init, minSim)| ensures Kept(init, minSim)[i] in init {
      }
    }
  }

  lemma PageOfPrefix(all: seq<Hit>, got: seq<Hit>, offset: nat, limit: nat)
    requires got <= all && Ranked(all) && DistinctIds(all)
    ensures Ranked(Page(got, offset, limit)) && DistinctIds(Page(got, offset, limit))
    ensures forall h :: h in Page(got, offset, limit) ==> h in all
  {
  }

  /** The page is `front` with some hits folded: only scored semantic hits are, something unfolded stands in front of each of them,
      and what is folded comes behind, and scores no better than, what is not. */
  ghost predicate WellTiered(front: seq<Hit>, page: seq<Hit>) {
    |page| == |front| && forall i :: 0 <= i < |page| ==> WellTieredAt(front, page, i)
  }

  ghost predicate WellTieredAt(front: seq<Hit>, page: seq<Hit>, i: nat)
    requires |page| == |front| && i < |page|
  {
    && page[i] == front[i].(belowCut := page[i].belowCut)
    && (page[i].belowCut ==> front[i].matchedBy == Semantic && front[i].score.Some?)
    && (page[i].belowCut ==> exists j :: 0 <= j < i && Scored(front[j]) && !page[j].belowCut)
    && forall j :: 0 <= j < |page| && Scored(front[i]) && Scored(front[j]) && page[i].belowCut && !page[j].belowCut ==>
         j < i && front[j].score.value >= front[i].score.value
  }

  /** Unfolded semantic hits, each id once, best first. */
  ghost predicate SemanticHits(hits: seq<Hit>) {
    Ranked(hits) && DistinctIds(hits) && forall h :: h in hits ==> h.matchedBy == Semantic && !h.belowCut
  }

  lemma MatchesAreSemantic(ranking: seq<Candidate>, minSim: real)
    requires DistinctCandidates(ranking) && NearestFirst(ranking)
    ensures SemanticHits(Matches(ranking, minSim))
  {
    LiveRanked(ranking);
    KeptRanked(LiveHits(ranking), minSim);
    LiveDistinct(ranking);
    KeptDistinct(LiveHits(ranking), minSim);
  }

  lemma PageIsSemantic(ranking: seq<Candidate>, minSim: real, k: nat, offset: nat, limit: nat)
    requires DistinctCandidates(ranking) && NearestFirst(ranking)
    ensures SemanticHits(Page(Matches(Nearest(ranking, k), minSim), offset, limit))
  {
    FetchIsPrefix(ranking, k, minSim);
    MatchesAreSemantic(ranking, minSim);
    PageOfPrefix(Matches(ranking, minSim), Matches(Nearest(ranking, k), minSim), offset, limit);
  }

  /** What the first page promises: every semantic hit of its slice and every OCR hit is there once, no OCR hit is folded, and
      what is folded is the worse end of the semantic hits, with at least one of them left in front. */
  lemma FirstPageIsSound(ranking: seq<Candidate>, minSim: real, k: nat, limit: nat, ocr: seq<Hit>, includeOCR: bool, alpha: real, page: seq<Hit>)
    requires DistinctCandidates(ranking) && NearestFirst(ranking)
    requires DistinctIds(ocr) && forall h :: h in ocr ==> h.matchedBy == OCR && !h.belowCut
    requires Presented(Page(Matches(Nearest(ranking, k), minSim), 0, limit), ocr, includeOCR, true, alpha, page)
    ensures var semantic := Page(Matches(Nearest(ranking, k), minSim), 0, limit);
            var front := if includeOCR then ocr + Fresh(semantic, Ids(ocr)) else semantic;
            WellTiered(front, page)
  {
    PageIsSemantic(ranking, minSim, k, 0, limit);
    FrontIsTiered(Page(Matches(Nearest(ranking, k), minSim), 0, limit), ocr, includeOCR, alpha, page);
  }

  lemma FrontIsTiered(semantic: seq<Hit>, ocr: seq<Hit>, includeOCR: bool, alpha: real, page: seq<Hit>)
    requires SemanticHits(semantic) && DistinctIds(ocr) && forall h :: h in ocr ==> h.matchedBy == OCR && !h.belowCut
    requires Presented(semantic, ocr, includeOCR, true, alpha, page)
    ensures WellTiered(if includeOCR then ocr + Fresh(semantic, Ids(ocr)) else semantic, page)
  {
    MergeSplits(ocr, semantic);
    DistinctDedup(ocr);
    MergedRanked(ocr, semantic);
    RankedScores(semantic);
    TieredFront(if includeOCR then ocr + Fresh(semantic, Ids(ocr)) else semantic, alpha, page);
  }

  lemma {:induction false} DistinctDedup(hits: seq<Hit>)
    requires DistinctIds(hits)
    ensures Dedup(hits) == hits
  {
    if hits != [] {
      var init, h := Unsnoc(hits);
      DistinctDedup(init);
      LastIsNew(hits);
    }
  }

  lemma TieredFront(front: seq<Hit>, alpha: real, page: seq<Hit>)
    requires Descending(Scores(front)) && forall i :: 0 <= i < |front| ==> !front[i].belowCut
    requires exists cut: nat :: IsCut(Scores(front), alpha, cut) && cut <= |Positions(front)| && page == Tiered(front, cut)
    ensures WellTiered(front, page)
  {
    var cut: nat :| IsCut(Scores(front), alpha, cut) && cut <= |Positions(front)| && page == Tiered(front, cut);
    forall i: nat | i < |page| ensures WellTieredAt(front, page, i) {
      OnlySemanticFolds(front, cut, i);
      if page[i].belowCut { var j := SomethingStays(front, alpha, cut, i); }
      forall j | 0 <= j < |page| && Scored(front[i]) && Scored(front[j]) && page[i].belowCut && !page[j].belowCut
        ensures j < i && front[j].score.value >= front[i].score.value
      {
        FoldedIsSuffix(front, cut, j, i);
      }
    }
  }

  // ---------------------------------------------------------------- the whole search

  function AllFolded(hits: seq<Hit>): (r: seq<Hit>)
    ensures |r| == |hits| && forall i :: 0 <= i < |hits| ==> r[i] == hits[i].(belowCut := true)
  {
    seq(|hits|, i requires 0 <= i < |hits| => hits[i].(belowCut := true))
  }

  /** What a search returns, given the semantic page. */
  ghost predicate Presented(semantic: seq<Hit>, ocr: seq<Hit>, includeOCR: bool, first: bool, alpha: real, page: seq<Hit>) {
    if !first then page == AllFolded(semantic)
    else
      var front := if includeOCR then Dedup(ocr + semantic) else semantic;
      exists cut: nat :: IsCut(Scores(front), alpha, cut) && cut <= |Positions(front)| && page == Tiered(front, cut)
  }

  /** The page comes from the last widening round. */
  ghost predicate Answered(ranking: seq<Candidate>, ocr: seq<Hit>, includeOCR: bool, limit: nat, from: nat, minSim: real, alpha: real,
                           last: nat, page: seq<Hit>) {
    && LastRound(ranking, from + limit, minSim, last)
    && Presented(Page(Matches(Nearest(ranking, Width(from + limit, last)), minSim), from, limit), ocr, includeOCR, from == 0, alpha, page)
  }

  /** SmartSearch, for the ranking and the OCR hits of the query; a negative offset counts as 0. */
  method SmartSearch(ranking: seq<Candidate>, ocr: seq<Hit>, includeOCR: bool, limit: nat, offset: int, minSim: real, alpha: real)
    returns (page: seq<Hit>)
    ensures offset >= 0 ==> exists last :: Answered(ranking, ocr, includeOCR, limit, offset, minSim, alpha, last, page)
    ensures offset < 0 ==> exists last :: Answered(ranking, ocr, includeOCR, limit, 0, minSim, alpha, last, page)
  {
    var from := offset;
    if from < 0 { from := 0; }
    var assets;
    ghost var last;
    assets, last := Widen(ranking, from + limit, minSim);
    page := Page(assets, from, limit);
    if from == 0 {
      page := FirstPage(page, ocr, includeOCR, alpha);
    } else {
      page := FoldAll(page);
    }
    assert Answered(ranking, ocr, includeOCR, limit, from, minSim, alpha, last, page);
  }

  /** A page behind the first: its i-th entry is the hit, folded, of the live neighbour that reaches the floor and has exactly
      offset + i such neighbours in front of it. */
  lemma DeepPage(ranking: seq<Candidate>, ocr: seq<Hit>, includeOCR: bool, limit: nat, offset: nat, minSim: real, alpha: real, last: nat,
                 page: seq<Hit>, i: nat) returns (x: nat)
    requires offset > 0 && Answered(ranking, ocr, includeOCR, limit, offset, minSim, alpha, last, page) && i < |page|
    ensures i < limit && x < |ranking| && ranking[x].live && page[i] == Hit(ranking[x].id, Semantic, ranking[x].score, true)
    ensures minSim <= 0.0 || ranking[x].score.None? || ranking[x].score.value >= minSim
    ensures |MatchesBefore(ranking, minSim, x)| == offset + i
  {
    x := PageEntry(ranking, minSim, Width(offset + limit, last), offset, limit, i);
  }

  /** Such a page has as many entries as its slice of the filtered ranking exactly when no match of the slice lies beyond the last
      width; and when one does, the widening has stopped at the cap of 2000 or after a window without a live neighbour. */
  lemma DeepPageIsWholeIff(ranking: seq<Candidate>, ocr: seq<Hit>, includeOCR: bool, limit: nat, offset: nat, minSim: real, alpha: real, last: nat,
                           page: seq<Hit>)
    requires offset > 0 && Answered(ranking, ocr, includeOCR, limit, offset, minSim, alpha, last, page)
    ensures var k, slice := Width(offset + limit, last), Page(Matches(ranking, minSim), offset, limit);
            && (|page| == |slice| <==> forall x: nat :: !Hidden(ranking, minSim, k, offset, limit, x))
            && (|page| != |slice| ==> k == 2000 || (last > 0 && !FruitfulWindow(ranking, offset + limit, last - 1)))
  {
    var k := Width(offset + limit, last);
    SearchIsWholeIff(ranking, minSim, offset, limit, last);
    FetchIsPrefix(ranking, k, minSim);
    SamePage(Matches(Nearest(ranking, k), minSim), Matches(ranking, minSim), offset, limit);
  }

  lemma SamePage(got: seq<Hit>, all: seq<Hit>, offset: nat, limit: nat)
    requires got <= all
    ensures |Page(got, offset, limit)| == |Page(all, offset, limit)| <==> Page(got, offset, limit) == Page(all, offset, limit)
  {
  }

  method FirstPage(semantic: seq<Hit>, ocr: seq<Hit>, includeOCR: bool, alpha: real) returns (page: seq<Hit>)
    ensures Presented(semantic, ocr, includeOCR, true, alpha, page)
  {
    var front := semantic;
    if includeOCR { front := MergeOCRFirst(ocr, semantic); }
    var a := new Hit[|front|](i requires 0 <= i < |front| => front[i]);
    assert a[..] == front;
    ghost var cut := ApplyCutTiering(a, alpha);
    page := a[..];
  }

  method FoldAll(hits: seq<Hit>) returns (r: seq<Hit>)
    ensures r == AllFolded(hits)
  {
    r := hits;
    for i := 0 to |hits|
      invariant |r| == |hits| && forall j :: 0 <= j < |hits| ==> r[j] == if j < i then hits[j].(belowCut := true) else hits[j]
    {
      r := r[i := r[i].(belowCut := true)];
    }
  }
}
