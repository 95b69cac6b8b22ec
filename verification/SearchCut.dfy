/** Where a search result page is folded: the cliff in the scores, or a fraction of the best one. */
module SearchCut {
  import opened Options

  datatype Source = Semantic | OCR

  datatype Hit = Hit(id: nat, matchedBy: Source, score: Option<real>, belowCut: bool)

  // ---------------------------------------------------------------- the cut in a list of scores

  function Gap(s: seq<real>, i: nat): real
    requires i + 1 < |s|
  {
    s[i] - s[i + 1]
  }

  /** g is the first position with the largest drop. */
  ghost predicate Widest(s: seq<real>, g: int) {
    && 0 <= g < |s| - 1
    && forall i: nat :: i < |s| - 1 ==> Gap(s, i) <= Gap(s, g) && (i < g ==> Gap(s, i) < Gap(s, g))
  }

  /** The drop is at least 0.10 and at least twice the mean drop, which is the whole descent over the number of steps. */
  ghost predicate Significant(s: seq<real>, g: int)
    requires 0 <= g < |s| - 1
  {
    Gap(s, g) >= 0.10 && Gap(s, g) >= 2.0 * (s[0] - s[|s| - 1]) / ((|s| - 1) as real)
  }

  ghost predicate IsCliff(s: seq<real>, g: int) {
    Widest(s, g) && Significant(s, g)
  }

  /** Everything after the first and before `cut` reaches the threshold, and `cut` is the first that does not. */
  predicate FirstBelow(s: seq<real>, threshold: real, cut: nat) {
    1 <= cut <= |s| && (forall i :: 1 <= i < cut ==> s[i] >= threshold) && (cut < |s| ==> s[cut] < threshold)
  }

  /** Fewer than three scores are never cut; a significant cliff decides; otherwise the fraction of the top score does. */
  ghost predicate IsCut(s: seq<real>, alpha: real, cut: nat) {
    if |s| < 3 then cut == |s|
    else if exists g :: IsCliff(s, g) then IsCliff(s, cut - 1)
    else FirstBelow(s, alpha * s[0], cut)
  }

  /** The scores decide the cut. */
  lemma CutIsUnique(s: seq<real>, alpha: real, c: nat, d: nat)
    requires IsCut(s, alpha, c) && IsCut(s, alpha, d)
    ensures c == d
  {
    if |s| >= 3 && exists g :: IsCliff(s, g) {
      assert Gap(s, c - 1) == Gap(s, d - 1);
    }
  }

  method SemanticCutIndex(s: seq<real>, alpha: real) returns (cut: nat)
    ensures IsCut(s, alpha, cut)
    ensures cut <= |s| && (|s| > 0 ==> cut >= 1)
  {
    var n := |s|;
    if n < 3 { return n; }
    var sum, maxDiff, maxIdx := 0.0, -1.0, -1;
    for i := 0 to n - 1
      invariant sum == s[0] - s[i]
      invariant maxIdx < i && maxDiff >= -1.0
      invariant if maxIdx < 0 then maxDiff == -1.0 else maxDiff == Gap(s, maxIdx)
      invariant forall j: nat :: j < i ==> Gap(s, j) <= maxDiff && (j < maxIdx ==> Gap(s, j) < maxDiff)
    {
      var d := s[i] - s[i + 1];
      assert d == Gap(s, i);
      sum := sum + d;
      if d > maxDiff { maxDiff, maxIdx := d, i; }
    }
    var mean := sum / ((n - 1) as real);
    var threshold := if 2.0 * mean > 0.10 then 2.0 * mean else 0.10;
    TwiceMean(sum, n - 1);
    if maxDiff >= threshold {
      assert IsCliff(s, maxIdx);
      return maxIdx + 1;
    }
    forall g | Widest(s, g) ensures !Significant(s, g) {
      assert Gap(s, g) <= maxDiff;
    }
    cut := n;
    for i := 1 to n
      invariant cut == n && forall j :: 1 <= j < i ==> s[j] >= alpha * s[0]
    {
      if s[i] < alpha * s[0] {
        cut := i;
        break;
      }
    }
  }

  lemma TwiceMean(sum: real, steps: int)
    requires steps > 0
    ensures 2.0 * (sum / steps as real) == 2.0 * sum / steps as real
  {
  }

  lemma {:induction false} WidestExists(s: seq<real>, n: nat) returns (g: nat)
    requires 0 < n < |s|
    ensures g < n && forall i: nat :: i < n ==> Gap(s, i) <= Gap(s, g) && (i < g ==> Gap(s, i) < Gap(s, g))
  {
    g := 0;
    if n > 1 {
      g := WidestExists(s, n - 1);
      if Gap(s, n - 1) > Gap(s, g) { g := n - 1; }
    }
  }

  /** The drop behind position i is at least 0.10, and over all steps it would make at least twice the whole descent. */
  predicate Steep(s: seq<real>, i: nat) {
    i + 1 < |s| && s[i] - s[i + 1] >= 0.10 && (s[i] - s[i + 1]) * (|s| - 1) as real >= 2.0 * (s[0] - s[|s| - 1])
  }

  lemma SteepIsSignificant(s: seq<real>, i: nat)
    requires i + 1 < |s|
    ensures Steep(s, i) <==> Significant(s, i)
  {
    ShareOfDescent(Gap(s, i), 2.0 * (s[0] - s[|s| - 1]), (|s| - 1) as real);
  }

  lemma ShareOfDescent(gap: real, twice: real, steps: real)
    requires steps > 0.0
    ensures gap >= twice / steps <==> gap * steps >= twice
  {
    var share := twice / steps;
    assert share * steps == twice;
    assert gap * steps - twice == (gap - share) * steps;
    if gap >= share { assert (gap - share) * steps >= 0.0; }
    if gap < share { assert (share - gap) * steps > 0.0; }
  }

  /** There is a cliff exactly when some drop is steep; the cut then falls right behind the first of the widest drops, which is
      steep itself. */
  lemma CliffIff(s: seq<real>, alpha: real, cut: nat)
    requires IsCut(s, alpha, cut) && |s| >= 3
    ensures (exists g :: IsCliff(s, g)) <==> exists i: nat :: Steep(s, i)
    ensures (exists i: nat :: Steep(s, i)) ==>
              && 1 <= cut < |s| && Steep(s, cut - 1)
              && forall i: nat :: i + 1 < |s| ==> s[i] - s[i + 1] <= s[cut - 1] - s[cut] && (i + 1 < cut ==> s[i] - s[i + 1] < s[cut - 1] - s[cut])
  {
    var w := WidestExists(s, |s| - 1);
    assert Widest(s, w);
    forall i: nat | i + 1 < |s| ensures Steep(s, i) <==> Significant(s, i) {
      SteepIsSignificant(s, i);
    }
    forall i: nat | Steep(s, i) ensures IsCliff(s, w) {
      assert Gap(s, i) <= Gap(s, w) && Significant(s, i);
    }
    if exists g :: IsCliff(s, g) { CutAtWidest(s, cut); }
  }

  lemma CutAtWidest(s: seq<real>, cut: nat)
    requires cut >= 1 && IsCliff(s, cut - 1)
    ensures cut < |s| && forall i: nat :: i + 1 < |s| ==> s[i] - s[i + 1] <= s[cut - 1] - s[cut] && (i + 1 < cut ==> s[i] - s[i + 1] < s[cut - 1] - s[cut])
  {
    forall i: nat | i + 1 < |s| ensures s[i] - s[i + 1] <= s[cut - 1] - s[cut] && (i + 1 < cut ==> s[i] - s[i + 1] < s[cut - 1] - s[cut]) {
      assert Gap(s, i) <= Gap(s, cut - 1) && (i < cut - 1 ==> Gap(s, i) < Gap(s, cut - 1));
    }
  }

  // ---------------------------------------------------------------- what the cut separates

  predicate Descending(s: seq<real>) {
    forall i, j :: 0 <= i <= j < |s| ==> s[i] >= s[j]
  }

  /** On a descending list every kept score is at least every folded one; across a cliff they are at least 0.10 apart,
      and without one the folded scores are exactly those below the fraction of the top (the top itself is always kept). */
  lemma CutSeparates(s: seq<real>, alpha: real, cut: nat)
    requires Descending(s) && IsCut(s, alpha, cut) && |s| >= 3
    ensures 1 <= cut <= |s|
    ensures forall i, j :: 0 <= i < cut <= j < |s| ==> s[i] >= s[j]
    ensures (exists g :: IsCliff(s, g)) ==> cut < |s| && forall i, j :: 0 <= i < cut <= j < |s| ==> s[i] - s[j] >= 0.10
    ensures !(exists g :: IsCliff(s, g)) ==> forall i :: 1 <= i < |s| ==> (i < cut <==> s[i] >= alpha * s[0])
  {
    if exists g :: IsCliff(s, g) {
      assert Gap(s, cut - 1) >= 0.10;
      forall i, j | 0 <= i < cut <= j < |s| ensures s[i] - s[j] >= 0.10 {
        assert s[i] >= s[cut - 1] && s[cut] >= s[j];
      }
    }
  }

  // ---------------------------------------------------------------- folding a page

  predicate Scored(h: Hit) {
    h.matchedBy == Semantic && h.score.Some?
  }

  /** The positions of the scored semantic hits, in page order. */
  function Positions(hits: seq<Hit>): (r: seq<nat>)
    ensures forall k :: 0 <= k < |r| ==> r[k] < |hits| && Scored(hits[r[k]])
    ensures forall k, l :: 0 <= k < l < |r| ==> r[k] < r[l]
    ensures forall i: nat :: i < |hits| && Scored(hits[i]) ==> i in r
  {
    if hits == [] then []
    else
      var last := |hits| - 1;
      var r := Positions(hits[..last]);
      assert forall i: nat :: i < last && Scored(hits[i]) ==> Scored(hits[..last][i]);
      if Scored(hits[last]) then assert forall i :: i in r + [last] <==> i in r || i == last; r + [last] else r
  }

  function Scores(hits: seq<Hit>): (r: seq<real>)
    ensures |r| == |Positions(hits)|
  {
    var at := Positions(hits);
    seq(|at|, k requires 0 <= k < |at| => hits[at[k]].score.value)
  }

  function Marked(hits: seq<Hit>, folded: seq<nat>): (r: seq<Hit>)
    ensures |r| == |hits|
    ensures forall i :: 0 <= i < |hits| ==> r[i] == if i in folded then hits[i].(belowCut := true) else hits[i]
  {
    seq(|hits|, i requires 0 <= i < |hits| => if i in folded then hits[i].(belowCut := true) else hits[i])
  }

  lemma MarkedSnoc(hits: seq<Hit>, at: seq<nat>, cut: nat, i: nat)
    requires cut <= i < |at| && at[i] < |hits|
    ensures var m, j := Marked(hits, at[cut..i]), at[i];
            Marked(hits, at[cut..i + 1]) == m[j := m[j].(belowCut := true)]
  {
    assert at[cut..i + 1] == at[cut..i] + [at[i]];
  }

  /** The page with its semantic hits from the cut-th on folded away. */
  function Tiered(hits: seq<Hit>, cut: nat): seq<Hit>
    requires cut <= |Positions(hits)|
  {
    Marked(hits, Positions(hits)[cut..])
  }

  method CollectScores(hits: seq<Hit>) returns (semIdx: seq<nat>, scores: seq<real>)
    ensures semIdx == Positions(hits) && scores == Scores(hits)
  {
    semIdx, scores := [], [];
    for i := 0 to |hits|
      invariant semIdx == Positions(hits[..i]) && |scores| == |semIdx|
      invariant forall k :: 0 <= k < |semIdx| ==> semIdx[k] < i && Scored(hits[semIdx[k]]) && scores[k] == hits[semIdx[k]].score.value
    {
      assert hits[..i + 1][..i] == hits[..i];
      if hits[i].matchedBy == Semantic && hits[i].score.Some? {
        semIdx := semIdx + [i];
        scores := scores + [hits[i].score.value];
      }
    }
    assert hits[..|hits|] == hits;
  }

  method Fold(a: array<Hit>, j: nat)
    requires j < a.Length
    modifies a
    ensures a[..] == old(a[..])[j := old(a[..])[j].(belowCut := true)]
  {
    a[j] := a[j].(belowCut := true);
  }

  method FoldFrom(a: array<Hit>, at: seq<nat>, cut: nat)
    requires cut <= |at| && forall k :: 0 <= k < |at| ==> at[k] < a.Length
    modifies a
    ensures a[..] == Marked(old(a[..]), at[cut..])
  {
    for i := cut to |at|
      invariant a[..] == Marked(old(a[..]), at[cut..i])
    {
      MarkedSnoc(old(a[..]), at, cut, i);
      Fold(a, at[i]);
    }
    assert at[cut..|at|] == at[cut..];
  }

  method ApplyCutTiering(a: array<Hit>, alpha: real) returns (ghost cut: nat)
    modifies a
    ensures IsCut(Scores(old(a[..])), alpha, cut) && cut <= |Positions(old(a[..]))|
    ensures a[..] == Tiered(old(a[..]), cut)
  {
    var semIdx, scores := CollectScores(a[..]);
    var c := SemanticCutIndex(scores, alpha);
    cut := c;
    FoldFrom(a, semIdx, c);
  }

  /** Which of the scored semantic hits the i-th one is, and whether it is folded. */
  lemma TierOf(hits: seq<Hit>, cut: nat, i: nat) returns (k: nat)
    requires i < |hits| && Scored(hits[i]) && !hits[i].belowCut && cut <= |Positions(hits)|
    ensures k < |Positions(hits)| && Positions(hits)[k] == i && Scores(hits)[k] == hits[i].score.value
    ensures Tiered(hits, cut)[i].belowCut <==> k >= cut
  {
    var at := Positions(hits);
    k :| 0 <= k < |at| && at[k] == i;
    if k >= cut { assert at[cut..][k - cut] == i; }
    if i in at[cut..] {
      var l :| 0 <= l < |at[cut..]| && at[cut..][l] == i;
      assert at[cut + l] == i;
    }
  }

  /** No OCR hit is folded, and folding changes nothing but the flag. */
  lemma OnlySemanticFolds(hits: seq<Hit>, cut: nat, i: nat)
    requires i < |hits| && !hits[i].belowCut && cut <= |Positions(hits)|
    ensures Tiered(hits, cut)[i] == hits[i].(belowCut := Tiered(hits, cut)[i].belowCut)
    ensures Tiered(hits, cut)[i].belowCut ==> hits[i].matchedBy == Semantic && hits[i].score.Some?
  {
    var folded := Positions(hits)[cut..];
    if i in folded {
      var l :| 0 <= l < |folded| && folded[l] == i;
      assert Positions(hits)[cut + l] == i;
    }
  }

  /** The folded tier is a suffix of the semantic hits, and when their scores descend it holds no better hit than what stays. */
  lemma FoldedIsSuffix(hits: seq<Hit>, cut: nat, i: nat, j: nat)
    requires i < |hits| && j < |hits| && Scored(hits[i]) && Scored(hits[j]) && !hits[i].belowCut && !hits[j].belowCut
    requires cut <= |Positions(hits)| && Descending(Scores(hits))
    ensures var r := Tiered(hits, cut);
            && (i < j && r[i].belowCut ==> r[j].belowCut)
            && (!r[i].belowCut && r[j].belowCut ==> i < j && hits[i].score.value >= hits[j].score.value)
  {
    var k := TierOf(hits, cut, i);
    var l := TierOf(hits, cut, j);
  }

  /** Something is always left in front of a folded hit. */
  lemma SomethingStays(hits: seq<Hit>, alpha: real, cut: nat, i: nat) returns (j: nat)
    requires forall x :: 0 <= x < |hits| ==> !hits[x].belowCut
    requires IsCut(Scores(hits), alpha, cut) && cut <= |Positions(hits)| && i < |hits| && Tiered(hits, cut)[i].belowCut
    ensures j < i && Scored(hits[j]) && !Tiered(hits, cut)[j].belowCut
  {
    OnlySemanticFolds(hits, cut, i);
    var k := TierOf(hits, cut, i);
    j := Positions(hits)[0];
    var first := TierOf(hits, cut, j);
    assert cut >= 1;
  }
}
