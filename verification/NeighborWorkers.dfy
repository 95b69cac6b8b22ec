/** buildNeighborLists: the rows are split over workers that run in any
    interleaving and report progress through an atomic counter and a mutex. */
module NeighborWorkers {
  import opened Graphs
  import opened Density
  import opened Dbscan

  /** Where a worker is with the row it owns next: the row range still ahead is [row, hi). */
  datatype Worker =
    | Computing(row: nat, hi: nat)
    | Counting(row: nat, hi: nat)
    | Reporting(row: nat, hi: nat, done: nat)

  datatype Row = Empty | Filled(neighbors: seq<nat>)

  /** The shared state: the rows, the atomic counter, and what the mutex guards. */
  datatype Pool = Pool(out: seq<Row>, workers: seq<Worker>, completed: nat, lastReported: int, delivered: seq<nat>)

  // ---------------------------------------------------------------- the row split

  function Min(a: nat, b: nat): nat { if a < b then a else b }

  function RowsPerWorker(n: nat, workers: nat): nat
    requires workers > 0
  {
    (n + workers - 1) / workers
  }

  /** The workers started among the first k, each owning r rows while rows are left. */
  function Spawned(n: nat, r: nat, k: nat): (ws: seq<Worker>)
    ensures forall i :: 0 <= i < |ws| ==> ws[i].Computing? && ws[i].row < ws[i].hi <= n
  {
    if k == 0 then []
    else
      var lo := (k - 1) * r;
      var hi := Min(lo + r, n);
      if lo < hi then Spawned(n, r, k - 1) + [Computing(lo, hi)] else Spawned(n, r, k - 1)
  }

  /** The ranges are adjacent and cover [0, end). */
  ghost predicate Tiles(ws: seq<Worker>, end: nat) {
    if ws == [] then end == 0
    else
      var w := ws[|ws| - 1];
      w.row < w.hi == end && Tiles(ws[..|ws| - 1], w.row)
  }

  lemma TilesSnoc(ws: seq<Worker>, w: Worker)
    requires Tiles(ws, w.row) && w.row < w.hi
    ensures Tiles(ws + [w], w.hi)
  {
    assert (ws + [w])[..|ws|] == ws;
  }

  lemma {:induction false} SpawnedTiles(n: nat, r: nat, k: nat, end: nat)
    requires end == k * r
    ensures Tiles(Spawned(n, r, k), Min(end, n))
  {
    if k > 0 {
      var lo := (k - 1) * r;
      assert end == lo + r;
      SpawnedTiles(n, r, k - 1, lo);
      if lo < Min(lo + r, n) {
        TilesSnoc(Spawned(n, r, k - 1), Computing(lo, Min(lo + r, n)));
      }
    }
  }

  /** Together the workers cover every row, however many there are. */
  lemma SplitCovers(n: nat, workers: nat)
    requires workers > 0
    ensures Tiles(Spawned(n, RowsPerWorker(n, workers), workers), n)
  {
    var r := RowsPerWorker(n, workers);
    assert workers * r + (n + workers - 1) % workers == n + workers - 1;
    SpawnedTiles(n, r, workers, workers * r);
  }

  /** ... and evenly: at most `workers` of them start, and none gets more than a share of n rounded up. */
  lemma SplitIsEven(n: nat, workers: nat)
    requires workers > 0
    ensures var ws := Spawned(n, RowsPerWorker(n, workers), workers);
            |ws| <= workers && forall i :: 0 <= i < |ws| ==> (ws[i].hi - ws[i].row - 1) * workers < n
  {
    var r := RowsPerWorker(n, workers);
    SpawnedShares(n, r, workers);
    forall i | 0 <= i < |Spawned(n, r, workers)| ensures (Spawned(n, r, workers)[i].hi - Spawned(n, r, workers)[i].row - 1) * workers < n {
      ShareBelow(n, workers, Spawned(n, r, workers)[i].hi - Spawned(n, r, workers)[i].row);
    }
  }

  lemma ShareBelow(n: nat, workers: nat, rows: int)
    requires workers > 0 && rows <= RowsPerWorker(n, workers)
    ensures (rows - 1) * workers < n
  {
    var r: int := RowsPerWorker(n, workers);
    assert workers * r <= n + workers - 1;
    assert workers * r == workers * (r - 1) + workers;
    MulMonotone(workers, rows - 1, r - 1);
  }

  lemma {:induction false} SpawnedShares(n: nat, r: nat, k: nat)
    ensures |Spawned(n, r, k)| <= k && forall i :: 0 <= i < |Spawned(n, r, k)| ==> Spawned(n, r, k)[i].hi - Spawned(n, r, k)[i].row <= r
  {
    if k > 0 { SpawnedShares(n, r, k - 1); }
  }

  // ---------------------------------------------------------------- steps

  ghost predicate Init(n: nat, workers: nat, s: Pool) {
    && n > 0 && workers > 0
    && s == Pool(seq(n, _ => Empty), Spawned(n, RowsPerWorker(n, workers), workers), 0, -1, [])
  }

  function Bucket(n: nat, done: nat): nat
    requires n > 0
  {
    done * 100 / n
  }

  /** One atomic action of worker w: the row write, the counter increment, or the guarded report. */
  ghost predicate Step(near: Graphs.Step, n: nat, s: Pool, t: Pool, w: nat) {
    && n > 0 && w < |s.workers| && |s.out| == n
    && match s.workers[w]
       case Computing(i, hi) =>
         i < hi && i < n && t == s.(out := s.out[i := Filled(NeighborsBelow(near, i, n))], workers := s.workers[w := Counting(i, hi)])
       case Counting(i, hi) =>
         t == s.(completed := s.completed + 1, workers := s.workers[w := Reporting(i, hi, s.completed + 1)])
       case Reporting(i, hi, done) =>
         var b := Bucket(n, done);
         var s' := s.(workers := s.workers[w := Computing(i + 1, hi)]);
         t == if b > s.lastReported then s'.(lastReported := b, delivered := s.delivered + [done]) else s'
  }

  /** Some worker takes one step. */
  ghost predicate Moves(near: Graphs.Step, n: nat, s: Pool, t: Pool) {
    exists w: nat :: Step(near, n, s, t, w)
  }

  ghost predicate MovesAt(near: Graphs.Step, n: nat, trace: seq<Pool>, k: nat) {
    0 < k < |trace| ==> Moves(near, n, trace[k - 1], trace[k])
  }

  ghost predicate Run(near: Graphs.Step, n: nat, workers: nat, trace: seq<Pool>) {
    |trace| > 0 && Init(n, workers, trace[0]) && forall k :: MovesAt(near, n, trace, k)
  }

  /** Every worker has left its loop, so the wait group lets the caller go on. */
  ghost predicate Finished(s: Pool) {
    forall w :: 0 <= w < |s.workers| ==> s.workers[w].Computing? && s.workers[w].row == s.workers[w].hi
  }

  // ---------------------------------------------------------------- invariant

  function Ahead(w: Worker): int {
    match w
    case Computing(i, hi) => hi - i
    case Counting(i, hi) => hi - i
    case Reporting(i, hi, _) => hi - i - 1
  }

  function Remaining(ws: seq<Worker>): int {
    if ws == [] then 0 else Remaining(ws[..|ws| - 1]) + Ahead(ws[|ws| - 1])
  }

  ghost predicate Owns(w: Worker, i: nat) {
    w.row <= i < w.hi && (w.Computing? || w.row < i)
  }

  ghost predicate Owned(ws: seq<Worker>, i: nat) {
    exists w :: 0 <= w < |ws| && Owns(ws[w], i)
  }

  /** A row is filled, or still ahead of the worker that owns it. */
  ghost predicate RowsPending(near: Graphs.Step, n: nat, s: Pool) {
    && |s.out| == n
    && forall i: nat :: i < n ==> s.out[i] == Filled(NeighborsBelow(near, i, n)) || Owned(s.workers, i)
  }

  /** Every count is drawn once, and only the count n brings the last bucket. */
  ghost predicate Counted(n: nat, s: Pool) {
    && s.completed + Remaining(s.workers) == n
    && (forall w :: 0 <= w < |s.workers| && s.workers[w].Reporting? ==> 1 <= s.workers[w].done <= s.completed)
    && (forall v, w :: 0 <= v < w < |s.workers| && s.workers[v].Reporting? && s.workers[w].Reporting? ==>
          s.workers[v].done != s.workers[w].done)
    && (s.lastReported == 100 <==> s.completed == n && !Announcing(s, n))
  }

  ghost predicate Inv(near: Graphs.Step, n: nat, s: Pool) {
    && n > 0
    && (forall w :: 0 <= w < |s.workers| ==> s.workers[w].row <= s.workers[w].hi <= n
                                             && (!s.workers[w].Computing? ==> s.workers[w].row < s.workers[w].hi))
    && RowsPending(near, n, s) && Counted(n, s) && Delivered(n, s)
  }

  /** Some worker holds the count d and has not reported it yet. */
  ghost predicate Announcing(s: Pool, d: nat) {
    exists w :: 0 <= w < |s.workers| && s.workers[w].Reporting? && s.workers[w].done == d
  }

  ghost predicate Delivered(n: nat, s: Pool)
    requires n > 0
  {
    && (forall k :: 0 <= k < |s.delivered| ==> 1 <= s.delivered[k] <= s.completed)
    && Ascending(s.delivered)
    && -1 <= s.lastReported <= 100 && |s.delivered| <= s.lastReported + 1
    && if s.delivered == [] then s.lastReported == -1
       else s.lastReported == Bucket(n, s.delivered[|s.delivered| - 1])
  }

  lemma {:induction false} RemainingUpdate(ws: seq<Worker>, w: nat, x: Worker)
    requires w < |ws|
    ensures Remaining(ws[w := x]) == Remaining(ws) - Ahead(ws[w]) + Ahead(x)
  {
    var last := |ws| - 1;
    if w == last {
      assert ws[w := x][..last] == ws[..last];
    } else {
      assert ws[w := x][..last] == ws[..last][w := x];
      RemainingUpdate(ws[..last], w, x);
    }
  }

  lemma {:induction false} TilesRemaining(ws: seq<Worker>, end: nat)
    requires Tiles(ws, end) && forall k :: 0 <= k < |ws| ==> ws[k].Computing?
    ensures Remaining(ws) == end
    ensures forall i: nat :: i < end ==> Owned(ws, i)
  {
    if ws != [] {
      var last := |ws| - 1;
      TilesRemaining(ws[..last], ws[last].row);
      forall i: nat | i < end ensures Owned(ws, i) {
        if i < ws[last].row {
          assert Owned(ws[..last], i);
          var w :| 0 <= w < last && Owns(ws[..last][w], i);
          assert Owns(ws[w], i);
        } else {
          assert Owns(ws[last], i);
        }
      }
    }
  }

  lemma InitInv(near: Graphs.Step, n: nat, workers: nat, s: Pool)
    requires Init(n, workers, s)
    ensures Inv(near, n, s)
  {
    SplitCovers(n, workers);
    TilesRemaining(s.workers, n);
  }

  lemma MulMonotone(n: nat, a: int, b: int)
    requires a <= b
    ensures n * a <= n * b
  {
  }

  lemma DivMonotone(n: nat, a: nat, b: nat)
    requires n > 0 && a <= b
    ensures a / n <= b / n
  {
    var p, q := a / n, b / n;
    if q < p { MulMonotone(n, q + 1, p); }
  }

  lemma DivBelow(n: nat, a: nat, c: nat)
    requires n > 0 && a < n * c
    ensures a / n < c
  {
    var q := a / n;
    assert n * q <= a;
    if c <= q { MulMonotone(n, c, q); }
  }

  lemma DivExact(n: nat, c: nat)
    requires n > 0
    ensures (n * c) / n == c
  {
    var q := (n * c) / n;
    assert n * c == n * q + (n * c) % n;
    if q < c { MulMonotone(n, q + 1, c); }
    if c < q { MulMonotone(n, c + 1, q); }
  }

  lemma BucketMonotone(n: nat, d: nat, e: nat)
    requires n > 0
    ensures d <= e ==> Bucket(n, d) <= Bucket(n, e)
  {
    if d <= e { DivMonotone(n, d * 100, e * 100); }
  }

  lemma BucketTop(n: nat, d: nat)
    requires 0 < n
    ensures d < n ==> Bucket(n, d) < 100
    ensures d == n ==> Bucket(n, d) == 100
  {
    if d < n { DivBelow(n, d * 100, 100); }
    DivExact(n, 100);
  }

  lemma {:induction false} RemainingAtLeast(ws: seq<Worker>, w: nat)
    requires w < |ws| && forall k :: 0 <= k < |ws| ==> Ahead(ws[k]) >= 0
    ensures Remaining(ws) >= Ahead(ws[w])
  {
    var last := |ws| - 1;
    if w < last {
      RemainingAtLeast(ws[..last], w);
    } else {
      RemainingNonNegative(ws[..last]);
    }
  }

  lemma {:induction false} RemainingNonNegative(ws: seq<Worker>)
    requires forall k :: 0 <= k < |ws| ==> Ahead(ws[k]) >= 0
    ensures Remaining(ws) >= 0
    ensures Remaining(ws) == 0 <==> forall k :: 0 <= k < |ws| ==> Ahead(ws[k]) == 0
  {
    if ws != [] {
      var last := |ws| - 1;
      RemainingNonNegative(ws[..last]);
      if Remaining(ws) == 0 {
        forall k | 0 <= k < |ws| ensures Ahead(ws[k]) == 0 {
          assert k < last ==> Ahead(ws[..last][k]) == 0;
        }
      }
      if forall k :: 0 <= k < |ws| ==> Ahead(ws[k]) == 0 {
        assert forall k :: 0 <= k < last ==> Ahead(ws[..last][k]) == 0;
      }
    }
  }

  // ---------------------------------------------------------------- every step keeps the invariant

  lemma OwnedKept(ws: seq<Worker>, w: nat, x: Worker, i: nat)
    requires w < |ws| && Owned(ws, i) && (Owns(ws[w], i) ==> Owns(x, i))
    ensures Owned(ws[w := x], i)
  {
    var v :| 0 <= v < |ws| && Owns(ws[v], i);
    assert Owns(ws[w := x][v], i);
  }

  lemma ComputeKeeps(near: Graphs.Step, n: nat, s: Pool, t: Pool, w: nat)
    requires Inv(near, n, s) && Step(near, n, s, t, w) && s.workers[w].Computing?
    ensures Inv(near, n, t)
  {
    var x := t.workers[w];
    RemainingUpdate(s.workers, w, x);
    forall i: nat | i < n && t.out[i] != Filled(NeighborsBelow(near, i, n)) ensures Owned(t.workers, i) {
      OwnedKept(s.workers, w, x, i);
    }
    assert forall d: nat :: Announcing(t, d) <==> Announcing(s, d) by {
      forall d: nat ensures Announcing(t, d) <==> Announcing(s, d) {
        AnnouncingUpdate(s, t, w, d);
      }
    }
  }

  lemma AnnouncingUpdate(s: Pool, t: Pool, w: nat, d: nat)
    requires w < |s.workers| == |t.workers| && t.workers == s.workers[w := t.workers[w]]
    ensures !(s.workers[w].Reporting? && s.workers[w].done == d) ==>
              (Announcing(t, d) <==> Announcing(s, d) || (t.workers[w].Reporting? && t.workers[w].done == d))
    ensures t.workers[w].Reporting? && t.workers[w].done == d ==> Announcing(t, d)
    ensures s.workers[w].Reporting? && s.workers[w].done == d ==> Announcing(s, d)
  {
    if Announcing(s, d) {
      var v :| 0 <= v < |s.workers| && s.workers[v].Reporting? && s.workers[v].done == d;
      assert v != w ==> t.workers[v] == s.workers[v];
    }
  }

  lemma CountKeeps(near: Graphs.Step, n: nat, s: Pool, t: Pool, w: nat)
    requires Inv(near, n, s) && Step(near, n, s, t, w) && s.workers[w].Counting?
    ensures Inv(near, n, t)
  {
    var x := t.workers[w];
    RemainingUpdate(s.workers, w, x);
    RemainingAtLeast(s.workers, w);
    forall i: nat | i < n && t.out[i] != Filled(NeighborsBelow(near, i, n)) ensures Owned(t.workers, i) {
      OwnedKept(s.workers, w, x, i);
    }
    AnnouncingUpdate(s, t, w, n);
  }

  /** The guarded report keeps the record of calls: a bucket not above the last one is dropped. */
  lemma ReportDelivers(near: Graphs.Step, n: nat, s: Pool, t: Pool, w: nat)
    requires n > 0 && Step(near, n, s, t, w) && s.workers[w].Reporting? && Delivered(n, s)
    requires 1 <= s.workers[w].done <= s.completed <= n
    ensures Delivered(n, t) && t.completed == s.completed
    ensures t.lastReported == 100 <==> s.lastReported == 100 || s.workers[w].done == n
  {
    var d := s.workers[w].done;
    BucketTop(n, d);
    if s.delivered != [] {
      BucketMonotone(n, d, s.delivered[|s.delivered| - 1]);
    }
  }

  lemma ReportCounts(near: Graphs.Step, n: nat, s: Pool, t: Pool, w: nat)
    requires n > 0 && Step(near, n, s, t, w) && s.workers[w].Reporting? && Counted(n, s)
    requires t.lastReported == 100 <==> s.lastReported == 100 || s.workers[w].done == n
    requires s.completed <= n
    ensures Counted(n, t)
  {
    RemainingUpdate(s.workers, w, t.workers[w]);
    assert t.workers == s.workers[w := t.workers[w]];
    AnnouncingUpdate(s, t, w, n);
    assert s.workers[w].done == n ==> !Announcing(t, n);
  }

  lemma ReportKeeps(near: Graphs.Step, n: nat, s: Pool, t: Pool, w: nat)
    requires Inv(near, n, s) && Step(near, n, s, t, w) && s.workers[w].Reporting?
    ensures Inv(near, n, t)
  {
    RemainingNonNegative(s.workers);
    forall i: nat | i < n && t.out[i] != Filled(NeighborsBelow(near, i, n)) ensures Owned(t.workers, i) {
      OwnedKept(s.workers, w, t.workers[w], i);
    }
    ReportDelivers(near, n, s, t, w);
    ReportCounts(near, n, s, t, w);
  }

  lemma StepKeeps(near: Graphs.Step, n: nat, s: Pool, t: Pool, w: nat)
    requires Inv(near, n, s) && Step(near, n, s, t, w)
    ensures Inv(near, n, t)
  {
    match s.workers[w]
    case Computing(_, _) => ComputeKeeps(near, n, s, t, w);
    case Counting(_, _) => CountKeeps(near, n, s, t, w);
    case Reporting(_, _, _) => ReportKeeps(near, n, s, t, w);
  }

  lemma {:induction false} RunKeeps(near: Graphs.Step, n: nat, workers: nat, trace: seq<Pool>, k: nat)
    requires Run(near, n, workers, trace) && k < |trace|
    ensures Inv(near, n, trace[k])
  {
    if k == 0 {
      InitInv(near, n, workers, trace[0]);
    } else {
      RunKeeps(near, n, workers, trace, k - 1);
      assert MovesAt(near, n, trace, k);
      var w: nat :| Step(near, n, trace[k - 1], trace[k], w);
      StepKeeps(near, n, trace[k - 1], trace[k], w);
    }
  }

  // ---------------------------------------------------------------- progress keeps up

  /** The delivered counts rise in percent, and every count that no worker holds any more is covered by the last of them. */
  ghost predicate Current(n: nat, s: Pool)
    requires n > 0
  {
    && (forall i, j :: 0 <= i < j < |s.delivered| ==> Bucket(n, s.delivered[i]) < Bucket(n, s.delivered[j]))
    && (forall d: nat :: 1 <= d <= s.completed ==> CoveredAt(n, s, d))
  }

  ghost predicate CoveredAt(n: nat, s: Pool, d: nat)
    requires n > 0
  {
    Announcing(s, d) || Bucket(n, d) <= s.lastReported
  }

  lemma CurrentKeeps(near: Graphs.Step, n: nat, s: Pool, t: Pool, w: nat)
    requires Inv(near, n, s) && Current(n, s) && Step(near, n, s, t, w)
    ensures Current(n, t)
  {
    forall d: nat | 1 <= d <= t.completed ensures CoveredAt(n, t, d) {
      AnnouncingUpdate(s, t, w, d);
      if d <= s.completed { assert CoveredAt(n, s, d); }
    }
    forall i, j | 0 <= i < j < |t.delivered| ensures Bucket(n, t.delivered[i]) < Bucket(n, t.delivered[j]) {
      if j == |s.delivered| && i < j - 1 { assert Bucket(n, s.delivered[i]) < Bucket(n, s.delivered[j - 1]); }
    }
  }

  lemma {:induction false} CurrentUpTo(near: Graphs.Step, n: nat, workers: nat, trace: seq<Pool>, k: nat)
    requires Run(near, n, workers, trace) && k < |trace|
    ensures Current(n, trace[k])
  {
    if k > 0 {
      CurrentUpTo(near, n, workers, trace, k - 1);
      RunKeeps(near, n, workers, trace, k - 1);
      assert MovesAt(near, n, trace, k);
      var w: nat :| Step(near, n, trace[k - 1], trace[k], w);
      CurrentKeeps(near, n, trace[k - 1], trace[k], w);
    }
  }

  /** At every moment of every schedule: the delivered counts are of different, rising percentages, and a count that has been
      drawn and is not held by a worker has been delivered, or one of at least its percentage has. */
  lemma ProgressKeepsUp(near: Graphs.Step, n: nat, workers: nat, trace: seq<Pool>, k: nat, d: nat)
    requires Run(near, n, workers, trace) && k < |trace|
    ensures var s := trace[k];
            forall i, j :: 0 <= i < j < |s.delivered| ==> s.delivered[i] * 100 / n < s.delivered[j] * 100 / n
    ensures var s := trace[k];
            1 <= d <= s.completed && (forall w :: 0 <= w < |s.workers| && s.workers[w].Reporting? ==> s.workers[w].done != d) ==>
              exists i :: 0 <= i < |s.delivered| && s.delivered[i] * 100 / n >= d * 100 / n
  {
    var s := trace[k];
    CurrentUpTo(near, n, workers, trace, k);
    RunKeeps(near, n, workers, trace, k);
    if 1 <= d <= s.completed && !Announcing(s, d) {
      assert CoveredAt(n, s, d);
      assert s.delivered != [] && s.delivered[|s.delivered| - 1] * 100 / n == s.lastReported;
    }
    forall i, j | 0 <= i < j < |s.delivered| ensures s.delivered[i] * 100 / n < s.delivered[j] * 100 / n {
      assert Bucket(n, s.delivered[i]) < Bucket(n, s.delivered[j]);
    }
  }

  // ---------------------------------------------------------------- what a finished run has done

  /** The rows as lists, once all are filled. */
  function Rows(out: seq<Row>): seq<seq<nat>> {
    if out == [] then []
    else Rows(out[..|out| - 1]) + [match out[|out| - 1] case Empty => [] case Filled(nb) => nb]
  }

  lemma {:induction false} RowsAt(out: seq<Row>)
    ensures |Rows(out)| == |out|
    ensures forall i :: 0 <= i < |out| && out[i].Filled? ==> Rows(out)[i] == out[i].neighbors
  {
    if out != [] { RowsAt(out[..|out| - 1]); }
  }

  /** In any schedule, however many workers there are: at most 101 calls, strictly increasing, and the
      last one reports n, so that the explicit trailing call (made when lastReported != 100) never fires. */
  lemma ProgressDelivered(near: Graphs.Step, n: nat, workers: nat, trace: seq<Pool>)
    requires Run(near, n, workers, trace) && Finished(trace[|trace| - 1])
    ensures var s := trace[|trace| - 1];
            && Ascending(s.delivered) && 0 < |s.delivered| <= 101
            && s.delivered[|s.delivered| - 1] == n && s.lastReported == 100
            && (forall k :: 0 <= k < |s.delivered| ==> (s.delivered[k] == n <==> k == |s.delivered| - 1))
  {
    var s := trace[|trace| - 1];
    RunKeeps(near, n, workers, trace, |trace| - 1);
    RemainingNonNegative(s.workers);
    assert !Announcing(s, n);
    BucketTop(n, s.delivered[|s.delivered| - 1]);
  }

  /** ... and the rows are the neighbour lists a serial pass would compute. */
  lemma RowsComputed(near: Graphs.Step, n: nat, workers: nat, trace: seq<Pool>)
    requires Run(near, n, workers, trace) && Finished(trace[|trace| - 1])
    ensures Rows(trace[|trace| - 1].out) == Lists(near, n)
  {
    var s := trace[|trace| - 1];
    RunKeeps(near, n, workers, trace, |trace| - 1);
    RowsAt(s.out);
    assert forall i: nat :: i < n ==> !Owned(s.workers, i);
  }

  // ---------------------------------------------------------------- the workers cannot stall or run forever

  function Work(w: Worker): int {
    match w
    case Computing(i, hi) => 3 * (hi - i)
    case Counting(i, hi) => 3 * (hi - i) - 1
    case Reporting(i, hi, _) => 3 * (hi - i) - 2
  }

  function TotalWork(ws: seq<Worker>): int {
    if ws == [] then 0 else TotalWork(ws[..|ws| - 1]) + Work(ws[|ws| - 1])
  }

  lemma {:induction false} WorkUpdate(ws: seq<Worker>, w: nat, x: Worker)
    requires w < |ws|
    ensures TotalWork(ws[w := x]) == TotalWork(ws) - Work(ws[w]) + Work(x)
  {
    var last := |ws| - 1;
    if w == last {
      assert ws[w := x][..last] == ws[..last];
    } else {
      assert ws[w := x][..last] == ws[..last][w := x];
      WorkUpdate(ws[..last], w, x);
    }
  }

  lemma {:induction false} WorkNonNegative(ws: seq<Worker>)
    requires forall k :: 0 <= k < |ws| ==> Work(ws[k]) >= 0
    ensures TotalWork(ws) >= 0
  {
    if ws != [] { WorkNonNegative(ws[..|ws| - 1]); }
  }

  /** Every step uses up one unit of a bounded amount of work. */
  lemma WorkShrinks(near: Graphs.Step, n: nat, workers: nat, trace: seq<Pool>, k: nat)
    requires Run(near, n, workers, trace) && 0 < k < |trace|
    ensures 0 <= TotalWork(trace[k].workers) == TotalWork(trace[k - 1].workers) - 1
  {
    RunKeeps(near, n, workers, trace, k);
    WorkNonNegative(trace[k].workers);
    assert MovesAt(near, n, trace, k);
    var w: nat :| Step(near, n, trace[k - 1], trace[k], w);
    WorkUpdate(trace[k - 1].workers, w, trace[k].workers[w]);
  }

  function Next(near: Graphs.Step, n: nat, s: Pool, w: nat): (t: Pool)
    requires n > 0 && w < |s.workers| && |s.out| == n
    requires s.workers[w].Computing? ==> s.workers[w].row < s.workers[w].hi <= n
    ensures Step(near, n, s, t, w)
  {
    match s.workers[w]
    case Computing(i, hi) => s.(out := s.out[i := Filled(NeighborsBelow(near, i, n))], workers := s.workers[w := Counting(i, hi)])
    case Counting(i, hi) => s.(completed := s.completed + 1, workers := s.workers[w := Reporting(i, hi, s.completed + 1)])
    case Reporting(i, hi, done) =>
      var s' := s.(workers := s.workers[w := Computing(i + 1, hi)]);
      if Bucket(n, done) > s.lastReported then s'.(lastReported := Bucket(n, done), delivered := s.delivered + [done]) else s'
  }

  /** A pool that is not finished always has a step to take. */
  lemma NeverStuck(near: Graphs.Step, n: nat, workers: nat, trace: seq<Pool>, k: nat)
    requires Run(near, n, workers, trace) && k < |trace| && !Finished(trace[k])
    ensures exists t: Pool :: Moves(near, n, trace[k], t)
  {
    RunKeeps(near, n, workers, trace, k);
    var s := trace[k];
    var w: nat :| w < |s.workers| && !(s.workers[w].Computing? && s.workers[w].row == s.workers[w].hi);
    assert Moves(near, n, s, Next(near, n, s, w));
  }

  /** DBSCANWithProgress: the serial phase over the rows of any finished run labels exactly as DBSCAN does. */
  lemma WithProgressAgreesWithDBSCAN<V(!new)>(vecs: seq<V>, dist: (V, V) -> real, epsilon: real, minPoints: int, workers: nat,
                                              trace: seq<Pool>, fromRows: seq<int>, fromVectors: seq<int>)
    requires Run(Within(vecs, dist, epsilon), |vecs|, workers, trace) && Finished(trace[|trace| - 1])
    requires IsLabeling(Rows(trace[|trace| - 1].out), minPoints, fromRows)
    requires IsLabeling(Lists(Within(vecs, dist, epsilon), |vecs|), minPoints, fromVectors)
    ensures fromRows == fromVectors
  {
    RowsComputed(Within(vecs, dist, epsilon), |vecs|, workers, trace);
  }
}
