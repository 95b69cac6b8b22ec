/** The row workers of the distance matrix: whatever order their writes fall in, the matrix ends complete. */
module MatrixWorkers {
  import opened Graphs
  import opened Dbscan
  import opened NeighborWorkers

  type Pair = (nat, nat)

  /** The cells off the diagonal. */
  function Cells(n: nat): (cells: set<Pair>)
    ensures forall a: nat, b: nat :: (a, b) in cells <==> a < n && b < n && a != b
  {
    set a: nat, b: nat | 0 <= a < n && 0 <= b < n && a != b :: (a, b)
  }

  /** The cells that the worker of rows lo..hi writes: right of the diagonal in its rows, and their mirrors. */
  function Owned(lo: nat, hi: nat, n: nat): (cells: set<Pair>)
    ensures forall a: nat, b: nat :: (a, b) in cells <==> a < n && b < n && a != b && lo <= Min(a, b) < hi
  {
    set a: nat, b: nat | 0 <= a < n && 0 <= b < n && a != b && lo <= Min(a, b) < hi :: (a, b)
  }

  /** The matrix and the cells still to be written by somebody. */
  datatype Table = Table(mat: seq<real>, todo: set<Pair>)

  /** One write: the worker that owns the pair computes the distance with the smaller index first, as its row loop does. */
  ghost predicate Write<V(!new)>(vecs: seq<V>, dist: (V, V) -> real, s: Table, a: nat, b: nat, t: Table) {
    && (a, b) in s.todo && a < |vecs| && b < |vecs| && Cell(|vecs|, a, b) < |s.mat|
    && t.todo == s.todo - {(a, b)}
    && t.mat == s.mat[Cell(|vecs|, a, b) := if a < b then dist(vecs[a], vecs[b]) else dist(vecs[b], vecs[a])]
  }

  ghost predicate Writes<V(!new)>(vecs: seq<V>, dist: (V, V) -> real, s: Table, t: Table) {
    exists a: nat, b: nat :: Write(vecs, dist, s, a, b, t)
  }

  ghost predicate WritesAt<V(!new)>(vecs: seq<V>, dist: (V, V) -> real, trace: seq<Table>, k: nat)
    requires k + 1 < |trace|
  {
    Writes(vecs, dist, trace[k], trace[k + 1])
  }

  /** Any interleaving of the workers' writes, and more: the writes in any order at all. */
  ghost predicate WriteRun<V(!new)>(vecs: seq<V>, dist: (V, V) -> real, trace: seq<Table>) {
    && |trace| > 0 && |trace[0].mat| == |vecs| * |vecs| && trace[0].todo == Cells(|vecs|)
    && forall k: nat :: k + 1 < |trace| ==> WritesAt(vecs, dist, trace, k)
  }

  lemma {:induction false} TileOf(ws: seq<Worker>, end: nat, r: nat) returns (w: nat)
    requires Tiles(ws, end) && r < end && forall i :: 0 <= i < |ws| ==> ws[i].Computing?
    ensures w < |ws| && ws[w].row <= r < ws[w].hi
  {
    w := |ws| - 1;
    if r < ws[w].row { w := TileOf(ws[..|ws| - 1], ws[w].row, r); }
  }

  /** Every cell is written by a worker, the one that owns the smaller of its indices, however many workers there are. */
  lemma WorkersOwnAllCells(n: nat, workers: nat, a: nat, b: nat) returns (w: nat)
    requires workers > 0 && (a, b) in Cells(n)
    ensures var ws := Spawned(n, RowsPerWorker(n, workers), workers); w < |ws| && (a, b) in Owned(ws[w].row, ws[w].hi, n)
  {
    SplitCovers(n, workers);
    w := TileOf(Spawned(n, RowsPerWorker(n, workers), workers), n, Min(a, b));
  }

  /** The cells that are no longer to be written hold their distances. */
  ghost predicate Written<V(!new)>(vecs: seq<V>, dist: (V, V) -> real, s: Table) {
    && |s.mat| == |vecs| * |vecs|
    && forall a: nat, b: nat :: a < |vecs| && b < |vecs| && a != b && (a, b) !in s.todo && Cell(|vecs|, a, b) < |s.mat| ==>
         s.mat[Cell(|vecs|, a, b)] == dist(vecs[a], vecs[b])
  }

  lemma WriteKeeps<V(!new)>(vecs: seq<V>, dist: (V, V) -> real, s: Table, a: nat, b: nat, t: Table)
    requires forall x, y :: dist(x, y) == dist(y, x)
    requires Written(vecs, dist, s) && Write(vecs, dist, s, a, b, t)
    ensures Written(vecs, dist, t)
  {
    forall c: nat, d: nat | c < |vecs| && d < |vecs| ensures Cell(|vecs|, c, d) == Cell(|vecs|, a, b) <==> c == a && d == b {
      OtherCells(|vecs|, a, b, c, d);
    }
  }

  lemma {:induction false} WrittenUpTo<V(!new)>(vecs: seq<V>, dist: (V, V) -> real, trace: seq<Table>, k: nat)
    requires forall x, y :: dist(x, y) == dist(y, x)
    requires WriteRun(vecs, dist, trace) && k < |trace|
    ensures Written(vecs, dist, trace[k]) && |trace[k].todo| + k == |Cells(|vecs|)|
  {
    if k > 0 {
      WrittenUpTo(vecs, dist, trace, k - 1);
      assert WritesAt(vecs, dist, trace, k - 1);
      var a: nat, b: nat :| Write(vecs, dist, trace[k - 1], a, b, trace[k]);
      WriteKeeps(vecs, dist, trace[k - 1], a, b, trace[k]);
    }
  }

  /** In every schedule the matrix is complete when the last write has been made, and that takes as many writes as there are
      cells off the diagonal. */
  lemma AnyOrderFills<V(!new)>(vecs: seq<V>, dist: (V, V) -> real, trace: seq<Table>)
    requires forall x, y :: dist(x, y) == dist(y, x)
    requires WriteRun(vecs, dist, trace) && trace[|trace| - 1].todo == {}
    ensures Dbscan.Filled(vecs, dist, RowsBelow(|vecs|), trace[|trace| - 1].mat)
    ensures |trace| == |Cells(|vecs|)| + 1
  {
    WrittenUpTo(vecs, dist, trace, |trace| - 1);
  }
}
