/** Trash and restore: a database row and a file that move together, with every way a move can fail. */
module Trash {
  import opened Options

  type Id = string
  type Bytes = string

  /** A cleaned path: its directories and its last element. */
  datatype Path = Path(dir: seq<string>, name: string)

  datatype Row = Row(filePath: Path, originalPath: Option<Path>, deleted: bool)

  // ---------------------------------------------------------------- fresh names

  function Digit(d: nat): char
    requires d < 10
  {
    "0123456789"[d]
  }

  function Decimal(n: nat): (s: string)
    ensures |s| >= 1 && (n >= 10 ==> |s| >= 2)
  {
    if n < 10 then [Digit(n)] else Decimal(n / 10) + [Digit(n % 10)]
  }

  lemma {:induction false} DecimalInjective(m: nat, n: nat)
    requires Decimal(m) == Decimal(n)
    ensures m == n
  {
    var s := Decimal(m);
    assert |s| == 1 <==> m < 10 && n < 10;
    if m >= 10 && n >= 10 {
      assert s[..|s| - 1] == Decimal(m / 10) == Decimal(n / 10);
      assert s[|s| - 1] == Digit(m % 10) == Digit(n % 10);
      DecimalInjective(m / 10, n / 10);
      DigitInjective(m % 10, n % 10);
    } else {
      assert s[0] == Digit(m) == Digit(n);
      DigitInjective(m, n);
    }
  }

  lemma DigitInjective(d: nat, e: nat)
    requires d < 10 && e < 10 && Digit(d) == Digit(e)
    ensures d == e
  {
  }

  /** Where the extension starts: the last dot, or the end. */
  function ExtAt(name: string): (i: nat)
    ensures i <= |name| && (i < |name| ==> name[i] == '.') && forall j :: i < j < |name| ==> name[j] != '.'
    ensures i == |name| ==> '.' !in name
  {
    if name == "" then 0
    else
      var last := |name| - 1;
      if name[last] == '.' then last
      else
        var i := ExtAt(name[..last]);
        if i == last then |name| else i
  }

  /** The i-th name tried for a restored file, counting from 1. */
  function Suffix(i: nat): string {
    if i <= 1 then " (restored)" else " (restored " + Decimal(i) + ")"
  }

  function Candidate(p: Path, i: nat): Path {
    var at := ExtAt(p.name);
    Path(p.dir, p.name[..at] + Suffix(i) + p.name[at..])
  }

  lemma SuffixesDiffer(i: nat, j: nat)
    requires 1 <= i < j
    ensures Suffix(i) != Suffix(j)
  {
    assert Suffix(j)[10] == ' ';
    if i == 1 {
      assert Suffix(i)[10] == ')';
    } else if Suffix(i) == Suffix(j) {
      assert |Suffix(i)| == |Decimal(i)| + 12 && |Suffix(j)| == |Decimal(j)| + 12;
      assert Decimal(i) == Suffix(i)[11..|Suffix(i)| - 1];
      assert Decimal(j) == Suffix(j)[11..|Suffix(j)| - 1];
      DecimalInjective(i, j);
    }
  }

  /** The names tried are pairwise different. */
  lemma CandidatesDiffer(p: Path, i: nat, j: nat)
    requires 1 <= i < j
    ensures Candidate(p, i) != Candidate(p, j)
  {
    var at := ExtAt(p.name);
    var a, b := Candidate(p, i).name, Candidate(p, j).name;
    if a == b {
      assert Suffix(i) == a[at..|a| - (|p.name| - at)];
      assert Suffix(j) == b[at..|b| - (|p.name| - at)];
      SuffixesDiffer(i, j);
    }
  }

  /** The first candidate name that is free. */
  ghost predicate FirstFree(p: Path, taken: set<Path>, r: Path) {
    r !in taken && exists i: nat :: FreeAt(p, taken, r, i)
  }

  ghost predicate FreeAt(p: Path, taken: set<Path>, r: Path, i: nat) {
    1 <= i && r == Candidate(p, i) && forall j: nat :: 1 <= j < i ==> Candidate(p, j) in taken
  }

  ghost predicate Earlier(p: Path, i: nat, t: Path) {
    exists j: nat :: 1 <= j < i && t == Candidate(p, j)
  }

  ghost predicate AllEarlier(p: Path, i: nat, tried: set<Path>) {
    forall t :: t in tried ==> Earlier(p, i, t)
  }

  lemma NextIsNew(p: Path, i: nat, tried: set<Path>)
    requires 1 <= i && AllEarlier(p, i, tried)
    ensures Candidate(p, i) !in tried && AllEarlier(p, i + 1, tried + {Candidate(p, i)})
  {
    if Candidate(p, i) in tried {
      assert Earlier(p, i, Candidate(p, i));
      var j: nat :| 1 <= j < i && Candidate(p, i) == Candidate(p, j);
      CandidatesDiffer(p, j, i);
    }
    forall t | t in tried ensures Earlier(p, i + 1, t) {
      assert Earlier(p, i, t);
      var j: nat :| 1 <= j < i && t == Candidate(p, j);
    }
  }

  // ---------------------------------------------------------------- what the fresh names are

  function DigitValue(c: char): nat {
    if '0' <= c <= '9' then (c as int - '0' as int) else 0
  }

  /** The number a string of digits writes. */
  function NumberOf(s: string): nat {
    if s == "" then 0 else 10 * NumberOf(s[..|s| - 1]) + DigitValue(s[|s| - 1])
  }

  /** ds writes n with decimal digits and without leading zeros. */
  predicate Writes(ds: string, n: nat) {
    && ds != "" && (forall k :: 0 <= k < |ds| ==> '0' <= ds[k] <= '9') && (|ds| > 1 ==> ds[0] != '0')
    && NumberOf(ds) == n
  }

  lemma {:induction false} DecimalWrites(n: nat)
    ensures Writes(Decimal(n), n) && (n > 0 ==> Decimal(n)[0] != '0')
  {
    var s := Decimal(n);
    if n >= 10 {
      DecimalWrites(n / 10);
      assert s[..|s| - 1] == Decimal(n / 10);
    } else {
      assert s[..0] == "";
    }
  }

  lemma {:induction false} PositiveNumber(ds: string)
    requires ds != "" && ds[0] != '0' && forall k :: 0 <= k < |ds| ==> '0' <= ds[k] <= '9'
    ensures NumberOf(ds) > 0
  {
    if |ds| > 1 { PositiveNumber(ds[..|ds| - 1]); }
  }

  /** There is one way to write a number. */
  lemma {:induction false} WrittenOnce(ds: string, n: nat)
    requires Writes(ds, n)
    ensures ds == Decimal(n)
  {
    var init, last := ds[..|ds| - 1], ds[|ds| - 1];
    assert n == 10 * NumberOf(init) + DigitValue(last);
    assert n / 10 == NumberOf(init) && n % 10 == DigitValue(last);
    assert Digit(DigitValue(last)) == last;
    assert ds == init + [last];
    if |ds| > 1 {
      PositiveNumber(init);
      WrittenOnce(init, NumberOf(init));
    }
  }

  /** r is p with " (restored)" in front of the extension when n is 1, and " (restored n)" otherwise. */
  ghost predicate NumberedName(p: Path, n: nat, r: Path) {
    var base, ext := p.name[..ExtAt(p.name)], p.name[ExtAt(p.name)..];
    && r.dir == p.dir
    && if n == 1 then r.name == base + " (restored)" + ext
       else exists ds :: Writes(ds, n) && r.name == base + " (restored " + ds + ")" + ext
  }

  lemma CandidateIsNumbered(p: Path, n: nat, r: Path)
    requires n >= 1
    ensures NumberedName(p, n, r) <==> r == Candidate(p, n)
  {
    var base, ext := p.name[..ExtAt(p.name)], p.name[ExtAt(p.name)..];
    DecimalWrites(n);
    assert n > 1 ==> base + " (restored " + Decimal(n) + ")" + ext == base + Suffix(n) + ext;
    forall ds | Writes(ds, n) ensures ds == Decimal(n) {
      WrittenOnce(ds, n);
    }
  }

  /** n is the least number whose name is free, and r is that name. */
  ghost predicate LeastFree(p: Path, taken: set<Path>, n: nat, r: Path) {
    && n >= 1 && NumberedName(p, n, r) && r !in taken
    && forall j: nat, t: Path :: 1 <= j < n && NumberedName(p, j, t) ==> t in taken
  }

  /** The first free candidate, letter by letter. */
  lemma FreshNameIs(p: Path, taken: set<Path>, r: Path) returns (n: nat)
    requires FirstFree(p, taken, r)
    ensures LeastFree(p, taken, n, r)
  {
    n :| FreeAt(p, taken, r, n);
    CandidateIsNumbered(p, n, r);
    forall j: nat, t: Path | 1 <= j < n && NumberedName(p, j, t) ensures t in taken {
      CandidateIsNumbered(p, j, t);
    }
  }

  /** The loop ends because its candidates are pairwise different and only finitely many paths are taken. */
  method DedupePath(p: Path, taken: set<Path>) returns (r: Path)
    ensures FirstFree(p, taken, r)
    ensures exists n: nat :: LeastFree(p, taken, n, r)
  {
    var i := 1;
    r := Candidate(p, 1);
    ghost var tried: set<Path> := {};
    while r in taken
      invariant 1 <= i && r == Candidate(p, i) && tried <= taken
      invariant forall j: nat :: 1 <= j < i ==> Candidate(p, j) in taken
      invariant AllEarlier(p, i, tried)
      decreases taken - tried
    {
      NextIsNew(p, i, tried);
      tried := tried + {r};
      i := i + 1;
      r := Candidate(p, i);
    }
    assert FreeAt(p, taken, r, i);
    var n := FreshNameIs(p, taken, r);
  }

  /** A fresh name keeps the directory and the extension, and is never the name it stands in for. */
  lemma FreshNameShape(p: Path, taken: set<Path>, r: Path)
    requires FirstFree(p, taken, r)
    ensures r.dir == p.dir && r != p
    ensures |r.name| > |p.name| && r.name[|r.name| - (|p.name| - ExtAt(p.name))..] == p.name[ExtAt(p.name)..]
  {
    var i: nat :| FreeAt(p, taken, r, i);
    assert |Suffix(i)| > 0;
  }

  // ---------------------------------------------------------------- the world

  /** How far an operation on an asset has come. */
  datatype Phase =
    | Updated(src: Path, dst: Path)      // trash: the row points at dst, the file is still at src
    | Chosen(dst: Path)                  // restore: the target is picked, nothing has moved
    | Landed(dst: Path)                  // restore: the file is at dst, the row still points into the trash

  /** `departed`: paths a watched file has left, whose removal event has not been handled yet. */
  datatype World = World(rows: map<Id, Row>, files: map<Path, Bytes>, departed: set<Path>, ops: map<Id, Phase>)

  const TRASH := ".trash"

  /** `root` is the volume of the file, or the gallery directory. */
  function TrashPath(root: seq<string>, id: Id, p: Path): Path {
    Path(root + [TRASH, id], p.name)
  }

  /** Hidden directories are never indexed or restored into. */
  predicate InTrash(p: Path) {
    TRASH in p.dir
  }

  /** In the trash directory of one asset, under a root that is not itself in a trash. */
  predicate InTrashOf(p: Path, id: Id) {
    var n := |p.dir|;
    n >= 2 && p.dir[n - 2] == TRASH && p.dir[n - 1] == id && TRASH !in p.dir[..n - 2]
  }

  predicate Under(p: Path, dir: seq<string>) {
    dir <= p.dir
  }

  /** Rename or copy-and-remove: the file is at dst afterwards, replacing what was there; a missing source is no error. */
  function Moved(files: map<Path, Bytes>, src: Path, dst: Path): map<Path, Bytes> {
    if src in files then (files - {src})[dst := files[src]] else files
  }

  lemma MovedElsewhere(files: map<Path, Bytes>, src: Path, dst: Path, p: Path)
    requires p != src && p != dst && p in files
    ensures p in Moved(files, src, dst) && Moved(files, src, dst)[p] == files[p]
  {
  }

  /** Moving there and back restores every file, when the way there and back was free. */
  lemma ThereAndBack(files: map<Path, Bytes>, src: Path, dst: Path)
    requires src != dst && dst !in files
    ensures Moved(Moved(files, src, dst), dst, src) == files
  {
  }

  // ---------------------------------------------------------------- the steps

  /** How a move can end; a cross-device move copies, then removes the source. */
  datatype MoveOutcome =
    | Renamed
    | CopiedAcross
    | RenameFails
    | CopyFails(leftover: Option<Bytes>)   // the cleanup of a partial copy can fail too
    | RemoveFails

  predicate Succeeds(o: MoveOutcome) {
    o.Renamed? || o.CopiedAcross?
  }

  /** What a failed move leaves at dst, before any cleanup by the caller. */
  function Residue(files: map<Path, Bytes>, src: Path, dst: Path, o: MoveOutcome): map<Path, Bytes> {
    match o
    case CopyFails(Some(b)) => files[dst := b]
    case CopyFails(None) => files - {dst}
    case RemoveFails => if src in files then files[dst := files[src]] else files
    case _ => files
  }

  predicate PathFree(rows: map<Id, Row>, id: Id, p: Path) {
    forall x :: x in rows && x != id ==> rows[x].filePath != p
  }

  function TrashedRow(src: Path, dst: Path): Row {
    Row(dst, Some(src), true)
  }

  function BeginTrash(w: World, id: Id, root: seq<string>): World
    requires id in w.rows
  {
    var src := w.rows[id].filePath;
    var dst := TrashPath(root, id, src);
    w.(rows := w.rows[id := TrashedRow(src, dst)], ops := w.ops[id := Updated(src, dst)])
  }

  /** The move after the row has been flipped; a failure removes the trash directory and, if the rollback works, the flip. */
  function FinishTrash(w: World, id: Id, o: MoveOutcome, rollbackWorks: bool): World
    requires id in w.ops && w.ops[id].Updated?
  {
    var src, dst := w.ops[id].src, w.ops[id].dst;
    if Succeeds(o) then
      w.(files := Moved(w.files, src, dst), departed := w.departed + {src}, ops := w.ops - {id})
    else
      var residue := Residue(w.files, src, dst, o);
      w.(files := map p | p in residue && !Under(p, dst.dir) :: residue[p],
         rows := if rollbackWorks && id in w.rows then w.rows[id := Row(src, None, false)] else w.rows,
         ops := w.ops - {id})
  }

  /** Where a restore puts the file: its original path, or a fresh name beside it. */
  ghost predicate RestoreTarget(original: Path, files: map<Path, Bytes>, dst: Path) {
    if original in files then FirstFree(original, files.Keys, dst) else dst == original
  }

  function BeginRestore(w: World, id: Id, dst: Path): World {
    w.(ops := w.ops[id := Chosen(dst)])
  }

  function MoveRestored(w: World, id: Id, o: MoveOutcome): World
    requires id in w.ops && w.ops[id].Chosen? && id in w.rows
  {
    var src, dst := w.rows[id].filePath, w.ops[id].dst;
    if Succeeds(o) then w.(files := Moved(w.files, src, dst), ops := w.ops[id := Landed(dst)])
    else w.(files := Residue(w.files, src, dst, o), ops := w.ops - {id})
  }

  function FinishRestore(w: World, id: Id, updateWorks: bool): World
    requires id in w.ops && w.ops[id].Landed? && id in w.rows
  {
    w.(rows := if updateWorks then w.rows[id := Row(w.ops[id].dst, None, false)] else w.rows, ops := w.ops - {id})
  }

  function LiveAt(rows: map<Id, Row>, p: Path): set<Id> {
    set id | id in rows && rows[id].filePath == p && !rows[id].deleted
  }

  /** RemoveByPath, called for a path that a watched file has left. */
  function HandleDeparture(w: World, p: Path): World {
    w.(rows := w.rows - LiveAt(w.rows, p), departed := w.departed - {p})
  }
}
