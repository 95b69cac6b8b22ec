/** Any interleaving of trash and restore operations with the watcher: exactly when no row and no byte is lost. */
module TrashRuns {
  import opened Options
  import opened Trash

  datatype Event =
    | StartTrash(id: Id, root: seq<string>)
    | RefuseTrash(id: Id, root: seq<string>)
    | EndTrash(id: Id, outcome: MoveOutcome, rollbackWorks: bool)
    | StartRestore(id: Id, dst: Path)
    | MoveBack(id: Id, outcome: MoveOutcome)
    | EndRestore(id: Id, updateWorks: bool)
    | Handle(p: Path)
    | Arrive(p: Path, bytes: Bytes)

  /** One operation at a time on an asset; everything else may interleave. Two at once can lose a file: TwoRestoresLoseTheFile. */
  ghost predicate Step(w: World, e: Event, v: World) {
    match e
    case StartTrash(id, root) =>
      id in w.rows && !w.rows[id].deleted && id !in w.ops && TRASH !in root
      && PathFree(w.rows, id, TrashPath(root, id, w.rows[id].filePath)) && v == BeginTrash(w, id, root)
    case RefuseTrash(id, root) =>
      // the UPDATE fails; the directory made for the move is removed again
      id in w.rows && !w.rows[id].deleted && id !in w.ops && TRASH !in root
      && v == w.(files := map p | p in w.files && !Under(p, root + [TRASH, id]) :: w.files[p])
    case EndTrash(id, o, works) => id in w.ops && w.ops[id].Updated? && v == FinishTrash(w, id, o, works)
    case StartRestore(id, dst) =>
      id in w.rows && w.rows[id].deleted && id !in w.ops && w.rows[id].originalPath.Some?
      && RestoreTarget(w.rows[id].originalPath.value, w.files, dst) && v == BeginRestore(w, id, dst)
    case MoveBack(id, o) => id in w.ops && w.ops[id].Chosen? && id in w.rows && v == MoveRestored(w, id, o)
    case EndRestore(id, works) => id in w.ops && w.ops[id].Landed? && id in w.rows && v == FinishRestore(w, id, works)
    case Handle(p) => p in w.departed && v == HandleDeparture(w, p)
    case Arrive(p, b) => p !in w.files && !InTrash(p) && v == w.(files := w.files[p := b])
  }

  /** What the move of a restore must not do to other assets: land on a path whose last departure is still to be handled or
      that is another asset's place, or leave anything but the same bytes there when it fails. */
  ghost predicate TargetSafe(w: World, id: Id, o: MoveOutcome)
    requires id in w.ops && w.ops[id].Chosen? && id in w.rows
  {
    var src, dst := w.rows[id].filePath, w.ops[id].dst;
    if Succeeds(o) then dst !in w.departed && forall x :: x in w.rows && x != id ==> Home(w, x) != dst
    else forall x :: x in w.rows && x != id && Home(w, x) == dst ==> Spared(w.files, Residue(w.files, src, dst, o), dst)
  }

  predicate Spared(before: map<Path, Bytes>, after: map<Path, Bytes>, p: Path) {
    p in before && p in after && after[p] == before[p]
  }

  /** The guard of each step that can go wrong. */
  ghost predicate Safe(w: World, e: Event) {
    match e
    case EndTrash(id, o, works) => Succeeds(o) || works
    case MoveBack(id, o) => id in w.ops && w.ops[id].Chosen? && id in w.rows ==> TargetSafe(w, id, o)
    case EndRestore(id, works) => works
    case _ => true
  }

  // ---------------------------------------------------------------- the invariant

  /** Where an asset's bytes are at this moment. */
  function Home(w: World, id: Id): Path
    requires id in w.rows
  {
    if id in w.ops && w.ops[id].Updated? then w.ops[id].src
    else if id in w.ops && w.ops[id].Landed? then w.ops[id].dst
    else w.rows[id].filePath
  }

  /** The row fits the phase of the asset. */
  predicate RowOk(w: World, id: Id)
    requires id in w.rows
  {
    var row := w.rows[id];
    if id in w.ops && w.ops[id].Updated? then
      row == TrashedRow(w.ops[id].src, w.ops[id].dst) && InTrashOf(w.ops[id].dst, id) && !InTrash(w.ops[id].src)
    else if row.deleted then
      InTrashOf(row.filePath, id) && row.originalPath.Some? && !InTrash(row.originalPath.value)
      && (id in w.ops ==> !InTrash(w.ops[id].dst))
    else id !in w.ops && row.originalPath.None? && !InTrash(row.filePath)
  }

  /** The bytes are where they should be, and a restored file has left nothing behind in the trash. */
  ghost predicate PlaceOk(w: World, bytes: map<Id, Bytes>, id: Id)
    requires id in w.rows && id in bytes
  {
    && RowOk(w, id) && Home(w, id) in w.files && w.files[Home(w, id)] == bytes[id]
    && (id in w.ops && w.ops[id].Landed? ==> w.rows[id].filePath !in w.files)
  }

  ghost predicate HomeOk(w: World, bytes: map<Id, Bytes>, id: Id)
    requires id in w.rows && id in bytes
  {
    PlaceOk(w, bytes, id) && Home(w, id) !in w.departed
  }

  /** Every asset has its row and its bytes, no two share a place, and no departure is pending for a place in use. */
  ghost predicate Sound(w: World, bytes: map<Id, Bytes>) {
    && w.rows.Keys == bytes.Keys && w.ops.Keys <= w.rows.Keys
    && (forall id :: id in w.rows ==> HomeOk(w, bytes, id))
    && (forall id, other :: id in w.rows && other in w.rows && id != other ==> Home(w, id) != Home(w, other))
    && (forall p :: p in w.departed ==> !InTrash(p))
  }

  lemma TrashPathIn(root: seq<string>, id: Id, p: Path)
    requires TRASH !in root
    ensures InTrashOf(TrashPath(root, id, p), id)
  {
    assert (root + [TRASH, id])[..|root|] == root;
  }

  lemma InTrashOfIsInTrash(p: Path, id: Id)
    requires InTrashOf(p, id)
    ensures InTrash(p)
  {
  }

  lemma TrashOfOne(p: Path, id: Id, other: Id)
    requires InTrashOf(p, id) && InTrashOf(p, other)
    ensures id == other
  {
  }

  /** Nothing outside an asset's own trash directory is under it. */
  lemma UnderOwnTrash(p: Path, root: seq<string>, id: Id, other: Id)
    requires TRASH !in root && Under(p, root + [TRASH, id])
    requires !InTrash(p) || InTrashOf(p, other)
    ensures InTrash(p) && id == other
  {
    var n := |root|;
    assert p.dir[n] == TRASH && p.dir[n + 1] == id;
    if InTrashOf(p, other) {
      var m := |p.dir| - 2;
      assert forall i :: 0 <= i < m ==> p.dir[i] == p.dir[..m][i];
      assert n == m;
    }
  }

  /** A home is outside every trash or in the trash of its own asset. */
  lemma HomePlace(w: World, bytes: map<Id, Bytes>, id: Id)
    requires Sound(w, bytes) && id in w.rows
    ensures !InTrash(Home(w, id)) || InTrashOf(Home(w, id), id)
  {
    assert HomeOk(w, bytes, id);
  }

  // ---------------------------------------------------------------- each step keeps it

  /** An asset the step does not concern. */
  ghost predicate Kept(w: World, v: World, bytes: map<Id, Bytes>, x: Id) {
    x in w.rows && x in v.rows && x in bytes && Home(v, x) == Home(w, x) && HomeOk(v, bytes, x)
  }

  /** No file has appeared in the trash directory of x. */
  ghost predicate NothingNewFor(before: map<Path, Bytes>, after: map<Path, Bytes>, x: Id) {
    forall p :: p in after && p !in before ==> !InTrashOf(p, x)
  }

  lemma Untouched(w: World, v: World, bytes: map<Id, Bytes>, x: Id)
    requires x in w.rows && x in bytes && HomeOk(w, bytes, x)
    requires x in v.rows && v.rows[x] == w.rows[x] && (x in v.ops <==> x in w.ops) && (x in w.ops ==> v.ops[x] == w.ops[x])
    requires Home(w, x) in v.files && v.files[Home(w, x)] == w.files[Home(w, x)] && Home(w, x) !in v.departed
    requires NothingNewFor(w.files, v.files, x)
    ensures Kept(w, v, bytes, x)
  {
  }

  /** The new world is sound when only one asset moved, and it moved to a place nobody has. */
  lemma Reassemble(w: World, v: World, bytes: map<Id, Bytes>, id: Id)
    requires Sound(w, bytes) && v.rows.Keys == w.rows.Keys && v.ops.Keys <= v.rows.Keys && id in w.rows
    requires forall p :: p in v.departed ==> !InTrash(p)
    requires forall x :: x in w.rows && x != id ==> Kept(w, v, bytes, x)
    requires HomeOk(v, bytes, id) && forall x :: x in w.rows && x != id ==> Home(w, x) != Home(v, id)
    ensures Sound(v, bytes)
  {
    forall x, y | x in v.rows && y in v.rows && x != y ensures Home(v, x) != Home(v, y) {
      if x != id { assert Kept(w, v, bytes, x); }
      if y != id { assert Kept(w, v, bytes, y); }
    }
    forall x | x in v.rows ensures HomeOk(v, bytes, x) {
      if x != id { assert Kept(w, v, bytes, x); }
    }
  }

  lemma HomesDiffer(w: World, bytes: map<Id, Bytes>, id: Id, x: Id)
    requires Sound(w, bytes) && id in w.rows && x in w.rows && x != id
    ensures HomeOk(w, bytes, x) && Home(w, x) != Home(w, id)
  {
  }

  lemma StartTrashKeeps(w: World, bytes: map<Id, Bytes>, id: Id, root: seq<string>)
    requires Sound(w, bytes) && id in w.rows && !w.rows[id].deleted && id !in w.ops && TRASH !in root
    ensures Sound(BeginTrash(w, id, root), bytes)
  {
    var v := BeginTrash(w, id, root);
    assert HomeOk(w, bytes, id);
    TrashPathIn(root, id, w.rows[id].filePath);
    forall x | x in w.rows && x != id ensures Kept(w, v, bytes, x) && Home(w, x) != Home(v, id) {
      HomesDiffer(w, bytes, id, x);
      Untouched(w, v, bytes, x);
    }
    Reassemble(w, v, bytes, id);
  }

  /** Removing an asset's trash directory while the asset is elsewhere takes nobody's bytes. */
  lemma SweptHome(w: World, bytes: map<Id, Bytes>, id: Id, root: seq<string>, x: Id)
    requires Sound(w, bytes) && id in w.rows && x in w.rows && TRASH !in root && !InTrash(Home(w, id))
    ensures !Under(Home(w, x), root + [TRASH, id])
  {
    HomePlace(w, bytes, x);
    if Under(Home(w, x), root + [TRASH, id]) { UnderOwnTrash(Home(w, x), root, id, x); }
  }

  lemma RefuseKeeps(w: World, bytes: map<Id, Bytes>, id: Id, root: seq<string>, v: World)
    requires Sound(w, bytes) && id in w.rows && !w.rows[id].deleted && id !in w.ops && TRASH !in root
    requires v == w.(files := map p | p in w.files && !Under(p, root + [TRASH, id]) :: w.files[p])
    ensures Sound(v, bytes)
  {
    assert HomeOk(w, bytes, id);
    SweptHome(w, bytes, id, root, id);
    forall x | x in w.rows && x != id ensures Kept(w, v, bytes, x) && Home(w, x) != Home(v, id) {
      HomesDiffer(w, bytes, id, x);
      SweptHome(w, bytes, id, root, x);
      Untouched(w, v, bytes, x);
    }
    Reassemble(w, v, bytes, id);
  }

  lemma RootOf(p: Path, id: Id) returns (root: seq<string>)
    requires InTrashOf(p, id)
    ensures TRASH !in root && p.dir == root + [TRASH, id]
  {
    root := p.dir[..|p.dir| - 2];
  }

  /** A place in an asset's trash directory is nobody else's. */
  lemma OwnTrashIsFree(w: World, bytes: map<Id, Bytes>, id: Id, dst: Path, x: Id)
    requires Sound(w, bytes) && InTrashOf(dst, id) && x in w.rows && x != id
    ensures Home(w, x) != dst
  {
    HomePlace(w, bytes, x);
    InTrashOfIsInTrash(dst, id);
    if Home(w, x) == dst { TrashOfOne(dst, id, x); }
  }

  lemma MovedAddsTarget(files: map<Path, Bytes>, src: Path, dst: Path, id: Id, x: Id)
    requires InTrashOf(dst, id) && x != id
    ensures NothingNewFor(files, Moved(files, src, dst), x)
  {
    if InTrashOf(dst, x) { TrashOfOne(dst, id, x); }
  }

  lemma TrashDoneOthers(w: World, bytes: map<Id, Bytes>, id: Id, o: MoveOutcome, works: bool, x: Id)
    requires id in w.ops && w.ops[id].Updated? && Succeeds(o) && x in w.rows && x in bytes && x != id
    requires HomeOk(w, bytes, x) && Home(w, x) != w.ops[id].src && Home(w, x) != w.ops[id].dst && InTrashOf(w.ops[id].dst, id)
    ensures Kept(w, FinishTrash(w, id, o, works), bytes, x)
  {
    MovedElsewhere(w.files, w.ops[id].src, w.ops[id].dst, Home(w, x));
    MovedAddsTarget(w.files, w.ops[id].src, w.ops[id].dst, id, x);
    Untouched(w, FinishTrash(w, id, o, works), bytes, x);
  }

  lemma TrashDoneOwn(w: World, bytes: map<Id, Bytes>, id: Id, o: MoveOutcome, works: bool)
    requires Sound(w, bytes) && id in w.ops && w.ops[id].Updated? && Succeeds(o)
    ensures var v := FinishTrash(w, id, o, works);
            HomeOk(v, bytes, id) && Home(v, id) == w.ops[id].dst && forall p :: p in v.departed ==> !InTrash(p)
  {
    assert HomeOk(w, bytes, id) && RowOk(w, id);
    InTrashOfIsInTrash(w.ops[id].dst, id);
  }

  lemma TrashDoneKeeps(w: World, bytes: map<Id, Bytes>, id: Id, o: MoveOutcome, works: bool)
    requires Sound(w, bytes) && id in w.ops && w.ops[id].Updated? && Succeeds(o)
    ensures Sound(FinishTrash(w, id, o, works), bytes)
  {
    TrashDoneOwn(w, bytes, id, o, works);
    assert HomeOk(w, bytes, id) && RowOk(w, id);
    forall x | x in w.rows && x != id ensures Kept(w, FinishTrash(w, id, o, works), bytes, x) && Home(w, x) != w.ops[id].dst {
      HomesDiffer(w, bytes, id, x);
      OwnTrashIsFree(w, bytes, id, w.ops[id].dst, x);
      TrashDoneOthers(w, bytes, id, o, works, x);
    }
    Reassemble(w, FinishTrash(w, id, o, works), bytes, id);
  }

  /** A failed move leaves every path but its target as it was. */
  lemma ResidueElsewhere(files: map<Path, Bytes>, src: Path, dst: Path, o: MoveOutcome, p: Path)
    requires p != dst && p in files && !Succeeds(o)
    ensures p in Residue(files, src, dst, o) && Residue(files, src, dst, o)[p] == files[p]
  {
  }

  /** Sweeping the trash directory of a failed move takes only its residue. */
  lemma UndoneFiles(w: World, bytes: map<Id, Bytes>, id: Id, o: MoveOutcome, works: bool, p: Path)
    requires Sound(w, bytes) && id in w.ops && w.ops[id].Updated? && !Succeeds(o)
    requires p in w.files && p != w.ops[id].dst && !Under(p, w.ops[id].dst.dir)
    ensures var v := FinishTrash(w, id, o, works); p in v.files && v.files[p] == w.files[p]
  {
    ResidueElsewhere(w.files, w.ops[id].src, w.ops[id].dst, o, p);
  }

  lemma UndoneHome(w: World, bytes: map<Id, Bytes>, id: Id, o: MoveOutcome, works: bool, x: Id)
    requires Sound(w, bytes) && id in w.ops && w.ops[id].Updated? && !Succeeds(o) && x in w.rows
    ensures var v := FinishTrash(w, id, o, works); Home(w, x) in v.files && v.files[Home(w, x)] == w.files[Home(w, x)]
  {
    var dst := w.ops[id].dst;
    assert HomeOk(w, bytes, id) && RowOk(w, id) && HomeOk(w, bytes, x);
    InTrashOfIsInTrash(dst, id);
    if x != id { OwnTrashIsFree(w, bytes, id, dst, x); }
    var root := RootOf(dst, id);
    SweptHome(w, bytes, id, root, x);
    UndoneFiles(w, bytes, id, o, works, Home(w, x));
  }

  lemma TrashUndoneOwn(w: World, bytes: map<Id, Bytes>, id: Id, o: MoveOutcome)
    requires id in w.ops && w.ops[id].Updated? && !Succeeds(o) && id in w.rows && id in bytes && HomeOk(w, bytes, id)
    requires var v := FinishTrash(w, id, o, true); Home(w, id) in v.files && v.files[Home(w, id)] == w.files[Home(w, id)]
    ensures HomeOk(FinishTrash(w, id, o, true), bytes, id) && Home(FinishTrash(w, id, o, true), id) == Home(w, id)
  {
  }

  lemma TrashUndoneKeeps(w: World, bytes: map<Id, Bytes>, id: Id, o: MoveOutcome)
    requires Sound(w, bytes) && id in w.ops && w.ops[id].Updated? && !Succeeds(o)
    ensures Sound(FinishTrash(w, id, o, true), bytes)
  {
    var v := FinishTrash(w, id, o, true);
    assert HomeOk(w, bytes, id);
    UndoneHome(w, bytes, id, o, true, id);
    TrashUndoneOwn(w, bytes, id, o);
    forall x | x in w.rows && x != id ensures Kept(w, v, bytes, x) && Home(w, x) != Home(v, id) {
      HomesDiffer(w, bytes, id, x);
      UndoneHome(w, bytes, id, o, true, x);
      Untouched(w, v, bytes, x);
    }
    Reassemble(w, v, bytes, id);
  }

  lemma StartRestoreKeeps(w: World, bytes: map<Id, Bytes>, id: Id, dst: Path)
    requires Sound(w, bytes) && id in w.rows && w.rows[id].deleted && id !in w.ops && w.rows[id].originalPath.Some?
    requires RestoreTarget(w.rows[id].originalPath.value, w.files, dst)
    ensures Sound(BeginRestore(w, id, dst), bytes)
  {
    var v := BeginRestore(w, id, dst);
    assert HomeOk(w, bytes, id);
    var o := w.rows[id].originalPath.value;
    if o in w.files { FreshNameShape(o, w.files.Keys, dst); }
    forall x | x in w.rows && x != id ensures Kept(w, v, bytes, x) && Home(w, x) != Home(v, id) {
      HomesDiffer(w, bytes, id, x);
      Untouched(w, v, bytes, x);
    }
    Reassemble(w, v, bytes, id);
  }

  /** A place outside every trash is new for nobody's trash directory. */
  lemma TargetAddsNothing(files: map<Path, Bytes>, src: Path, dst: Path, o: MoveOutcome, x: Id)
    requires !InTrash(dst)
    ensures NothingNewFor(files, if Succeeds(o) then Moved(files, src, dst) else Residue(files, src, dst, o), x)
  {
    if InTrashOf(dst, x) { InTrashOfIsInTrash(dst, x); }
  }

  lemma MoveBackOthers(w: World, bytes: map<Id, Bytes>, id: Id, o: MoveOutcome, x: Id)
    requires id in w.ops && w.ops[id].Chosen? && id in w.rows && x in w.rows && x in bytes && x != id
    requires HomeOk(w, bytes, x) && Home(w, x) != w.rows[id].filePath && TargetSafe(w, id, o) && !InTrash(w.ops[id].dst)
    ensures Kept(w, MoveRestored(w, id, o), bytes, x)
  {
    var src, dst := w.rows[id].filePath, w.ops[id].dst;
    TargetAddsNothing(w.files, src, dst, o, x);
    if Succeeds(o) {
      MovedElsewhere(w.files, src, dst, Home(w, x));
    } else if Home(w, x) != dst {
      ResidueElsewhere(w.files, src, dst, o, Home(w, x));
    }
    Untouched(w, MoveRestored(w, id, o), bytes, x);
  }

  lemma MoveBackOwn(w: World, bytes: map<Id, Bytes>, id: Id, o: MoveOutcome)
    requires id in w.ops && w.ops[id].Chosen? && id in w.rows && id in bytes && HomeOk(w, bytes, id) && TargetSafe(w, id, o)
    ensures HomeOk(MoveRestored(w, id, o), bytes, id)
    ensures Home(MoveRestored(w, id, o), id) == if Succeeds(o) then w.ops[id].dst else w.rows[id].filePath
  {
    var src, dst := w.rows[id].filePath, w.ops[id].dst;
    InTrashOfIsInTrash(src, id);
    if !Succeeds(o) { ResidueElsewhere(w.files, src, dst, o, src); }
  }

  lemma MoveBackKeeps(w: World, bytes: map<Id, Bytes>, id: Id, o: MoveOutcome)
    requires Sound(w, bytes) && id in w.ops && w.ops[id].Chosen? && id in w.rows && TargetSafe(w, id, o)
    ensures Sound(MoveRestored(w, id, o), bytes)
  {
    var v := MoveRestored(w, id, o);
    assert HomeOk(w, bytes, id) && Home(w, id) == w.rows[id].filePath && RowOk(w, id);
    MoveBackOwn(w, bytes, id, o);
    forall x | x in w.rows && x != id ensures Kept(w, v, bytes, x) && Home(w, x) != Home(v, id) {
      HomesDiffer(w, bytes, id, x);
      MoveBackOthers(w, bytes, id, o, x);
    }
    Reassemble(w, v, bytes, id);
  }

  lemma MoveBackNeeds(w: World, bytes: map<Id, Bytes>, id: Id, o: MoveOutcome)
    requires Sound(w, bytes) && id in w.ops && w.ops[id].Chosen? && id in w.rows && Sound(MoveRestored(w, id, o), bytes)
    ensures TargetSafe(w, id, o)
  {
    var v := MoveRestored(w, id, o);
    assert HomeOk(v, bytes, id);
    forall x | x in w.rows && x != id ensures Home(v, x) == Home(w, x) && HomeOk(w, bytes, x) && HomeOk(v, bytes, x) {
    }
    if Succeeds(o) {
      forall x | x in w.rows && x != id ensures Home(w, x) != w.ops[id].dst {
        assert Home(v, x) != Home(v, id);
      }
    }
  }

  lemma EndRestoreKeeps(w: World, bytes: map<Id, Bytes>, id: Id)
    requires Sound(w, bytes) && id in w.ops && w.ops[id].Landed? && id in w.rows
    ensures Sound(FinishRestore(w, id, true), bytes)
  {
    var v := FinishRestore(w, id, true);
    assert HomeOk(w, bytes, id);
    forall x | x in w.rows && x != id ensures Kept(w, v, bytes, x) && Home(w, x) != Home(v, id) {
      HomesDiffer(w, bytes, id, x);
      Untouched(w, v, bytes, x);
    }
    Reassemble(w, v, bytes, id);
  }

  /** The rows, the operations and everybody's bytes are as they were. */
  lemma NobodyMoves(w: World, v: World, bytes: map<Id, Bytes>)
    requires Sound(w, bytes) && v.rows == w.rows && v.ops == w.ops && v.departed <= w.departed
    requires forall p :: p in w.files ==> p in v.files && v.files[p] == w.files[p]
    requires forall p :: p in v.files && p !in w.files ==> !InTrash(p)
    ensures Sound(v, bytes)
  {
    forall x | x in w.rows ensures Kept(w, v, bytes, x) {
      assert HomeOk(w, bytes, x);
      forall p | p in v.files && p !in w.files ensures !InTrashOf(p, x) {
        if InTrashOf(p, x) { InTrashOfIsInTrash(p, x); }
      }
      Untouched(w, v, bytes, x);
    }
    forall x, y | x in v.rows && y in v.rows && x != y ensures Home(v, x) != Home(v, y) {
      assert Kept(w, v, bytes, x) && Kept(w, v, bytes, y);
    }
    forall x | x in v.rows ensures HomeOk(v, bytes, x) {
      assert Kept(w, v, bytes, x);
    }
  }

  /** A removal event finds no live row at its path, so it deletes nothing. */
  lemma HandleKeeps(w: World, bytes: map<Id, Bytes>, p: Path)
    requires Sound(w, bytes) && p in w.departed
    ensures HandleDeparture(w, p).rows == w.rows && Sound(HandleDeparture(w, p), bytes)
  {
    forall id | id in w.rows ensures id !in LiveAt(w.rows, p) {
      assert HomeOk(w, bytes, id);
    }
    assert LiveAt(w.rows, p) == {};
    NobodyMoves(w, HandleDeparture(w, p), bytes);
  }

  /** A failed rollback leaves a trashed row whose file is not in the trash. */
  lemma RollbackIsNeeded(w: World, bytes: map<Id, Bytes>, id: Id, o: MoveOutcome)
    requires Sound(w, bytes) && id in w.ops && w.ops[id].Updated? && !Succeeds(o)
    ensures !Sound(FinishTrash(w, id, o, false), bytes)
  {
    var v := FinishTrash(w, id, o, false);
    assert HomeOk(w, bytes, id) && RowOk(w, id);
    assert Home(v, id) == w.ops[id].dst && Under(w.ops[id].dst, w.ops[id].dst.dir);
    assert Home(v, id) !in v.files;
    assert Sound(v, bytes) ==> HomeOk(v, bytes, id);
  }

  /** A failed last update leaves a row that points into the trash, where the file no longer is. */
  lemma UpdateIsNeeded(w: World, bytes: map<Id, Bytes>, id: Id)
    requires Sound(w, bytes) && id in w.ops && w.ops[id].Landed? && id in w.rows
    ensures !Sound(FinishRestore(w, id, false), bytes)
  {
    var v := FinishRestore(w, id, false);
    assert HomeOk(w, bytes, id);
    assert Home(v, id) == w.rows[id].filePath && Home(v, id) !in v.files;
    assert Sound(v, bytes) ==> HomeOk(v, bytes, id);
  }

  lemma EndTrashIff(w: World, bytes: map<Id, Bytes>, id: Id, o: MoveOutcome, works: bool)
    requires Sound(w, bytes) && id in w.ops && w.ops[id].Updated?
    ensures Sound(FinishTrash(w, id, o, works), bytes) <==> Succeeds(o) || works
  {
    if Succeeds(o) { TrashDoneKeeps(w, bytes, id, o, works); }
    else if works { TrashUndoneKeeps(w, bytes, id, o); }
    else { RollbackIsNeeded(w, bytes, id, o); }
  }

  lemma MoveBackIff(w: World, bytes: map<Id, Bytes>, id: Id, o: MoveOutcome)
    requires Sound(w, bytes) && id in w.ops && w.ops[id].Chosen? && id in w.rows
    ensures Sound(MoveRestored(w, id, o), bytes) <==> TargetSafe(w, id, o)
  {
    if TargetSafe(w, id, o) { MoveBackKeeps(w, bytes, id, o); }
    if Sound(MoveRestored(w, id, o), bytes) { MoveBackNeeds(w, bytes, id, o); }
  }

  /** A step keeps every row and every byte in its place exactly when it is safe. */
  lemma StepKeepsIffSafe(w: World, bytes: map<Id, Bytes>, e: Event, v: World)
    requires Sound(w, bytes) && Step(w, e, v)
    ensures Sound(v, bytes) <==> Safe(w, e)
  {
    match e {
      case StartTrash(id, root) => StartTrashKeeps(w, bytes, id, root);
      case RefuseTrash(id, root) => RefuseKeeps(w, bytes, id, root, v);
      case EndTrash(id, o, works) => EndTrashIff(w, bytes, id, o, works);
      case StartRestore(id, dst) => StartRestoreKeeps(w, bytes, id, dst);
      case MoveBack(id, o) => MoveBackIff(w, bytes, id, o);
      case EndRestore(id, works) => if works { EndRestoreKeeps(w, bytes, id); } else { UpdateIsNeeded(w, bytes, id); }
      case Handle(p) => HandleKeeps(w, bytes, p);
      case Arrive(p, b) => NobodyMoves(w, v, bytes);
    }
  }

  // ---------------------------------------------------------------- files of nobody

  lemma TrashSparesStrangers(w: World, id: Id, o: MoveOutcome, works: bool, p: Path)
    requires id in w.ops && w.ops[id].Updated? && InTrashOf(w.ops[id].dst, id)
    requires p in w.files && !InTrash(p) && p != w.ops[id].src
    ensures var v := FinishTrash(w, id, o, works); p in v.files && v.files[p] == w.files[p]
  {
    var src, dst := w.ops[id].src, w.ops[id].dst;
    InTrashOfIsInTrash(dst, id);
    var root := RootOf(dst, id);
    if Under(p, root + [TRASH, id]) { UnderOwnTrash(p, root, id, id); }
    if Succeeds(o) { MovedElsewhere(w.files, src, dst, p); } else { ResidueElsewhere(w.files, src, dst, o, p); }
  }

  /** The move of a restore lands on p, or leaves something else there. */
  predicate Overwrites(w: World, e: Event, p: Path) {
    e.MoveBack? && e.id in w.ops && w.ops[e.id].Chosen? && e.id in w.rows && w.ops[e.id].dst == p
    && !Spared(w.files, var src := w.rows[e.id].filePath; if Succeeds(e.outcome) then Moved(w.files, src, p) else Residue(w.files, src, p, e.outcome), p)
  }

  /** A file that is nobody's, outside every trash, changes exactly when a restore that had chosen its path moves onto it, or
      fails and leaves something else there. */
  lemma StrangersKeepTheirFiles(w: World, bytes: map<Id, Bytes>, e: Event, v: World, p: Path)
    requires Sound(w, bytes) && Step(w, e, v)
    requires p in w.files && !InTrash(p) && forall id :: id in w.rows ==> Home(w, id) != p
    ensures Spared(w.files, v.files, p) <==> !Overwrites(w, e, p)
  {
    match e {
      case RefuseTrash(id, root) => if Under(p, root + [TRASH, id]) { UnderOwnTrash(p, root, id, id); }
      case EndTrash(id, o, works) =>
        assert HomeOk(w, bytes, id) && RowOk(w, id) && Home(w, id) == w.ops[id].src;
        TrashSparesStrangers(w, id, o, works, p);
      case MoveBack(id, o) =>
        assert Home(w, id) == w.rows[id].filePath;
        if w.ops[id].dst != p {
          if Succeeds(o) { MovedElsewhere(w.files, w.rows[id].filePath, w.ops[id].dst, p); }
          else { ResidueElsewhere(w.files, w.rows[id].filePath, w.ops[id].dst, o, p); }
        }
      case _ =>
    }
  }

  /** A file that arrives between the choice of the target and the move is lost, although the step is safe for every asset. */
  lemma ArrivalIsOverwritten(w: World, bytes: map<Id, Bytes>, id: Id, b: Bytes)
    requires Sound(w, bytes) && id in w.rows && w.rows[id].deleted && id !in w.ops && b != bytes[id]
    requires var original := w.rows[id].originalPath; original.Some? && original.value !in w.files && original.value !in w.departed
    ensures var p := w.rows[id].originalPath.value;
            var chosen := BeginRestore(w, id, p);
            var arrived := chosen.(files := chosen.files[p := b]);
            var moved := MoveRestored(arrived, id, Renamed);
            && Step(w, StartRestore(id, p), chosen) && Step(chosen, Arrive(p, b), arrived) && Step(arrived, MoveBack(id, Renamed), moved)
            && Sound(moved, bytes) && moved.files[p] == bytes[id] != arrived.files[p]
  {
    var p := w.rows[id].originalPath.value;
    assert HomeOk(w, bytes, id) && RowOk(w, id);
    StartRestoreKeeps(w, bytes, id, p);
    var chosen := BeginRestore(w, id, p);
    var arrived := chosen.(files := chosen.files[p := b]);
    NobodyMoves(chosen, arrived, bytes);
    forall x | x in arrived.rows && x != id ensures Home(arrived, x) != p {
      assert HomeOk(chosen, bytes, x);
    }
    MoveBackIff(arrived, bytes, id, Renamed);
    assert HomeOk(arrived, bytes, id);
  }

  // ---------------------------------------------------------------- runs

  ghost predicate MovesAt(trace: seq<World>, events: seq<Event>, k: nat)
    requires k < |events| && |trace| == |events| + 1
  {
    Step(trace[k], events[k], trace[k + 1])
  }

  ghost predicate SafeAt(trace: seq<World>, events: seq<Event>, k: nat)
    requires k < |events| && |trace| == |events| + 1
  {
    Safe(trace[k], events[k])
  }

  ghost predicate Run(trace: seq<World>, events: seq<Event>) {
    |trace| == |events| + 1 && forall k: nat :: k < |events| ==> MovesAt(trace, events, k)
  }

  lemma {:induction false} SoundUpTo(trace: seq<World>, events: seq<Event>, bytes: map<Id, Bytes>, k: nat)
    requires Run(trace, events) && k < |trace| && Sound(trace[0], bytes)
    requires forall j: nat :: j < k ==> SafeAt(trace, events, j)
    ensures Sound(trace[k], bytes)
  {
    if k > 0 {
      SoundUpTo(trace, events, bytes, k - 1);
      assert MovesAt(trace, events, k - 1) && SafeAt(trace, events, k - 1);
      StepKeepsIffSafe(trace[k - 1], bytes, events[k - 1], trace[k]);
    }
  }

  /** Over every run, with any move, rollback or update failing and any file arriving at any moment: every asset keeps its row
      and its bytes throughout, at a place of its own with no removal event pending for it, exactly when each step is safe. */
  lemma NothingIsLost(trace: seq<World>, events: seq<Event>, bytes: map<Id, Bytes>)
    requires Run(trace, events) && Sound(trace[0], bytes)
    ensures (forall k: nat :: k < |trace| ==> Sound(trace[k], bytes)) <==> (forall i: nat :: i < |events| ==> SafeAt(trace, events, i))
  {
    if forall i: nat :: i < |events| ==> SafeAt(trace, events, i) {
      forall k: nat | k < |trace| ensures Sound(trace[k], bytes) {
        SoundUpTo(trace, events, bytes, k);
      }
    }
    if forall k: nat :: k < |trace| ==> Sound(trace[k], bytes) {
      forall i: nat | i < |events| ensures SafeAt(trace, events, i) {
        assert MovesAt(trace, events, i);
        assert Sound(trace[i], bytes) && Sound(trace[i + 1], bytes);
        StepKeepsIffSafe(trace[i], bytes, events[i], trace[i + 1]);
      }
    }
  }

  // ---------------------------------------------------------------- removal events

  /** A live asset that no operation is under way on has its file at p. */
  predicate Resident(w: World, id: Id, p: Path) {
    id in w.rows && id !in w.ops && !w.rows[id].deleted && w.rows[id].filePath == p
  }

  /** In worlds where everything is in its place but departures may be pending for places in use, a removal event deletes a
      row exactly when an asset is resident at its path, and it deletes that row with the file still there. */
  lemma RemovalDeletesResidents(w: World, bytes: map<Id, Bytes>, p: Path)
    requires w.rows.Keys == bytes.Keys && forall id :: id in w.rows ==> PlaceOk(w, bytes, id)
    ensures HandleDeparture(w, p).rows == w.rows <==> forall id :: !Resident(w, id, p)
    ensures forall id :: id in w.rows ==> (id !in HandleDeparture(w, p).rows <==> Resident(w, id, p))
    ensures forall id :: Resident(w, id, p) ==> p in w.files && w.files[p] == bytes[id]
  {
    forall id | id in w.rows ensures id in LiveAt(w.rows, p) <==> Resident(w, id, p) {
      assert PlaceOk(w, bytes, id);
    }
    forall id | Resident(w, id, p) ensures p in w.files && w.files[p] == bytes[id] {
      assert PlaceOk(w, bytes, id);
    }
    if forall id :: !Resident(w, id, p) {
      assert LiveAt(w.rows, p) == {};
    }
  }

  // ---------------------------------------------------------------- round trips

  /** What a failed trash leaves: the row as it was if the rollback works and flipped otherwise, and every file but those in the
      trash directory of the asset, which is removed. So nothing has changed exactly when the rollback works and that
      directory held no file before. */
  lemma FailedTrashChangesNothing(w: World, bytes: map<Id, Bytes>, id: Id, root: seq<string>, o: MoveOutcome, works: bool)
    requires Sound(w, bytes) && id in w.rows && !w.rows[id].deleted && id !in w.ops && TRASH !in root && !Succeeds(o)
    ensures var v, src := FinishTrash(BeginTrash(w, id, root), id, o, works), w.rows[id].filePath;
            && v.rows == (if works then w.rows else w.rows[id := TrashedRow(src, TrashPath(root, id, src))])
            && v.files == (map p | p in w.files && !Under(p, root + [TRASH, id]) :: w.files[p])
            && v.ops == w.ops && v.departed == w.departed
    ensures FinishTrash(BeginTrash(w, id, root), id, o, works) == w <==>
            works && forall p :: p in w.files ==> !Under(p, root + [TRASH, id])
  {
    assert HomeOk(w, bytes, id);
    UndoneResult(w, id, root, o, works);
    var kept := map p | p in w.files && !Under(p, root + [TRASH, id]) :: w.files[p];
    if forall p :: p in w.files ==> !Under(p, root + [TRASH, id]) { assert kept == w.files; }
  }

  lemma UndoneResult(w: World, id: Id, root: seq<string>, o: MoveOutcome, works: bool)
    requires id in w.rows && id !in w.ops && !Succeeds(o) && w.rows[id] == Row(w.rows[id].filePath, None, false)
    ensures var v, src := FinishTrash(BeginTrash(w, id, root), id, o, works), w.rows[id].filePath;
            && v.rows == (if works then w.rows else w.rows[id := TrashedRow(src, TrashPath(root, id, src))])
            && v.files == (map p | p in w.files && !Under(p, root + [TRASH, id]) :: w.files[p])
            && v.ops == w.ops && v.departed == w.departed
  {
    var src := w.rows[id].filePath;
    var dst := TrashPath(root, id, src);
    var residue := Residue(w.files, src, dst, o);
    assert dst.dir == root + [TRASH, id];
    assert (map p | p in residue && !Under(p, dst.dir) :: residue[p]) == (map p | p in w.files && !Under(p, dst.dir) :: w.files[p]);
    assert w.rows[id := TrashedRow(src, dst)][id := Row(src, None, false)] == w.rows;
    assert w.ops[id := Updated(src, dst)] - {id} == w.ops;
  }

  /** What a failed restore leaves: the row and the asset's bytes stay in the trash and every other path is as it was; at the
      target there is what was there before (a failed rename), nothing (a failed copy cleaned up), the partial copy (one not
      cleaned up), or a second copy of the asset (a failed removal of the source). */
  lemma FailedRestoreLeaves(w: World, bytes: map<Id, Bytes>, id: Id, o: MoveOutcome)
    requires Sound(w, bytes) && id in w.ops && w.ops[id].Chosen? && id in w.rows && !Succeeds(o)
    ensures var v, src, dst := MoveRestored(w, id, o), w.rows[id].filePath, w.ops[id].dst;
            && v.rows == w.rows && v.departed == w.departed && v.ops == w.ops - {id}
            && src in v.files && v.files[src] == bytes[id]
            && (forall p :: p != dst ==> (p in v.files <==> p in w.files) && (p in w.files ==> v.files[p] == w.files[p]))
            && match o
               case CopyFails(Some(b)) => dst in v.files && v.files[dst] == b
               case CopyFails(None) => dst !in v.files
               case RemoveFails => dst in v.files && v.files[dst] == bytes[id]
               case _ => v.files == w.files
  {
    assert HomeOk(w, bytes, id) && RowOk(w, id);
    InTrashOfIsInTrash(w.rows[id].filePath, id);
  }

  /** After a failed removal of the source, the next restore goes beside the copy it left, so the asset ends with two. */
  lemma RestoreAfterLeftover(w: World, bytes: map<Id, Bytes>, id: Id, dst: Path)
    requires Sound(w, bytes) && id in w.ops && w.ops[id].Chosen? && id in w.rows
    requires w.rows[id].originalPath == Some(w.ops[id].dst)
    requires RestoreTarget(w.ops[id].dst, MoveRestored(w, id, RemoveFails).files, dst)
    ensures var original, failed := w.ops[id].dst, MoveRestored(w, id, RemoveFails);
            var again := MoveRestored(BeginRestore(failed, id, dst), id, Renamed);
            dst != original && original in again.files && again.files[original] == bytes[id] && dst in again.files && again.files[dst] == bytes[id]
  {
    var original, failed := w.ops[id].dst, MoveRestored(w, id, RemoveFails);
    FailedRestoreLeaves(w, bytes, id, RemoveFails);
    FreshNameShape(original, failed.files.Keys, dst);
    assert HomeOk(w, bytes, id) && RowOk(w, id);
    InTrashOfIsInTrash(w.rows[id].filePath, id);
  }

  /** A successful trash once its removal event has been handled: only the asset's row and file have changed. */
  lemma TrashResult(w: World, id: Id, root: seq<string>, o: MoveOutcome, works: bool)
    requires id in w.rows && id !in w.ops && Succeeds(o) && w.rows[id].filePath !in w.departed
    requires forall x :: x in w.rows && x != id && !w.rows[x].deleted ==> w.rows[x].filePath != w.rows[id].filePath
    ensures var src := w.rows[id].filePath;
            var dst := TrashPath(root, id, src);
            HandleDeparture(FinishTrash(BeginTrash(w, id, root), id, o, works), src) ==
            World(w.rows[id := TrashedRow(src, dst)], Moved(w.files, src, dst), w.departed, w.ops)
  {
    var src := w.rows[id].filePath;
    var dst := TrashPath(root, id, src);
    var rows := w.rows[id := TrashedRow(src, dst)];
    assert LiveAt(rows, src) == {};
    assert rows - {} == rows;
    assert w.ops[id := Updated(src, dst)] - {id} == w.ops;
    assert (w.departed + {src}) - {src} == w.departed;
  }

  lemma RestoreResult(w: World, id: Id, dst: Path, o: MoveOutcome)
    requires id in w.rows && id !in w.ops && Succeeds(o)
    ensures FinishRestore(MoveRestored(BeginRestore(w, id, dst), id, o), id, true) ==
            World(w.rows[id := Row(dst, None, false)], Moved(w.files, w.rows[id].filePath, dst), w.departed, w.ops)
  {
    assert w.ops[id := Chosen(dst)][id := Landed(dst)] - {id} == w.ops;
  }

  /** Trash then restore, with the original path free again: row and every file are as before. */
  lemma RoundTrip(w: World, bytes: map<Id, Bytes>, id: Id, root: seq<string>, o: MoveOutcome, o': MoveOutcome, works: bool)
    requires Sound(w, bytes) && id in w.rows && !w.rows[id].deleted && id !in w.ops && TRASH !in root && Succeeds(o) && Succeeds(o')
    requires TrashPath(root, id, w.rows[id].filePath) !in w.files
    ensures var src := w.rows[id].filePath;
            var trashed := HandleDeparture(FinishTrash(BeginTrash(w, id, root), id, o, works), src);
            && id in trashed.rows && trashed.rows[id] == TrashedRow(src, TrashPath(root, id, src))
            && RestoreTarget(src, trashed.files, src)
            && FinishRestore(MoveRestored(BeginRestore(trashed, id, src), id, o'), id, true) == w
  {
    var src := w.rows[id].filePath;
    var dst := TrashPath(root, id, src);
    assert HomeOk(w, bytes, id);
    TrashPathIn(root, id, src);
    InTrashOfIsInTrash(dst, id);
    forall x | x in w.rows && x != id && !w.rows[x].deleted ensures w.rows[x].filePath != src {
      HomesDiffer(w, bytes, id, x);
    }
    ThereAndBackAgain(w, id, root, o, o', works);
  }

  lemma ThereAndBackAgain(w: World, id: Id, root: seq<string>, o: MoveOutcome, o': MoveOutcome, works: bool)
    requires id in w.rows && id !in w.ops && Succeeds(o) && Succeeds(o') && w.rows[id].filePath !in w.departed
    requires w.rows[id] == Row(w.rows[id].filePath, None, false) && w.rows[id].filePath in w.files
    requires forall x :: x in w.rows && x != id && !w.rows[x].deleted ==> w.rows[x].filePath != w.rows[id].filePath
    requires TrashPath(root, id, w.rows[id].filePath) !in w.files
    ensures var src := w.rows[id].filePath;
            var trashed := HandleDeparture(FinishTrash(BeginTrash(w, id, root), id, o, works), src);
            && id in trashed.rows && trashed.rows[id] == TrashedRow(src, TrashPath(root, id, src))
            && RestoreTarget(src, trashed.files, src)
            && FinishRestore(MoveRestored(BeginRestore(trashed, id, src), id, o'), id, true) == w
  {
    var src := w.rows[id].filePath;
    var dst := TrashPath(root, id, src);
    TrashResult(w, id, root, o, works);
    var trashed := World(w.rows[id := TrashedRow(src, dst)], Moved(w.files, src, dst), w.departed, w.ops);
    RestoreResult(trashed, id, src, o');
    ThereAndBack(w.files, src, dst);
    assert trashed.rows[id := Row(src, None, false)] == w.rows;
  }

  /** With the original path taken in the meantime the asset comes back beside it, and the newcomer stays. */
  lemma RoundTripBeside(w: World, bytes: map<Id, Bytes>, id: Id, dst: Path, o: MoveOutcome)
    requires Sound(w, bytes) && id in w.rows && w.rows[id].deleted && id !in w.ops && Succeeds(o)
    requires w.rows[id].originalPath.Some? && w.rows[id].originalPath.value in w.files && RestoreTarget(w.rows[id].originalPath.value, w.files, dst)
    ensures var original := w.rows[id].originalPath.value;
            var v := FinishRestore(MoveRestored(BeginRestore(w, id, dst), id, o), id, true);
            && v.rows == w.rows[id := Row(dst, None, false)]
            && dst.dir == original.dir && dst !in w.files && v.files[dst] == bytes[id]
            && v.files == (w.files - {w.rows[id].filePath})[dst := bytes[id]]
            && original in v.files && v.files[original] == w.files[original]
  {
    var original := w.rows[id].originalPath.value;
    FreshNameShape(original, w.files.Keys, dst);
    assert HomeOk(w, bytes, id);
    InTrashOfIsInTrash(w.rows[id].filePath, id);
  }

  // ---------------------------------------------------------------- operations that lose something

  /** A removal event handled only after the asset has been restored to the same path deletes its row. */
  lemma LateRemovalDeletesTheRow(w: World, bytes: map<Id, Bytes>, id: Id, root: seq<string>)
    requires Sound(w, bytes) && id in w.rows && !w.rows[id].deleted && id !in w.ops && TRASH !in root
    requires TrashPath(root, id, w.rows[id].filePath) !in w.files
    ensures var src := w.rows[id].filePath;
            var back := FinishRestore(MoveRestored(BeginRestore(FinishTrash(BeginTrash(w, id, root), id, Renamed, true), id, src), id, Renamed), id, true);
            && src in back.departed && src in back.files && back.rows[id] == w.rows[id]
            && id !in HandleDeparture(back, src).rows && src in HandleDeparture(back, src).files
  {
    var src := w.rows[id].filePath;
    assert HomeOk(w, bytes, id);
    TrashPathIn(root, id, src);
    InTrashOfIsInTrash(TrashPath(root, id, src), id);
    ThereAndBack(w.files, src, TrashPath(root, id, src));
    var back := FinishRestore(MoveRestored(BeginRestore(FinishTrash(BeginTrash(w, id, root), id, Renamed, true), id, src), id, Renamed), id, true);
    assert id in LiveAt(back.rows, src);
  }

  /** A restore whose final update fails cannot be repeated: the retry finds its own file in the way, moves nothing,
      and leaves a live row at a path without a file. */
  lemma RetriedRestoreLosesTheFile(w: World, bytes: map<Id, Bytes>, id: Id, dst: Path)
    requires Sound(w, bytes) && id in w.rows && w.rows[id].deleted && id !in w.ops
    requires w.rows[id].originalPath.Some? && w.rows[id].originalPath.value !in w.files
    requires FirstFree(w.rows[id].originalPath.value, Moved(w.files, w.rows[id].filePath, w.rows[id].originalPath.value).Keys, dst)
    ensures var original := w.rows[id].originalPath.value;
            var once := FinishRestore(MoveRestored(BeginRestore(w, id, original), id, Renamed), id, false);
            var twice := FinishRestore(MoveRestored(BeginRestore(once, id, dst), id, Renamed), id, true);
            && once.rows == w.rows && once.files[original] == bytes[id]
            && RestoreTarget(original, once.files, dst)
            && twice.rows[id] == Row(dst, None, false) && dst !in twice.files
  {
    assert HomeOk(w, bytes, id);
    InTrashOfIsInTrash(w.rows[id].filePath, id);
  }

  /** Two restores of one asset at the same time: both have read the trashed row; the first moves the file and is about to
      update, the second finds the path taken, chooses a fresh one, moves a file that is no longer there (which counts as
      moved) and updates last. The row ends live at a path without a file. */
  lemma TwoRestoresLoseTheFile(w: World, bytes: map<Id, Bytes>, id: Id, dst: Path)
    requires Sound(w, bytes) && id in w.rows && w.rows[id].deleted && id !in w.ops && w.rows[id].originalPath.Some?
    requires w.rows[id].originalPath.value !in w.files
    requires RestoreTarget(w.rows[id].originalPath.value, Moved(w.files, w.rows[id].filePath, w.rows[id].originalPath.value), dst)
    ensures var read, original := w.rows[id].filePath, w.rows[id].originalPath.value;
            var moved := Moved(w.files, read, original);
            var movedTwice := Moved(moved, read, dst);
            var rows := w.rows[id := Row(original, None, false)][id := Row(dst, None, false)];
            && movedTwice == moved && original in moved && moved[original] == bytes[id]
            && !rows[id].deleted && rows[id].filePath == dst && dst !in movedTwice
  {
    assert HomeOk(w, bytes, id) && RowOk(w, id);
    InTrashOfIsInTrash(w.rows[id].filePath, id);
  }
}
