/** The trash service as it runs: the row first, then the file, and what is undone when the file cannot follow. */
module TrashService {
  import opened Options
  import opened Trash

  datatype Outcome = Done | NotFound | Failed

  ghost predicate UniquePaths(rows: map<Id, Row>) {
    forall x, y :: x in rows && y in rows && x != y ==> rows[x].filePath != rows[y].filePath
  }

  lemma FlipAndBack(ops: map<Id, Phase>, id: Id, a: Phase, b: Phase)
    requires id !in ops
    ensures ops[id := a] - {id} == ops && ops[id := a][id := b] - {id} == ops
  {
  }

  /** Which of the outside calls of one trash or restore work, and how its move ends. */
  datatype Calls = Calls(mkdirWorks: bool, updateWorks: bool, move: MoveOutcome, rollbackWorks: bool)

  predicate TrashSucceeds(c: Calls) {
    c.mkdirWorks && c.updateWorks && Succeeds(c.move)
  }

  /** moveToTrash. */
  function Trashed(w: World, id: Id, root: seq<string>, c: Calls): World
    requires id in w.rows
  {
    if !c.mkdirWorks then w
    else if !c.updateWorks then w.(files := map p | p in w.files && !Under(p, root + [TRASH, id]) :: w.files[p])
    else FinishTrash(BeginTrash(w, id, root), id, c.move, c.rollbackWorks)
  }

  predicate RestoreSucceeds(row: Row, c: Calls) {
    c.updateWorks && (row.originalPath.Some? ==> c.mkdirWorks && Succeeds(c.move))
  }

  /** restoreFile, with dst the target it chooses; a row without an original path is only unflagged. */
  ghost predicate Restored(w: World, id: Id, c: Calls, dst: Path, v: World)
    requires id in w.rows
  {
    var row := w.rows[id];
    if row.originalPath.None? then
      dst == row.filePath && v == if c.updateWorks then w.(rows := w.rows[id := Row(dst, None, false)]) else w
    else
      && RestoreTarget(row.originalPath.value, w.files, dst)
      && v == if !c.mkdirWorks then w
              else if !Succeeds(c.move) then MoveRestored(BeginRestore(w, id, dst), id, c.move)
              else FinishRestore(MoveRestored(BeginRestore(w, id, dst), id, c.move), id, c.updateWorks)
  }

  /** Live rows have their files outside every trash. */
  ghost predicate OutsideTrash(rows: map<Id, Row>) {
    forall id :: id in rows && !rows[id].deleted ==> !InTrash(rows[id].filePath)
  }

  /** A row that remembers where its file came from has it in the trash, and it came from outside. */
  ghost predicate Trashable(rows: map<Id, Row>) {
    forall id :: id in rows && rows[id].originalPath.Some? ==> InTrash(rows[id].filePath) && !InTrash(rows[id].originalPath.value)
  }

  /** A trash that works: the row points into the asset's own directory under .trash, under the old file name, and remembers
      where the file came from; the bytes are there and gone from the old place; no other row and no other file changes. */
  lemma TrashedMeans(w: World, id: Id, root: seq<string>, c: Calls)
    requires id in w.rows && id !in w.ops && c.mkdirWorks && c.updateWorks && (c.move.Renamed? || c.move.CopiedAcross?)
    requires w.rows[id].filePath.dir != root + [".trash", id]
    ensures var v, src := Trashed(w, id, root, c), w.rows[id].filePath;
            var dst := Path(root + [".trash", id], src.name);
            && v.rows.Keys == w.rows.Keys && v.rows[id] == Row(dst, Some(src), true)
            && (forall x :: x in w.rows && x != id ==> v.rows[x] == w.rows[x])
            && (src in w.files ==> dst in v.files && v.files[dst] == w.files[src] && src !in v.files)
            && (src !in w.files ==> v.files == w.files)
            && (forall p :: p != src && p != dst ==> (p in v.files <==> p in w.files) && (p in w.files ==> v.files[p] == w.files[p]))
            && v.departed == w.departed + {src} && v.ops == w.ops
  {
    var src := w.rows[id].filePath;
    assert TrashPath(root, id, src) == Path(root + [".trash", id], src.name);
    FlipAndBack(w.ops, id, Updated(src, TrashPath(root, id, src)), Updated(src, TrashPath(root, id, src)));
  }

  /** A trash that fails: without the directory nothing happens; otherwise the asset's own trash directory is emptied, and the row
      stays as it was unless it had been flipped and flipping it back failed. No other row and no other file changes. */
  lemma TrashFailedMeans(w: World, id: Id, root: seq<string>, c: Calls)
    requires id in w.rows && id !in w.ops && !(c.mkdirWorks && c.updateWorks && (c.move.Renamed? || c.move.CopiedAcross?))
    requires !w.rows[id].deleted && w.rows[id].originalPath == None
    ensures var v, src := Trashed(w, id, root, c), w.rows[id].filePath;
            && v.rows.Keys == w.rows.Keys
            && v.rows[id] == (if c.mkdirWorks && c.updateWorks && !c.rollbackWorks then Row(Path(root + [".trash", id], src.name), Some(src), true) else w.rows[id])
            && (forall x :: x in w.rows && x != id ==> v.rows[x] == w.rows[x])
            && (forall p :: p in v.files <==> p in w.files && !(c.mkdirWorks && root + [".trash", id] <= p.dir))
            && (forall p :: p in v.files ==> v.files[p] == w.files[p])
            && v.departed == w.departed && v.ops == w.ops
  {
    var src := w.rows[id].filePath;
    assert TrashPath(root, id, src) == Path(root + [".trash", id], src.name);
    assert w.rows[id] == Row(src, None, false);
    FlipAndBack(w.ops, id, Updated(src, TrashPath(root, id, src)), Updated(src, TrashPath(root, id, src)));
  }

  /** A restore that works: the row is live at dst and remembers nothing; the bytes are there and gone from the trash; dst is the
      path the file came from, or, if that is taken, the least numbered free name beside it. */
  lemma RestoredMeans(w: World, id: Id, c: Calls, dst: Path, v: World) returns (n: nat)
    requires id in w.rows && id !in w.ops && Restored(w, id, c, dst, v) && w.rows[id].originalPath.Some?
    requires c.mkdirWorks && c.updateWorks && (c.move.Renamed? || c.move.CopiedAcross?)
    requires w.rows[id].filePath.dir != w.rows[id].originalPath.value.dir
    ensures var src, original := w.rows[id].filePath, w.rows[id].originalPath.value;
            && (original !in w.files ==> dst == original) && (original in w.files ==> LeastFree(original, w.files.Keys, n, dst))
            && v.rows.Keys == w.rows.Keys && v.rows[id] == Row(dst, None, false)
            && (forall x :: x in w.rows && x != id ==> v.rows[x] == w.rows[x])
            && (src in w.files ==> dst in v.files && v.files[dst] == w.files[src] && src !in v.files)
            && (src !in w.files ==> v.files == w.files)
            && (forall p :: p != src && p != dst ==> (p in v.files <==> p in w.files) && (p in w.files ==> v.files[p] == w.files[p]))
            && v.departed == w.departed && v.ops == w.ops
  {
    var original := w.rows[id].originalPath.value;
    n := 1;
    if original in w.files {
      n := FreshNameIs(original, w.files.Keys, dst);
      FreshNameShape(original, w.files.Keys, dst);
    }
    FlipAndBack(w.ops, id, Chosen(dst), Landed(dst));
  }

  /** A restore that fails changes no row; if only its last UPDATE failed, the file has moved all the same. */
  lemma RestoreFailedMeans(w: World, id: Id, c: Calls, dst: Path, v: World)
    requires id in w.rows && id !in w.ops && Restored(w, id, c, dst, v) && w.rows[id].originalPath.Some?
    requires !(c.mkdirWorks && c.updateWorks && (c.move.Renamed? || c.move.CopiedAcross?))
    ensures v.rows == w.rows && v.departed == w.departed && v.ops == w.ops
    ensures forall p :: p != w.rows[id].filePath && p != dst ==> (p in v.files <==> p in w.files) && (p in w.files ==> v.files[p] == w.files[p])
    ensures !c.mkdirWorks || c.move.RenameFails? ==> v.files == w.files
    ensures var src := w.rows[id].filePath;
            c.mkdirWorks && (c.move.Renamed? || c.move.CopiedAcross?) && src in w.files && src != dst ==>
              src !in v.files && dst in v.files && v.files[dst] == w.files[src]
  {
    FlipAndBack(w.ops, id, Chosen(dst), Landed(dst));
  }

  /** An asset without a remembered path is only unflagged, where it is. */
  lemma UnflaggedMeans(w: World, id: Id, c: Calls, dst: Path, v: World)
    requires id in w.rows && Restored(w, id, c, dst, v) && w.rows[id].originalPath.None?
    ensures dst == w.rows[id].filePath && v.files == w.files && v.ops == w.ops && v.departed == w.departed && v.rows.Keys == w.rows.Keys
    ensures v.rows[id] == if c.updateWorks then Row(w.rows[id].filePath, None, false) else w.rows[id]
    ensures forall x :: x in w.rows && x != id ==> v.rows[x] == w.rows[x]
  {
  }

  lemma TrashIsElsewhere(root: seq<string>, id: Id, p: Path)
    requires !InTrash(p)
    ensures TrashPath(root, id, p) != p
  {
    assert (root + [TRASH, id])[|root|] == TRASH;
  }

  class Service {
    var rows: map<Id, Row>
    var files: map<Path, Bytes>
    var departed: set<Path>
    /** The video of a Live Photo. */
    const companion: map<Id, Id>

    ghost function Value(): World
      reads this
    {
      World(rows, files, departed, map[])
    }

    /** renameOrCopy. A missing source counts as moved. */
    method RenameOrCopy(src: Path, dst: Path, o: MoveOutcome) returns (ok: bool)
      requires src != dst
      modifies this`files
      ensures ok == Succeeds(o)
      ensures files == if ok then Moved(old(files), src, dst) else Residue(old(files), src, dst, o)
    {
      if o.Renamed? {
        if src in files { files := (files - {src})[dst := files[src]]; }
        return true;
      }
      if o.RenameFails? { return false; }
      if o.CopyFails? {
        files := if o.leftover.Some? then files[dst := o.leftover.value] else files - {dst};
        return false;
      }
      if src in files { files := files[dst := files[src]]; }
      if o.RemoveFails? { return false; }
      ghost var copied := files;
      files := files - {src};
      assert src in old(files) ==> files == Moved(old(files), src, dst);
      return true;
    }

    method RemoveTree(dir: seq<string>)
      modifies this`files
      ensures files == map p | p in old(files) && !Under(p, dir) :: old(files)[p]
    {
      files := map p | p in files && !Under(p, dir) :: files[p];
    }

    method MoveToTrash(id: Id, root: seq<string>, c: Calls) returns (ok: bool)
      requires id in rows && TrashPath(root, id, rows[id].filePath) != rows[id].filePath
      modifies this
      ensures ok == TrashSucceeds(c) && Value() == Trashed(old(Value()), id, root, c)
    {
      var src := rows[id].filePath;
      var dst := TrashPath(root, id, src);
      if !c.mkdirWorks { return false; }
      if !c.updateWorks {
        RemoveTree(dst.dir);
        return false;
      }
      rows := rows[id := Row(dst, Some(src), true)];
      ok := RenameOrCopy(src, dst, c.move);
      FlipAndBack(map[], id, Updated(src, dst), Updated(src, dst));
      if !ok {
        if c.rollbackWorks { rows := rows[id := Row(src, None, false)]; }
        RemoveTree(dst.dir);
        return;
      }
      departed := departed + {src};
    }

    /** TrashAsset: the asset, then its Live Photo companion if that is still live, whose failure is not reported. */
    method TrashAsset(id: Id, root: seq<string>, c: Calls, root': seq<string>, c': Calls) returns (r: Outcome)
      requires OutsideTrash(rows)
      modifies this
      ensures r.NotFound? <==> id !in old(rows) || old(rows)[id].deleted
      ensures r.NotFound? ==> Value() == old(Value())
      ensures r.Done? <==> !r.NotFound? && TrashSucceeds(c)
      ensures r.Failed? ==> Value() == Trashed(old(Value()), id, root, c)
      ensures r.Done? ==>
                var v := Trashed(old(Value()), id, root, c);
                Value() == if id in companion && companion[id] in v.rows && !v.rows[companion[id]].deleted
                           then Trashed(v, companion[id], root', c') else v
    {
      if id !in rows || rows[id].deleted { return NotFound; }
      TrashIsElsewhere(root, id, rows[id].filePath);
      var ok := MoveToTrash(id, root, c);
      if !ok { return Failed; }
      if id in companion {
        var video := companion[id];
        if video in rows && !rows[video].deleted {
          TrashIsElsewhere(root', video, rows[video].filePath);
          ok := MoveToTrash(video, root', c');
        }
      }
      return Done;
    }

    method RestoreFile(id: Id, c: Calls) returns (ok: bool, dst: Path)
      requires id in rows && (rows[id].originalPath.Some? ==> rows[id].filePath.dir != rows[id].originalPath.value.dir)
      modifies this
      ensures ok == RestoreSucceeds(old(rows)[id], c) && Restored(old(Value()), id, c, dst, Value())
    {
      var row := rows[id];
      if row.originalPath.None? {
        dst := row.filePath;
      } else {
        dst := row.originalPath.value;
        if dst in files {
          var taken := files.Keys;
          dst := DedupePath(dst, taken);
          FreshNameShape(row.originalPath.value, taken, dst);
        }
        FlipAndBack(map[], id, Chosen(dst), Landed(dst));
        if !c.mkdirWorks { return false, dst; }
        ok := RenameOrCopy(row.filePath, dst, c.move);
        if !ok { return; }
      }
      if !c.updateWorks { return false, dst; }
      rows := rows[id := Row(dst, None, false)];
      return true, dst;
    }

    /** RestoreAsset: the asset, then its Live Photo companion if that is in the trash too; `mid` is the world between them. */
    method RestoreAsset(id: Id, c: Calls, c': Calls) returns (r: Outcome, dst: Path, dst': Path, ghost mid: World)
      requires Trashable(rows)
      modifies this
      ensures r.NotFound? <==> id !in old(rows) || !old(rows)[id].deleted
      ensures r.NotFound? ==> Value() == old(Value())
      ensures !r.NotFound? ==> Restored(old(Value()), id, c, dst, mid) && r.Done? == RestoreSucceeds(old(rows)[id], c)
      ensures r.Failed? ==> Value() == mid
      ensures r.Done? ==>
                if id in companion && companion[id] in mid.rows && mid.rows[companion[id]].deleted
                then Restored(mid, companion[id], c', dst', Value()) else Value() == mid
    {
      dst, dst', mid := Path([], ""), Path([], ""), Value();
      if id !in rows || !rows[id].deleted { return NotFound, dst, dst', mid; }
      var ok;
      ok, dst := RestoreFile(id, c);
      mid := Value();
      if !ok { return Failed, dst, dst', mid; }
      if id in companion {
        var video := companion[id];
        if video in rows && rows[video].deleted {
          ok, dst' := RestoreFile(video, c');
        }
      }
      r := Done;
    }

    /** RemoveByPath: deletes the live row at the path; a trashed row is never deleted by it. */
    method RemoveByPath(p: Path)
      requires UniquePaths(rows)
      modifies this
      ensures Value() == HandleDeparture(old(Value()), p)
      ensures forall id :: id in old(rows) ==> (id in rows <==> old(rows)[id].deleted || old(rows)[id].filePath != p)
      ensures forall id :: id in rows ==> id in old(rows) && rows[id] == old(rows)[id]
      ensures files == old(files)
    {
      departed := departed - {p};
      var found := LiveAt(rows, p);
      if found == {} {
        assert rows - {} == rows;
        return;
      }
      var id :| id in found;
      assert found == {id};
      rows := rows - {id};
    }
  }
}
