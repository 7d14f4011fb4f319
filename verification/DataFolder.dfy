/** The data folder across an extension update: backed up by the update callback, restored by the install callback. */
module DataFolder {
  import opened Options
  import opened FileTrees
  import opened FileSystems
  import opened DirMerge

  /** The folder's path with ".backup" added to its last component. */
  function BackupPath(data: Path): Path
    requires data != []
  {
    data[..|data| - 1] + [data[|data| - 1] + ".backup"]
  }

  lemma {:induction false} BackupApart(data: Path)
    requires data != []
    ensures BackupPath(data) != [] && Parent(BackupPath(data)) == Parent(data)
    ensures Apart(data, BackupPath(data)) && Apart(BackupPath(data), data)
  {
    var i := |data| - 1;
    assert |data[i]| != |BackupPath(data)[i]|;
    assert data[i] != BackupPath(data)[i];
  }

  const EMPTY_FOLDER: Tree := Dir(map[])

  /** Adding directories above a path does not change what lies at a path beside it. */
  lemma {:induction false} FramedTree(before: Nodes, after: Nodes, changed: Path, base: Path)
    requires WellFormed(before) && WellFormed(after) && changed != [] && base != [] && Apart(changed, base)
    requires Parent(changed) == Parent(base) && OnlyDirectoriesAdded(before, after, changed, changed)
    ensures TreeAt(after, base) == TreeAt(before, base)
  {
    TreeAtHolds(before, base);
    forall p
      ensures At(after, base + p) == FindIn(TreeAt(before, base), p)
    {
      PrefixOfAppend(changed, base, p);
      assert !(base + p <= Parent(base));
      assert At(before, base + p) == FindIn(TreeAt(before, base), p);
    }
    HoldsUnique(after, base, TreeAt(before, base));
  }

  /** Creating a folder, with any missing ancestors, leaves an existing one as it is and makes a missing one empty. */
  method MakeFolder(fs: FileSystem, p: Path) returns (ok: bool)
    requires WellFormed(fs.nodes) && p != []
    modifies fs
    ensures ok <==> Resolve(old(fs.nodes), p) == Found(Directory) || Resolve(old(fs.nodes), p) == NotExist
    ensures WellFormed(fs.nodes) && OnlyDirectoriesAdded(old(fs.nodes), fs.nodes, p, p)
    ensures !ok ==> fs.nodes == old(fs.nodes)
    ensures ok ==> TreeAt(fs.nodes, p) == if p in old(fs.nodes) then TreeAt(old(fs.nodes), p) else Some(EMPTY_FOLDER)
  {
    ghost var before := fs.nodes;
    ok := fs.MkdirAll(p);
    forall q | !(p <= q)
      ensures At(fs.nodes, q) == At(before, q)
           || (q <= Parent(p) && At(before, q) == None && At(fs.nodes, q) == Some(Directory))
    {
      if At(fs.nodes, q) != At(before, q) {
        BelowParent(q, p);
      }
    }
    if ok && p !in before {
      forall r
        ensures At(fs.nodes, p + r) == Find(EMPTY_FOLDER, r)
      {
        NothingBelowMissing(before, p, r);
        if r == [] {
          assert p + r == p;
        } else {
          assert !(p + r <= p);
        }
      }
      HoldsUnique(fs.nodes, p, Some(EMPTY_FOLDER));
    }
  }

  /** The data-folder part of the update callback: move the folder into its backup, the folder's own content winning,
      and start an empty one. */
  method BackUp(fs: FileSystem, data: Path) returns (ok: bool)
    requires WellFormed(fs.nodes) && data != []
    modifies fs
    ensures ok <==> Resolve(old(fs.nodes), data) != NotDir
    ensures WellFormed(fs.nodes)
    ensures !ok ==> fs.nodes == old(fs.nodes)
    ensures ok ==> TreeAt(fs.nodes, data) == Some(EMPTY_FOLDER)
    ensures ok ==> TreeAt(fs.nodes, BackupPath(data)) ==
                   if data in old(fs.nodes) then
                     Some(MoveResult(TreeOf(old(fs.nodes), data), TreeAt(old(fs.nodes), BackupPath(data)), PreferSrc))
                   else TreeAt(old(fs.nodes), BackupPath(data))
  {
    BackupApart(data);
    var backup := BackupPath(data);
    var stat := fs.Lstat(data);
    if stat.Found? {
      BesideExists(fs.nodes, data, backup);
      ok := MoveDirsAll(fs, data, backup, PreferSrc);
      assert ok;
      MissingInFolder(old(fs.nodes), fs.nodes, data, backup);
    } else if stat == NotDir {
      return false;
    }
    ghost var mid := fs.nodes;
    ok := MakeFolder(fs, data);
    FramedTree(mid, fs.nodes, data, backup);
  }

  /** A path beside an existing one can be reached. */
  lemma {:induction false} BesideExists(nodes: Nodes, a: Path, b: Path)
    requires WellFormed(nodes) && a in nodes && a != [] && b != [] && Parent(a) == Parent(b)
    ensures Resolve(nodes, b) != NotDir
  {
    assert At(nodes, Parent(a)) == Some(Directory);
  }

  /** After the move the source is missing from a folder that is still there. */
  lemma {:induction false} MissingInFolder(before: Nodes, after: Nodes, src: Path, dst: Path)
    requires src != [] && dst != [] && Parent(src) == Parent(dst) && At(before, Parent(src)) == Some(Directory)
    requires OnlyDirectoriesAdded(before, after, src, dst) && TreeAt(after, src) == None
    ensures Resolve(after, src) == NotExist
  {
    assert !(src <= Parent(src)) && !(dst <= Parent(dst));
    assert At(after, Parent(src)) == Some(Directory);
  }

  /** The install callback: a backup, if there is one, is merged into the data folder, the folder's own content winning;
      a file in the folder's place is removed first. */
  method Restore(fs: FileSystem, data: Path) returns (restored: bool)
    requires WellFormed(fs.nodes) && data != []
    modifies fs
    ensures WellFormed(fs.nodes)
    ensures restored <==> BackupPath(data) in old(fs.nodes)
    ensures !restored ==> fs.nodes == old(fs.nodes)
    ensures restored ==> TreeAt(fs.nodes, BackupPath(data)) == None
    ensures restored ==>
              var existing, backup := TreeAt(old(fs.nodes), data), TreeOf(old(fs.nodes), BackupPath(data));
              TreeAt(fs.nodes, data) ==
              Some(if existing.None? || existing.value.Leaf? then backup
                   else if backup.Leaf? then existing.value
                   else Overlay(existing.value, backup))
  {
    BackupApart(data);
    ghost var before := fs.nodes;
    var backup := BackupPath(data);
    var stat := fs.Lstat(backup);
    if !stat.Found? {
      return false;
    }
    stat := fs.Lstat(data);
    TreeAtHolds(before, data);
    HoldsRoot(before, data, TreeAt(before, data));
    if stat.Found? && stat.node != Directory {
      fs.RemoveAll(data);
      ReplacedIsWellFormed(before, fs.nodes, data, data, None, None);
      FramedTree(before, fs.nodes, data, backup);
      HoldsUnique(fs.nodes, data, None);
      assert !(data <= Parent(data));
    }
    restored := MoveDirsAll(fs, backup, data, PreferDest);
  }

  /** What counts as the folder's content: nothing, if it is missing or a mere file is in its place. */
  ghost function Content(data: Option<Tree>): Tree {
    if data.Some? && data.value.Dir? then data.value else EMPTY_FOLDER
  }

  /** An update followed by an install gives the folder back: exactly as it was when there was no older backup, and
      overlaid on the older backup otherwise. No backup remains. A file in the folder's place is not preserved. */
  method UpdateThenInstall(fs: FileSystem, data: Path) returns (ok: bool)
    requires WellFormed(fs.nodes) && data != []
    modifies fs
    ensures ok <==> Resolve(old(fs.nodes), data) != NotDir
    ensures !ok ==> fs.nodes == old(fs.nodes)
    ensures ok ==> WellFormed(fs.nodes) && TreeAt(fs.nodes, Parent(data) + [data[|data| - 1] + ".backup"]) == None
    ensures ok ==> var original := Content(TreeAt(old(fs.nodes), data));
                   var older := TreeAt(old(fs.nodes), Parent(data) + [data[|data| - 1] + ".backup"]);
                   TreeAt(fs.nodes, data) == Some(if older.None? then original else Overlay(original, older.value))
  {
    BackupApart(data);
    ok := BackUp(fs, data);
    if ok {
      ghost var saved := TreeAt(fs.nodes, BackupPath(data));
      var restored := Restore(fs, data);
      if restored && saved.value.Dir? {
        OverlayEmpty(saved.value);
      }
    }
  }
}
