/** Moving one directory into another: the in-place walk, refining the recursive overlay. */
module DirMerge {
  import opened Options
  import opened FileTrees
  import opened FileSystems

  // ----- Holding trees ----------------------------------------------------------------------------------

  lemma {:induction false} HoldsRoot(nodes: Nodes, base: Path, t: Option<Tree>)
    requires Holds(nodes, base, t)
    ensures At(nodes, base) == FindIn(t, [])
  {
    assert base + [] == base;
  }

  lemma {:induction false} HoldsChild(nodes: Nodes, base: Path, t: Tree, k: string)
    requires Holds(nodes, base, Some(t))
    ensures Holds(nodes, base + [k], Child(t, k))
  {
    forall p
      ensures At(nodes, base + [k] + p) == FindIn(Child(t, k), p)
    {
      assert base + [k] + p == base + ([k] + p);
      assert At(nodes, base + ([k] + p)) == Find(t, [k] + p);
      assert ([k] + p)[1..] == p;
    }
  }

  /** A directory holds a tree when each of its entries holds the corresponding subtree. */
  lemma {:induction false} HoldsFromChildren(nodes: Nodes, base: Path, t: Tree)
    requires t.Dir? && At(nodes, base) == Some(Directory)
    requires forall k :: Holds(nodes, base + [k], Child(t, k))
    ensures Holds(nodes, base, Some(t))
  {
    forall p
      ensures At(nodes, base + p) == Find(t, p)
    {
      if p == [] {
        assert base + p == base;
      } else {
        assert Holds(nodes, base + [p[0]], Child(t, p[0]));
        assert base + p == base + [p[0]] + p[1..];
        assert At(nodes, base + [p[0]] + p[1..]) == FindIn(Child(t, p[0]), p[1..]);
      }
    }
  }

  lemma {:induction false} PrefixOfAppend(a: Path, base: Path, p: Path)
    requires Apart(a, base)
    ensures !(a <= base + p)
  {
    var i :| 0 <= i < |a| && i < |base| && a[i] != base[i];
    assert (base + p)[i] == base[i];
  }

  /** What happens at or below `a` and `b` does not concern a tree held apart from both. */
  lemma {:induction false} HoldsFrame(before: Nodes, after: Nodes, a: Path, b: Path, base: Path, t: Option<Tree>)
    requires Holds(before, base, t) && SameOutside(before, after, a, b) && Apart(a, base) && Apart(b, base)
    ensures Holds(after, base, t)
  {
    forall p
      ensures At(after, base + p) == FindIn(t, p)
    {
      PrefixOfAppend(a, base, p);
      PrefixOfAppend(b, base, p);
      assert At(before, base + p) == FindIn(t, p);
    }
  }

  lemma {:induction false} SiblingsApart(a: Path, k: string, l: string)
    requires k != l
    ensures Apart(a + [k], a + [l])
  {
    assert (a + [k])[|a|] == k && (a + [l])[|a|] == l;
  }

  lemma {:induction false} EntriesApart(a: Path, b: Path, k: string, l: string)
    requires Apart(a, b)
    ensures Apart(a + [k], b + [l]) && Apart(b + [l], a + [k]) && Apart(a + [k], b) && Apart(b + [l], a)
  {
    var i :| 0 <= i < |a| && i < |b| && a[i] != b[i];
    assert (a + [k])[i] == a[i] && (b + [l])[i] == b[i];
  }

  lemma {:induction false} OutsideChildren(before: Nodes, mid: Nodes, after: Nodes, a: Path, b: Path, k: string)
    requires SameOutside(before, mid, a, b) && SameOutside(mid, after, a + [k], b + [k])
    ensures SameOutside(before, after, a, b)
  {
    forall p | !(a <= p) && !(b <= p)
      ensures At(after, p) == At(before, p)
    {
      assert !(a + [k] <= p) && !(b + [k] <= p);
    }
  }

  // ----- The program ------------------------------------------------------------------------------------

  /** Renaming carries the whole tree over. */
  lemma {:induction false} RenameMoves(before: Nodes, after: Nodes, src: Path, dst: Path, t: Tree)
    requires Holds(before, src, Some(t)) && Holds(before, dst, None) && Apart(src, dst)
    requires forall q ::
               At(after, q) == if dst <= q && src + q[|dst|..] in before then At(before, src + q[|dst|..])
                               else if src <= q then None
                               else At(before, q)
    ensures Holds(after, dst, Some(t)) && Holds(after, src, None) && SameOutside(before, after, src, dst)
  {
    forall p
      ensures At(after, dst + p) == Find(t, p)
    {
      var q := dst + p;
      assert dst <= q && q[|dst|..] == p;
      assert At(before, src + p) == Find(t, p) && At(before, dst + p) == None;
      PrefixOfAppend(src, dst, p);
    }
    forall p
      ensures At(after, src + p) == None
    {
      PrefixOfAppend(dst, src, p);
      assert src <= src + p;
    }
  }

  /** Creates the directories leading to a free destination and renames the source to it. */
  method RenameWithParent(fs: FileSystem, src: Path, dst: Path, ghost s: Tree) returns (ok: bool)
    requires src != [] && dst != [] && Apart(src, dst)
    requires Holds(fs.nodes, src, Some(s)) && Holds(fs.nodes, dst, None)
    modifies fs
    ensures WellFormed(old(fs.nodes)) ==> (ok <==> Resolve(old(fs.nodes), dst) == NotExist)
    ensures At(old(fs.nodes), Parent(dst)) == Some(Directory) ==> ok && SameOutside(old(fs.nodes), fs.nodes, src, dst)
    ensures !ok ==> fs.nodes == old(fs.nodes)
    ensures ok ==> Holds(fs.nodes, dst, Some(s)) && Holds(fs.nodes, src, None)
    ensures ok ==> OnlyDirectoriesAdded(old(fs.nodes), fs.nodes, src, dst)
    ensures WellFormed(old(fs.nodes)) ==> WellFormed(fs.nodes)
  {
    ghost var before := fs.nodes;
    HoldsRoot(before, src, Some(s));
    HoldsRoot(before, dst, None);
    ok := fs.MkdirAll(dst[..|dst| - 1]);
    if ok {
      ghost var mid := fs.nodes;
      ParentsKeepTrees(before, mid, src, dst, s);
      HoldsRoot(mid, src, Some(s));
      HoldsRoot(mid, dst, None);
      ApartIffNeitherBelow(src, dst);
      ok := fs.Rename(src, dst);
      RenameMoves(mid, fs.nodes, src, dst, s);
      if WellFormed(before) {
        ReplacedIsWellFormed(mid, fs.nodes, src, dst, None, Some(s));
      }
    }
  }

  /** Apart from both paths only missing directories above the destination have appeared. */
  ghost predicate OnlyDirectoriesAdded(before: Nodes, after: Nodes, src: Path, dst: Path)
    requires dst != []
  {
    forall p :: !(src <= p) && !(dst <= p) ==>
      At(after, p) == At(before, p) || (p <= Parent(dst) && At(before, p) == None && At(after, p) == Some(Directory))
  }

  lemma {:induction false} ParentsKeepTrees(before: Nodes, mid: Nodes, src: Path, dst: Path, s: Tree)
    requires dst != [] && Apart(src, dst) && Holds(before, src, Some(s)) && Holds(before, dst, None)
    requires forall q :: At(mid, q) == At(before, q)
                      || (q <= dst[..|dst| - 1] && At(before, q) == None && At(mid, q) == Some(Directory))
    ensures Holds(mid, src, Some(s)) && Holds(mid, dst, None)
    ensures OnlyDirectoriesAdded(before, mid, src, dst)
  {
    forall p
      ensures At(mid, src + p) == Find(s, p) && At(mid, dst + p) == None
    {
      PrefixOfAppend(dst, src, p);
      NotAbove(src, dst, p);
      assert !(dst + p <= dst[..|dst| - 1]);
      assert At(before, src + p) == Find(s, p) && At(before, dst + p) == FindIn(None, p);
    }
  }

  lemma {:induction false} NotAbove(src: Path, dst: Path, p: Path)
    requires dst != [] && Apart(src, dst)
    ensures !(src + p <= Parent(dst))
  {
    var i :| 0 <= i < |src| && i < |dst| && src[i] != dst[i];
    assert (src + p)[i] == src[i];
  }

  /** Both sides have a directory at this relative path. */
  ghost predicate BothDirectories(s: Tree, d: Option<Tree>, p: Path) {
    Find(s, p) == Some(Directory) && FindIn(d, p) == Some(Directory)
  }

  /** The callback for one entry of the source, together with the walk below it. `descended` are the relative paths
      below which the walk went on: exactly those at which both sides have a directory. */
  method VisitEntry(fs: FileSystem, src: Path, dst: Path, preference: Preference, ghost s: Tree, ghost d: Option<Tree>)
    returns (ok: bool, ghost descended: set<Path>)
    requires src != [] && dst != [] && Apart(src, dst)
    requires Holds(fs.nodes, src, Some(s)) && Holds(fs.nodes, dst, d)
    requires At(fs.nodes, Parent(dst)) == Some(Directory)
    modifies fs
    ensures ok
    ensures Holds(fs.nodes, dst, Some(Merge(s, d, preference)))
    ensures SameOutside(old(fs.nodes), fs.nodes, src, dst)
    ensures forall p :: p in descended <==> BothDirectories(s, d, p)
    decreases s, 1
  {
    descended := {};
    HoldsRoot(fs.nodes, src, Some(s));
    HoldsRoot(fs.nodes, dst, d);
    var isDir := fs.nodes[src] == Directory;
    var stat := fs.Lstat(dst);
    if isDir {
      if stat == NotExist {
        ok := RenameWithParent(fs, src, dst, s);
        return;
      }
      if stat == Found(Directory) {
        ok, descended := WalkChildren(fs, src, dst, preference, s, d.value);
        return;
      }
      if preference == PreferDest {
        return true, {};
      }
      ok := Replace(fs, src, dst, s);
    } else {
      if stat.Found? {
        if preference == PreferDest {
          return true, {};
        }
        ok := Replace(fs, src, dst, s);
      } else {
        ok := RenameWithParent(fs, src, dst, s);
      }
    }
  }

  method Replace(fs: FileSystem, src: Path, dst: Path, ghost s: Tree) returns (ok: bool)
    requires src != [] && dst != [] && Apart(src, dst)
    requires Holds(fs.nodes, src, Some(s))
    requires At(fs.nodes, Parent(dst)) == Some(Directory)
    modifies fs
    ensures ok && Holds(fs.nodes, dst, Some(s)) && Holds(fs.nodes, src, None)
    ensures SameOutside(old(fs.nodes), fs.nodes, src, dst)
  {
    ghost var before := fs.nodes;
    fs.RemoveAll(dst);
    HoldsFrame(before, fs.nodes, dst, dst, src, Some(s));
    assert !(dst <= Parent(dst));
    ok := RenameWithParent(fs, src, dst, s);
  }

  ghost function MergedChild(s: Tree, d: Tree, preference: Preference, done: set<string>, k: string): Option<Tree> {
    if k in done && Child(s, k).Some? then Some(Merge(Child(s, k).value, Child(d, k), preference)) else Child(d, k)
  }

  /** The walk of a directory has dealt with the entries `done` and not touched the others. */
  ghost predicate Walked(nodes: Nodes, src: Path, dst: Path, preference: Preference, s: Tree, d: Tree,
                         done: set<string>) {
    && (forall k :: k in Names(s) && k !in done ==> Holds(nodes, src + [k], Child(s, k)))
    && (forall k :: Holds(nodes, dst + [k], MergedChild(s, d, preference, done, k)))
    && At(nodes, dst) == Some(Directory)
  }

  ghost function Names(t: Tree): set<string> {
    if t.Dir? then t.children.Keys else {}
  }

  /** The paths of `descended` that lie at the top or below the entries `done`. */
  ghost predicate DescendedInto(descended: set<Path>, s: Tree, d: Tree, done: set<string>) {
    forall p :: p in descended <==> BothDirectories(s, Some(d), p) && (p == [] || p[0] in done)
  }

  lemma {:induction false} DescendedStart(s: Tree, d: Tree)
    requires s.Dir? && d.Dir?
    ensures DescendedInto({[]}, s, d, {})
  {
  }

  lemma {:induction false} DescendedStep(descended: set<Path>, below: set<Path>, s: Tree, d: Tree, done: set<string>,
                                         k: string)
    requires s.Dir? && d.Dir? && k in s.children && DescendedInto(descended, s, d, done)
    requires forall p :: p in below <==> BothDirectories(s.children[k], Child(d, k), p)
    ensures DescendedInto(descended + (set p | p in below :: [k] + p), s, d, done + {k})
  {
    var lifted := set p | p in below :: [k] + p;
    forall q
      ensures q in lifted <==> BothDirectories(s, Some(d), q) && q != [] && q[0] == k
    {
      if q in lifted {
        var p :| p in below && q == [k] + p;
        assert q[1..] == p;
      } else if q != [] && q[0] == k {
        assert q == [k] + q[1..];
      }
    }
  }

  lemma {:induction false} DescendedAll(descended: set<Path>, s: Tree, d: Tree, done: set<string>)
    requires s.Dir? && DescendedInto(descended, s, d, done) && forall k :: k in done <==> k in s.children
    ensures forall p :: p in descended <==> BothDirectories(s, Some(d), p)
  {
  }

  method WalkChildren(fs: FileSystem, src: Path, dst: Path, preference: Preference, ghost s: Tree, ghost d: Tree)
    returns (ok: bool, ghost descended: set<Path>)
    requires s.Dir? && d.Dir? && Apart(src, dst)
    requires Holds(fs.nodes, src, Some(s)) && Holds(fs.nodes, dst, Some(d))
    modifies fs
    ensures ok
    ensures Holds(fs.nodes, dst, Some(Merge(s, Some(d), preference)))
    ensures SameOutside(old(fs.nodes), fs.nodes, src, dst)
    ensures forall p :: p in descended <==> BothDirectories(s, Some(d), p)
    decreases s, 0
  {
    ghost var before := fs.nodes;
    var names := fs.ReadDir(src);
    WalkStart(fs.nodes, src, dst, preference, s, d);
    assert SameOutside(before, fs.nodes, src, dst);
    hide *;
    ghost var done: set<string> := {};
    ListedNone(names);
    DescendedStart(s, d);
    descended := {[]};
    var i := 0;
    while i < |names|
      invariant 0 <= i <= |names|
      invariant IsListed(names, i, done)
      invariant Walked(fs.nodes, src, dst, preference, s, d, done)
      invariant DescendedInto(descended, s, d, done)
      invariant SameOutside(before, fs.nodes, src, dst)
    {
      var k := names[i];
      ghost var mid := fs.nodes;
      ListedNext(names, i, done);
      WalkEntry(fs.nodes, src, dst, preference, s, d, done, k);
      ghost var below;
      ok, below := VisitEntry(fs, src + [k], dst + [k], preference, s.children[k], Child(d, k));
      WalkStep(mid, fs.nodes, src, dst, preference, s, d, done, k);
      OutsideChildren(before, mid, fs.nodes, src, dst, k);
      DescendedStep(descended, below, s, d, done, k);
      descended := descended + set p | p in below :: [k] + p;
      done := done + {k};
      i := i + 1;
    }
    ok := true;
    ListedAll(names, done);
    DescendedAll(descended, s, d, done);
    WalkEnd(fs.nodes, src, dst, preference, s, d, done);
  }

  /** `done` are the first `i` names. */
  ghost predicate IsListed(names: seq<string>, i: nat, done: set<string>) {
    i <= |names| && done == set j | 0 <= j < i :: names[j]
  }

  lemma {:induction false} ListedNone(names: seq<string>)
    ensures IsListed(names, 0, {})
  {
  }

  lemma {:induction false} ListedNext(names: seq<string>, i: nat, done: set<string>)
    requires IsListed(names, i, done) && i < |names|
    requires forall i, j :: 0 <= i < j < |names| ==> names[i] != names[j]
    ensures names[i] in names && names[i] !in done && IsListed(names, i + 1, done + {names[i]})
  {
  }

  lemma {:induction false} ListedAll(names: seq<string>, done: set<string>)
    requires IsListed(names, |names|, done)
    ensures forall k :: k in done <==> k in names
  {
  }

  lemma {:induction false} WalkStart(nodes: Nodes, src: Path, dst: Path, preference: Preference, s: Tree, d: Tree)
    requires s.Dir? && d.Dir? && Holds(nodes, src, Some(s)) && Holds(nodes, dst, Some(d))
    ensures Walked(nodes, src, dst, preference, s, d, {})
    ensures forall k :: src + [k] in nodes <==> k in s.children
  {
    HoldsRoot(nodes, dst, Some(d));
    forall k
      ensures src + [k] in nodes <==> k in s.children
      ensures Holds(nodes, src + [k], Child(s, k)) && Holds(nodes, dst + [k], Child(d, k))
    {
      HoldsChild(nodes, src, s, k);
      HoldsChild(nodes, dst, d, k);
      HoldsRoot(nodes, src + [k], Child(s, k));
    }
  }

  /** An entry not yet visited meets the precondition of its visit. */
  lemma {:induction false} WalkEntry(nodes: Nodes, src: Path, dst: Path, preference: Preference, s: Tree, d: Tree,
                                     done: set<string>, k: string)
    requires s.Dir? && Apart(src, dst) && Walked(nodes, src, dst, preference, s, d, done) && k in s.children
    requires k !in done
    ensures Apart(src + [k], dst + [k])
    ensures Holds(nodes, src + [k], Some(s.children[k])) && Holds(nodes, dst + [k], Child(d, k))
    ensures At(nodes, Parent(dst + [k])) == Some(Directory)
  {
    EntriesApart(src, dst, k, k);
    assert Parent(dst + [k]) == dst;
    assert Holds(nodes, dst + [k], MergedChild(s, d, preference, done, k));
  }

  /** Visiting one entry leaves the other entries of both directories as they were. */
  lemma {:induction false} WalkStep(mid: Nodes, after: Nodes, src: Path, dst: Path, preference: Preference,
                                    s: Tree, d: Tree, done: set<string>, k: string)
    requires s.Dir? && Apart(src, dst) && Walked(mid, src, dst, preference, s, d, done) && k in s.children && k !in done
    requires SameOutside(mid, after, src + [k], dst + [k])
    requires Holds(after, dst + [k], Some(Merge(s.children[k], Child(d, k), preference)))
    ensures Walked(after, src, dst, preference, s, d, done + {k})
  {
    DirectoryStays(mid, after, src, dst, k);
    hide Holds, SameOutside, Apart, Merge;
    forall l | l in Names(s) && l !in done + {k}
      ensures Holds(after, src + [l], Child(s, l))
    {
      SiblingsApart(src, k, l);
      EntriesApart(src, dst, l, k);
      HoldsFrame(mid, after, src + [k], dst + [k], src + [l], Child(s, l));
    }
    forall l
      ensures Holds(after, dst + [l], MergedChild(s, d, preference, done + {k}, l))
    {
      if l != k {
        SiblingsApart(dst, k, l);
        EntriesApart(src, dst, k, l);
        assert Holds(mid, dst + [l], MergedChild(s, d, preference, done, l));
        HoldsFrame(mid, after, src + [k], dst + [k], dst + [l], MergedChild(s, d, preference, done, l));
      }
    }
  }

  lemma {:induction false} DirectoryStays(mid: Nodes, after: Nodes, src: Path, dst: Path, k: string)
    requires Apart(src, dst) && SameOutside(mid, after, src + [k], dst + [k])
    ensures At(after, dst) == At(mid, dst)
  {
    EntriesApart(src, dst, k, k);
    PrefixOfAppend(src + [k], dst, []);
    assert dst + [] == dst && !(dst + [k] <= dst);
  }

  lemma {:induction false} WalkEnd(nodes: Nodes, src: Path, dst: Path, preference: Preference, s: Tree, d: Tree,
                                   done: set<string>)
    requires s.Dir? && d.Dir? && Walked(nodes, src, dst, preference, s, d, done)
    requires forall k :: k in done <==> k in s.children
    ensures Holds(nodes, dst, Some(Merge(s, Some(d), preference)))
  {
    var merged := Merge(s, Some(d), preference);
    forall k
      ensures Holds(nodes, dst + [k], Child(merged, k))
    {
      assert Holds(nodes, dst + [k], MergedChild(s, d, preference, done, k));
      assert MergedChild(s, d, preference, done, k) == Child(merged, k);
    }
    HoldsFromChildren(nodes, dst, merged);
  }

  // ----- Moving a whole directory ---------------------------------------------------------------------------

  /** The walk of a source root that is not a directory moves nothing. */
  ghost function WalkResult(s: Tree, d: Tree, preference: Preference): Tree {
    if s.Dir? then Merge(s, Some(d), preference) else d
  }

  method MergeDirWithPreferenceWalk(fs: FileSystem, src: Path, dst: Path, preference: Preference, ghost s: Tree,
                                    ghost d: Tree)
    returns (ok: bool)
    requires d.Dir? && Apart(src, dst)
    requires Holds(fs.nodes, src, Some(s)) && Holds(fs.nodes, dst, Some(d))
    modifies fs
    ensures ok && Holds(fs.nodes, dst, Some(WalkResult(s, d, preference))) && Holds(fs.nodes, src, None)
    ensures SameOutside(old(fs.nodes), fs.nodes, src, dst)
  {
    ghost var before := fs.nodes;
    HoldsRoot(fs.nodes, src, Some(s));
    ok := true;
    if fs.nodes[src] == Directory {
      ghost var descended;
      ok, descended := WalkChildren(fs, src, dst, preference, s, d);
    }
    if !ok {
      return false;
    }
    ghost var mid := fs.nodes;
    fs.RemoveAll(src);
    HoldsFrame(mid, fs.nodes, src, src, dst, Some(WalkResult(s, d, preference)));
    forall p | !(src <= p) && !(dst <= p)
      ensures At(fs.nodes, p) == At(before, p)
    {
      assert At(mid, p) == At(before, p);
    }
  }

  /** What moving `s` onto `d` leaves at the destination. */
  ghost function MoveResult(s: Tree, d: Option<Tree>, preference: Preference): Tree {
    if d.Some? && d.value.Dir? then WalkResult(s, d.value, preference) else Merge(s, d, preference)
  }

  /** The move is the overlay, except that a source which is a mere file is dropped instead of replacing a directory. */
  lemma {:induction false} MoveIsOverlayIff(s: Tree, d: Option<Tree>, preference: Preference)
    ensures MoveResult(s, d, preference) == Merge(s, d, preference)
       <==> !(s.Leaf? && d.Some? && d.value.Dir? && preference == PreferSrc)
  {
  }

  /** Moves everything at `src` into `dst`. It fails, changing nothing, exactly when a file lies on the way to `dst`. */
  method MoveDirsAll(fs: FileSystem, src: Path, dst: Path, preference: Preference) returns (ok: bool)
    requires WellFormed(fs.nodes) && src in fs.nodes && Apart(src, dst)
    modifies fs
    ensures ok <==> Resolve(old(fs.nodes), dst) != NotDir
    ensures !ok ==> fs.nodes == old(fs.nodes)
    ensures WellFormed(fs.nodes)
    ensures ok ==> TreeAt(fs.nodes, src) == None
    ensures ok ==> TreeAt(fs.nodes, dst) ==
                   Some(MoveResult(TreeOf(old(fs.nodes), src), TreeAt(old(fs.nodes), dst), preference))
    ensures ok ==> OnlyDirectoriesAdded(old(fs.nodes), fs.nodes, src, dst)
  {
    ghost var before, s, d := fs.nodes, TreeOf(fs.nodes, src), TreeAt(fs.nodes, dst);
    TreeAtHolds(before, src);
    TreeAtHolds(before, dst);
    HoldsRoot(before, dst, d);
    var stat := fs.Lstat(dst);
    if !stat.Found? {
      if stat == NotExist {
        ok := RenameWithParent(fs, src, dst, s);
        HoldsUnique(fs.nodes, src, None);
        HoldsUnique(fs.nodes, dst, Some(s));
        return;
      }
      return false;
    }
    var isDir := stat.node == Directory;
    if !isDir && preference == PreferDest {
      fs.RemoveAll(src);
      HoldsFrame(before, fs.nodes, src, src, dst, d);
      ok := true;
    } else if !isDir {
      ok := Replace(fs, src, dst, s);
    } else {
      ok := MergeDirWithPreferenceWalk(fs, src, dst, preference, s, d.value);
    }
    ghost var result := MoveResult(s, d, preference);
    ReplacedIsWellFormed(before, fs.nodes, src, dst, None, Some(result));
    HoldsUnique(fs.nodes, src, None);
    HoldsUnique(fs.nodes, dst, Some(result));
  }
}
