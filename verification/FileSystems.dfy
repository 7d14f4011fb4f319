/** A file system addressed by absolute paths, changed in place. */
module FileSystems {
  import opened Options
  import opened FileTrees

  type Nodes = map<Path, Node>

  ghost function At(nodes: Nodes, p: Path): Option<Node> {
    if p in nodes then Some(nodes[p]) else None
  }

  ghost function Parent(p: Path): Path
    requires p != []
  {
    p[..|p| - 1]
  }

  /** The root is a directory and everything else lies in a directory. */
  ghost predicate WellFormed(nodes: Nodes) {
    && At(nodes, []) == Some(Directory)
    && forall p :: p in nodes && p != [] ==> At(nodes, Parent(p)) == Some(Directory)
  }

  datatype Stat = Found(node: Node) | NotExist | NotDir

  /** Resolving a path: a missing component gives `NotExist`, a file in the middle of the path gives `NotDir`. */
  function Resolve(nodes: Nodes, p: Path): Stat {
    if p in nodes then Found(nodes[p])
    else if p == [] then NotExist
    else
      match Resolve(nodes, p[..|p| - 1])
      case Found(Directory) => NotExist
      case Found(File(_)) => NotDir
      case NotExist => NotExist
      case NotDir => NotDir
  }

  /** `t` is exactly what lies at and below `base`; `None` when there is nothing. */
  ghost predicate Holds(nodes: Nodes, base: Path, t: Option<Tree>) {
    forall p :: At(nodes, base + p) == FindIn(t, p)
  }

  /** Nothing changed except at or below `a` and `b`. */
  ghost predicate SameOutside(before: Nodes, after: Nodes, a: Path, b: Path) {
    forall p :: !(a <= p) && !(b <= p) ==> At(after, p) == At(before, p)
  }

  /** The paths part at some component: neither lies at or below the other. */
  ghost predicate Apart(a: Path, b: Path) {
    exists i :: 0 <= i < |a| && i < |b| && a[i] != b[i]
  }

  lemma {:induction false} ApartIffNeitherBelow(a: Path, b: Path)
    ensures Apart(a, b) <==> !(a <= b) && !(b <= a)
  {
    if !(a <= b) && !(b <= a) {
      if |a| <= |b| {
        assert a != b[..|a|];
        var i :| 0 <= i < |a| && a[i] != b[..|a|][i];
      } else {
        assert b != a[..|b|];
        var i :| 0 <= i < |b| && b[i] != a[..|b|][i];
      }
    }
  }

  lemma {:induction false} BelowParent(a: Path, p: Path)
    requires p != []
    ensures a <= Parent(p) ==> a <= p
    ensures a <= p && a != p ==> a <= Parent(p)
  {
    if a <= Parent(p) {
      assert a == Parent(p)[..|a|] == p[..|a|];
    }
    if a <= p && a != p {
      assert a == p[..|a|] == Parent(p)[..|a|];
    }
  }

  lemma {:induction false} AddedIsWellFormed(nodes: Nodes, p: Path)
    requires WellFormed(nodes) && p != [] && At(nodes, Parent(p)) == Some(Directory)
    ensures WellFormed(nodes[p := Directory])
  {
    var after := nodes[p := Directory];
    forall q | q in after && q != []
      ensures At(after, Parent(q)) == Some(Directory)
    {
      if q != p {
        assert At(nodes, Parent(q)) == Some(Directory);
      }
    }
  }

  class FileSystem {
    var nodes: Nodes

    constructor (nodes: Nodes)
      ensures this.nodes == nodes
    {
      this.nodes := nodes;
    }

    method Lstat(p: Path) returns (s: Stat)
      ensures s == Resolve(nodes, p)
    {
      s := Resolve(nodes, p);
    }

    /** The entries of a directory, each once, in some order. */
    method ReadDir(p: Path) returns (names: seq<string>)
      ensures forall k :: k in names <==> p + [k] in nodes
      ensures forall i, j :: 0 <= i < j < |names| ==> names[i] != names[j]
    {
      var remaining := set q | q in nodes && |q| == |p| + 1 && p <= q;
      ghost var all := remaining;
      names := [];
      while remaining != {}
        invariant remaining <= all
        invariant forall k :: k in names <==> p + [k] in all && p + [k] !in remaining
        invariant forall i, j :: 0 <= i < j < |names| ==> names[i] != names[j]
        decreases remaining
      {
        var q :| q in remaining;
        assert q == p + [q[|p|]];
        names := names + [q[|p|]];
        remaining := remaining - {q};
      }
    }

    /** Removes whatever lies at or below `p`. */
    method RemoveAll(p: Path)
      modifies this
      ensures Holds(nodes, p, None) && SameOutside(old(nodes), nodes, p, p)
    {
      nodes := map q | q in nodes && !(p <= q) :: nodes[q];
      assert forall q :: p <= p + q;
    }

    /** Moves whatever lies at or below `src`; fails without effect unless the source exists and the destination is
        free and lies in a directory outside the source. */
    method Rename(src: Path, dst: Path) returns (ok: bool)
      modifies this
      ensures ok <==> src in old(nodes) && dst !in old(nodes) && dst != [] && !(src <= dst)
                      && At(old(nodes), dst[..|dst| - 1]) == Some(Directory)
      ensures !ok ==> nodes == old(nodes)
      ensures ok ==> forall q ::
                At(nodes, q) == if dst <= q && src + q[|dst|..] in old(nodes) then At(old(nodes), src + q[|dst|..])
                                else if src <= q then None
                                else At(old(nodes), q)
    {
      if src !in nodes || dst in nodes || dst == [] || src <= dst
         || dst[..|dst| - 1] !in nodes || nodes[dst[..|dst| - 1]] != Directory {
        return false;
      }
      ghost var before := nodes;
      var targets := set q | q in nodes && src <= q :: dst + q[|src|..];
      forall q | dst <= q
        ensures q in targets <==> src + q[|dst|..] in nodes
      {
        if src + q[|dst|..] in nodes {
          var o := src + q[|dst|..];
          assert src <= o && dst + o[|src|..] == q;
        }
        if q in targets {
          var o :| o in nodes && src <= o && dst + o[|src|..] == q;
          assert src + q[|dst|..] == o;
        }
      }
      forall q | q in targets
        ensures dst <= q && src + q[|dst|..] in nodes
      {
        var o :| o in nodes && src <= o && dst + o[|src|..] == q;
        assert src + q[|dst|..] == o;
      }
      var moved := map q | q in targets :: nodes[src + q[|dst|..]];
      nodes := (map q | q in nodes && !(src <= q) :: nodes[q]) + moved;
      return true;
    }

    /** Creates the directory and any missing ancestors; fails at a file on the way. */
    method MkdirAll(p: Path) returns (ok: bool)
      modifies this
      ensures At(old(nodes), p) == Some(Directory) ==> ok && nodes == old(nodes)
      ensures WellFormed(old(nodes)) ==> WellFormed(nodes)
      ensures WellFormed(old(nodes)) ==>
                (ok <==> Resolve(old(nodes), p) == Found(Directory) || Resolve(old(nodes), p) == NotExist)
      ensures ok ==> At(nodes, p) == Some(Directory)
      ensures !ok ==> nodes == old(nodes)
      ensures forall q ::
                At(nodes, q) == At(old(nodes), q)
                || (q <= p && At(old(nodes), q) == None && At(nodes, q) == Some(Directory))
      decreases |p|
    {
      if p in nodes {
        return nodes[p] == Directory;
      }
      if p != [] {
        ok := MkdirAll(p[..|p| - 1]);
        if !ok {
          return false;
        }
        assert p[..|p| - 1] <= p;
      }
      ghost var mid := nodes;
      nodes := nodes[p := Directory];
      if WellFormed(mid) && p != [] {
        AddedIsWellFormed(mid, p);
      }
      return true;
    }
  }

  // ----- The tree at a path -----------------------------------------------------------------------------

  ghost function Below(nodes: Nodes, base: Path): set<Path> {
    set q | q in nodes && base <= q
  }

  ghost function EntryNames(nodes: Nodes, base: Path): set<string> {
    set q | q in nodes && |q| == |base| + 1 && base <= q :: q[|base|]
  }

  lemma {:induction false} EntryInside(nodes: Nodes, base: Path, k: string)
    requires base in nodes
    ensures k in EntryNames(nodes, base) <==> base + [k] in nodes
    ensures Below(nodes, base + [k]) < Below(nodes, base)
  {
    if base + [k] in nodes {
      assert (base + [k])[|base|] == k;
    }
    if k in EntryNames(nodes, base) {
      var q :| q in nodes && |q| == |base| + 1 && base <= q && q[|base|] == k;
      assert q == base + [k];
    }
    assert base in Below(nodes, base) && base !in Below(nodes, base + [k]);
    forall q | q in Below(nodes, base + [k])
      ensures q in Below(nodes, base)
    {
      assert base <= base + [k] <= q;
    }
  }

  /** The tree that lies at an existing path. */
  ghost function TreeOf(nodes: Nodes, base: Path): Tree
    requires base in nodes
    decreases Below(nodes, base)
  {
    match nodes[base]
    case File(c) => Leaf(c)
    case Directory =>
      Dir(map k | k in EntryNames(nodes, base) ::
            (EntryInside(nodes, base, k); TreeOf(nodes, base + [k])))
  }

  ghost function TreeAt(nodes: Nodes, base: Path): Option<Tree> {
    if base in nodes then Some(TreeOf(nodes, base)) else None
  }

  /** In a well-formed file system every path holds exactly the tree at it. */
  lemma {:induction false} TreeAtHolds(nodes: Nodes, base: Path)
    requires WellFormed(nodes)
    ensures Holds(nodes, base, TreeAt(nodes, base))
  {
    forall p
      ensures At(nodes, base + p) == FindIn(TreeAt(nodes, base), p)
    {
      if base in nodes {
        FindInTree(nodes, base, p);
      } else {
        NothingBelowMissing(nodes, base, p);
      }
    }
  }

  lemma {:induction false} FindInTree(nodes: Nodes, base: Path, p: Path)
    requires WellFormed(nodes) && base in nodes
    ensures At(nodes, base + p) == Find(TreeOf(nodes, base), p)
    decreases p
  {
    if p == [] {
      assert base + p == base;
    } else {
      EntryInside(nodes, base, p[0]);
      assert base + p == base + [p[0]] + p[1..];
      assert Parent(base + [p[0]]) == base;
      if base + [p[0]] in nodes {
        FindInTree(nodes, base + [p[0]], p[1..]);
      } else {
        NothingBelowMissing(nodes, base + [p[0]], p[1..]);
      }
    }
  }

  lemma {:induction false} NothingBelowMissing(nodes: Nodes, base: Path, p: Path)
    requires WellFormed(nodes) && base !in nodes
    ensures base + p !in nodes
    decreases p
  {
    if p == [] {
      assert base + p == base;
    } else {
      NothingBelowMissing(nodes, base, p[..|p| - 1]);
      assert Parent(base + p) == base + p[..|p| - 1];
    }
  }

  /** Only one tree can lie at a path. */
  lemma {:induction false} HoldsUnique(nodes: Nodes, base: Path, t: Option<Tree>)
    requires WellFormed(nodes) && Holds(nodes, base, t)
    ensures TreeAt(nodes, base) == t
  {
    TreeAtHolds(nodes, base);
    var u := TreeAt(nodes, base);
    assert At(nodes, base + []) == FindIn(t, []) == FindIn(u, []);
    if t.Some? {
      forall p
        ensures Find(t.value, p) == Find(u.value, p)
      {
        assert At(nodes, base + p) == FindIn(t, p) == FindIn(u, p);
      }
      TreesEqual(t.value, u.value);
    }
  }

  /** Replacing what lies at one path by a tree, and emptying another, keeps the file system well-formed. */
  lemma {:induction false} ReplacedIsWellFormed(before: Nodes, after: Nodes, src: Path, dst: Path, s: Option<Tree>,
                                                d: Option<Tree>)
    requires WellFormed(before) && SameOutside(before, after, src, dst) && src != [] && dst != []
    requires Holds(after, src, s) && Holds(after, dst, d)
    requires s.None? || At(before, Parent(src)) == Some(Directory)
    requires d.None? || At(before, Parent(dst)) == Some(Directory)
    requires Apart(src, dst) || src == dst
    ensures WellFormed(after)
  {
    ApartIffNeitherBelow(src, dst);
    forall q | q in after && q != []
      ensures At(after, Parent(q)) == Some(Directory)
    {
      if src <= q {
        HeldParent(before, after, src, dst, s, q);
      } else if dst <= q {
        HeldParent(before, after, dst, src, d, q);
      } else {
        assert At(before, q) == At(after, q);
        assert !(src <= Parent(q)) && !(dst <= Parent(q)) by {
          assert Parent(q) <= q;
        }
      }
    }
    assert !(src <= []) && !(dst <= []);
  }

  lemma {:induction false} HeldParent(before: Nodes, after: Nodes, a: Path, b: Path, t: Option<Tree>, q: Path)
    requires SameOutside(before, after, a, b) && a != [] && (Apart(a, b) || a == b)
    requires Holds(after, a, t) && a <= q && q in after
    requires t.None? || At(before, Parent(a)) == Some(Directory)
    ensures At(after, Parent(q)) == Some(Directory)
  {
    var p := q[|a|..];
    assert q == a + p;
    assert FindIn(t, p).Some?;
    if p == [] {
      ApartIffNeitherBelow(a, b);
      assert q == a && !(a <= Parent(a));
      BelowParent(b, a);
    } else {
      FindParent(t.value, p);
      assert Parent(q) == a + p[..|p| - 1];
      assert At(after, a + p[..|p| - 1]) == FindIn(t, p[..|p| - 1]);
    }
  }
}
