/** Directory trees and their overlay: what merging one tree into another is meant to give. */
module FileTrees {
  import opened Options

  type Path = seq<string>

  /** Anything that is not a directory is a file. */
  datatype Node = File(content: string) | Directory

  datatype Tree = Leaf(content: string) | Dir(children: map<string, Tree>)

  datatype Preference = PreferSrc | PreferDest

  /** The recursive overlay: directories merge by name, otherwise the winner's whole subtree stays. */
  ghost function Overlay(winner: Tree, other: Tree): Tree {
    if winner.Dir? && other.Dir? then
      Dir(map k | k in winner.children.Keys + other.children.Keys ::
            if k !in other.children then winner.children[k]
            else if k !in winner.children then other.children[k]
            else Overlay(winner.children[k], other.children[k]))
    else winner
  }

  ghost function Merge(src: Tree, dst: Option<Tree>, preference: Preference): Tree {
    if dst.None? then src
    else if preference == PreferSrc then Overlay(src, dst.value)
    else Overlay(dst.value, src)
  }

  ghost function NodeOf(t: Tree): Node {
    if t.Leaf? then File(t.content) else Directory
  }

  /** What a tree holds at a relative path. */
  ghost function Find(t: Tree, p: Path): Option<Node> {
    if p == [] then Some(NodeOf(t))
    else if t.Dir? && p[0] in t.children then Find(t.children[p[0]], p[1..])
    else None
  }

  ghost function Child(t: Tree, k: string): Option<Tree> {
    if t.Dir? && k in t.children then Some(t.children[k]) else None
  }

  ghost function FindIn(t: Option<Tree>, p: Path): Option<Node> {
    if t.None? then None else Find(t.value, p)
  }

  /** A file of `t` sits above `p`. */
  ghost predicate FileAbove(t: Tree, p: Path) {
    exists k: nat :: k < |p| && Find(t, p[..k]).Some? && Find(t, p[..k]).value.File?
  }

  // ----- Properties -----------------------------------------------------------------------------------

  lemma {:induction false} FileAboveChild(t: Tree, p: Path)
    requires p != [] && t.Dir?
    ensures FileAbove(t, p) <==> p[0] in t.children && FileAbove(t.children[p[0]], p[1..])
  {
    if FileAbove(t, p) {
      var k: nat :| k < |p| && Find(t, p[..k]).Some? && Find(t, p[..k]).value.File?;
      assert k > 0 && p[..k][0] == p[0] && p[..k][1..] == p[1..][..k - 1];
    }
    if p[0] in t.children && FileAbove(t.children[p[0]], p[1..]) {
      var k: nat :| k < |p[1..]| && Find(t.children[p[0]], p[1..][..k]).Some?
        && Find(t.children[p[0]], p[1..][..k]).value.File?;
      assert p[..k + 1][0] == p[0] && p[..k + 1][1..] == p[1..][..k];
      assert Find(t, p[..k + 1]) == Find(t.children[p[0]], p[1..][..k]);
    }
  }

  lemma {:induction false} NothingBelowFile(t: Tree, p: Path)
    requires t.Leaf? && p != []
    ensures Find(t, p).None? && FileAbove(t, p)
  {
    assert p[..0] == [] && Find(t, p[..0]) == Some(File(t.content));
  }

  lemma {:induction false} FoundHasNoFileAbove(t: Tree, p: Path)
    requires Find(t, p).Some?
    ensures !FileAbove(t, p)
    decreases p
  {
    if p != [] {
      FileAboveChild(t, p);
      FoundHasNoFileAbove(t.children[p[0]], p[1..]);
    }
  }

  /** The overlay, path by path, without recursion: the winner's entry if it has one there; nothing below a file of the
      winner; the other side's entry everywhere else. */
  lemma {:induction false} OverlayPointwise(winner: Tree, other: Tree, p: Path)
    ensures Find(Overlay(winner, other), p) ==
            if Find(winner, p).Some? then Find(winner, p)
            else if FileAbove(winner, p) then None
            else Find(other, p)
    decreases p
  {
    if p != [] {
      if winner.Leaf? {
        NothingBelowFile(winner, p);
      } else {
        FileAboveChild(winner, p);
        if other.Dir? {
          var k := p[0];
          if k in winner.children && k in other.children {
            OverlayPointwise(winner.children[k], other.children[k], p[1..]);
          }
        }
      }
    }
  }

  /** Nothing is invented, everything of the winner survives, and a file of the other side survives exactly when the
      winner has nothing at its path and no file above it (or holds the very same file there). */
  lemma {:induction false} OverlayConserves(winner: Tree, other: Tree, p: Path)
    ensures var merged := Overlay(winner, other);
            && (Find(merged, p).Some? ==> Find(merged, p) == Find(winner, p) || Find(merged, p) == Find(other, p))
            && (Find(winner, p).Some? ==> Find(merged, p) == Find(winner, p))
            && (Find(other, p).Some? && Find(other, p).value.File? ==>
                  (Find(merged, p) == Find(other, p)
                   <==> Find(winner, p) == Find(other, p) || (Find(winner, p).None? && !FileAbove(winner, p))))
  {
    OverlayPointwise(winner, other, p);
  }

  /** Trees that agree at every path are equal. */
  lemma {:induction false} TreesEqual(t: Tree, u: Tree)
    requires forall p :: Find(t, p) == Find(u, p)
    ensures t == u
    decreases t
  {
    assert Find(t, []) == Find(u, []);
    if t.Dir? {
      forall k
        ensures k in t.children <==> k in u.children
        ensures k in t.children && k in u.children ==> t.children[k] == u.children[k]
      {
        assert Find(t, [k]) == Find(u, [k]);
        assert [k][1..] == [];
        if k in t.children && k in u.children {
          forall p
            ensures Find(t.children[k], p) == Find(u.children[k], p)
          {
            assert ([k] + p)[1..] == p;
            assert Find(t, [k] + p) == Find(u, [k] + p);
          }
          TreesEqual(t.children[k], u.children[k]);
        }
      }
      assert t.children == u.children;
    }
  }

  /** Merging onto an empty directory changes nothing. */
  lemma {:induction false} OverlayEmpty(t: Tree)
    requires t.Dir?
    ensures Overlay(Dir(map[]), t) == t && Overlay(t, Dir(map[])) == t
  {
    assert Overlay(Dir(map[]), t).children == t.children;
    assert Overlay(t, Dir(map[])).children == t.children;
  }

  lemma {:induction false} FindParent(t: Tree, p: Path)
    requires p != [] && Find(t, p).Some?
    ensures Find(t, p[..|p| - 1]) == Some(Directory)
    decreases p
  {
    if |p| > 1 {
      FindParent(t.children[p[0]], p[1..]);
      assert p[1..][..|p| - 2] == p[..|p| - 1][1..];
    }
  }
}
