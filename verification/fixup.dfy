/**
 * `RedBlackTree.enforceRBTreePropertiesAfterInsert(red)`.  The two mirrored
 * branches of the Java method are written once, for `side`, the side on
 * which the parent of `red` hangs below the grandparent (`true` is left).
 * Case 1 (red uncle) blackens the parent and the uncle and starts again at
 * the grandparent; otherwise case 3 straightens a zig-zag with one rotation
 * and case 2 rotates the parent above the grandparent and recolours.
 * Whatever the colours, the fix-up keeps the links consistent, keeps the
 * in-order sequence of values, keeps every value in its node and leaves the
 * root black.
 */
module FixUp {
  import opened Trees
  import opened Arenas
  import opened Rotation

  /** The links form `t` and the root is black: what every step of the fix-up needs and keeps. */
  ghost predicate Fixable(a: Arena, t: Tree)
  {
    Holds(a, t) && RootBlack(a)
  }

  /** The parent and the grandparent of a node below the root, and their depths. */
  lemma Lineage(a: Arena, t: Tree, x: int)
    requires Fixable(a, t) && 0 <= x < |a.data| && x != a.root
    ensures x in Ids(t) && 0 <= a.parent[x] < |a.data| && a.parent[x] in Ids(t)
    ensures a.left[a.parent[x]] == x || a.right[a.parent[x]] == x
    ensures Depth(t, a.parent[x]) + 1 == Depth(t, x)
    ensures a.parent[x] != a.root ==>
              0 <= a.parent[a.parent[x]] < |a.data| && a.parent[a.parent[x]] in Ids(t) &&
              Depth(t, a.parent[a.parent[x]]) + 2 == Depth(t, x)
  {
    HoldsTop(a, t);
    assert x in Ids(t);
    ParentLink(a.left, a.right, a.parent, t, a.root, -1, x);
    if a.parent[x] != a.root {
      ParentLink(a.left, a.right, a.parent, t, a.root, -1, a.parent[x]);
    }
  }

  /** A node that hangs on the given side of its parent is not the parent's child on the other side. */
  lemma OneSide(a: Arena, t: Tree, x: int)
    requires Fixable(a, t) && 0 <= x < |a.data| && x != a.root
    ensures 0 <= a.parent[x] < |a.data|
    ensures IsLeftChild(a, x) <==> a.left[a.parent[x]] == x
    ensures !IsLeftChild(a, x) <==> a.right[a.parent[x]] == x
  {
    Lineage(a, t, x);
    ChildLink(a.left, a.right, a.parent, t, a.root, -1, a.parent[x]);
  }

  /**
   * Case 3: when `red` hangs on the other side of its parent than the parent
   * of its grandparent, rotate it above its parent and continue with the old
   * parent.  Returns the new store, its tree and the node to continue with.
   */
  ghost function Straighten(a: Arena, t: Tree, red: int, side: bool): (r: (Arena, Tree, int))
    requires Fixable(a, t) && 0 <= red < |a.data| && red != a.root
    requires 0 <= a.parent[red] && a.parent[red] != a.root && side == IsLeftChild(a, a.parent[red])
    ensures Fixable(r.0, r.1) && r.0.data == a.data && r.0.black == a.black && r.0.root == a.root
    ensures Keys(a.data, r.1) == Keys(a.data, t)
    ensures 0 <= r.2 < |a.data| && r.2 != r.0.root
    ensures 0 <= r.0.parent[r.2] < |a.data| && r.0.parent[r.2] != r.0.root && r.0.parent[r.0.parent[r.2]] == a.parent[a.parent[red]]
    ensures IsLeftChild(r.0, r.2) == side && IsLeftChild(r.0, r.0.parent[r.2]) == side
  {
    var p := a.parent[red];
    Lineage(a, t, red);
    Lineage(a, t, p);
    OneSide(a, t, red);
    OneSide(a, t, p);
    ChildLink(a.left, a.right, a.parent, t, a.root, -1, a.parent[p]);
    if IsLeftChild(a, red) != side then
      RotateHolds(a, t, red, p);
      RotatedTreeKeys(a.data, t, red, p);
      var a1 := Rotated(a, red, p);
      var t1 := RotatedTree(t, red, p);
      ChildLink(a1.left, a1.right, a1.parent, t1, a1.root, -1, red);
      (a1, t1, Child(a1, red, side))
    else
      (a, t, red)
  }

  /**
   * Rotating the parent `p1` of `red1` above the grandparent, when both hang
   * on the same side: `red1` keeps its parent, the old grandparent ends up
   * on the far side of `p1`, and `p1` becomes the root if the grandparent was.
   */
  lemma OuterRotation(a: Arena, t: Tree, red1: int, side: bool)
    requires Fixable(a, t) && 0 <= red1 < |a.data| && red1 != a.root
    requires 0 <= a.parent[red1] < |a.data| && a.parent[red1] != a.root
    requires IsLeftChild(a, red1) == side && IsLeftChild(a, a.parent[red1]) == side
    ensures var g1 := a.parent[a.parent[red1]];
            0 <= g1 < |a.data| && a.parent[red1] != g1 && (g1 != a.root ==> a.parent[g1] != -1)
    ensures var p1 := a.parent[red1];
            var g1 := a.parent[p1];
            var a2 := Rotated(a, p1, g1);
            Holds(a2, RotatedTree(t, p1, g1)) && a2.data == a.data && a2.black == a.black &&
            a2.parent[red1] == p1 && Child(a2, p1, !side) == g1 &&
            a2.root == (if g1 == a.root then p1 else a.root)
  {
    var p1 := a.parent[red1];
    Lineage(a, t, red1);
    OneSide(a, t, red1);
    OneSide(a, t, p1);
    var g1 := a.parent[p1];
    RotateHolds(a, t, p1, g1);
    ChildLink(a.left, a.right, a.parent, t, a.root, -1, p1);
  }

  /** Recolouring keeps the links, and the root stays black when it is the blackened node or not the reddened one. */
  lemma RecolourFixable(a: Arena, t: Tree, red: int, black: int)
    requires Holds(a, t) && 0 <= red < |a.data| && 0 <= black < |a.data|
    requires a.root == black || (a.root != red && RootBlack(a))
    ensures Fixable(a.(black := a.black[red := false][black := true]), t)
  {
    var a3 := a.(black := a.black[red := false][black := true]);
    assert Shape(a3);
  }

  /**
   * Case 2: `red1` and its parent `p1` hang on the same side; rotate `p1`
   * above the grandparent `g1`, then redden `g1`, now on the far side of
   * `p1`, and blacken `p1`.
   */
  ghost function Promote(a: Arena, t: Tree, red1: int, side: bool): (r: (Arena, Tree))
    requires Fixable(a, t) && 0 <= red1 < |a.data| && red1 != a.root
    requires 0 <= a.parent[red1] < |a.data| && a.parent[red1] != a.root
    requires IsLeftChild(a, red1) == side && IsLeftChild(a, a.parent[red1]) == side
    ensures Fixable(r.0, r.1) && r.0.data == a.data
    ensures Keys(a.data, r.1) == Keys(a.data, t)
  {
    var p1 := a.parent[red1];
    var g1 := a.parent[p1];
    OuterRotation(a, t, red1, side);
    RotatedTreeKeys(a.data, t, p1, g1);
    var a2 := Rotated(a, p1, g1);
    RecolourFixable(a2, RotatedTree(t, p1, g1), g1, p1);
    (a2.(black := a2.black[g1 := false][p1 := true]), RotatedTree(t, p1, g1))
  }

  /** Cases 3 and 2 together: straighten a zig-zag, then promote the parent. */
  ghost function Restructure(a: Arena, t: Tree, red: int, side: bool): (r: (Arena, Tree))
    requires Fixable(a, t) && 0 <= red < |a.data| && red != a.root
    requires 0 <= a.parent[red] && a.parent[red] != a.root && side == IsLeftChild(a, a.parent[red])
    ensures Fixable(r.0, r.1) && r.0.data == a.data
    ensures Keys(a.data, r.1) == Keys(a.data, t)
  {
    var s := Straighten(a, t, red, side);
    Promote(s.0, s.1, s.2, side)
  }

  /** `enforceRBTreePropertiesAfterInsert(red)` (RedBlackTree.java:186-219). */
  ghost function FixupS(a: Arena, t: Tree, red: int): (r: (Arena, Tree))
    requires Fixable(a, t) && 0 <= red < |a.data|
    ensures Fixable(r.0, r.1) && r.0.data == a.data
    ensures Keys(a.data, r.1) == Keys(a.data, t)
    decreases Depth(t, red)
  {
    if red == a.root then (a, t)
    else
      Lineage(a, t, red);
      var p := a.parent[red];
      if a.black[p] then (a, t)
      else
      var side := IsLeftChild(a, p);
      var g := a.parent[p];
      var uncle := Child(a, g, !side);
      if uncle != -1 && !a.black[uncle] then
        // case 1: the uncle is red
        var a1 := a.(black := a.black[p := true][uncle := true]);
        FixupS(a1, t, g)
      else
        Restructure(a, t, red, side)
  }

  /** `k` fix-ups of the same node one after the other, as the `k` frames of `insertHelper` perform them. */
  ghost function FixupIter(a: Arena, t: Tree, red: int, k: nat): (r: (Arena, Tree))
    requires Fixable(a, t) && 0 <= red < |a.data|
    ensures Fixable(r.0, r.1) && r.0.data == a.data
    ensures Keys(a.data, r.1) == Keys(a.data, t)
  {
    if k == 0 then (a, t)
    else
      var r := FixupIter(a, t, red, k - 1);
      FixupS(r.0, r.1, red)
  }
}
