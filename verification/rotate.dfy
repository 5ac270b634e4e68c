/**
 * `RedBlackTree.rotate(child, parent)`: the child takes the parent's place,
 * the parent becomes the child's child on the opposite side and takes over
 * the child's inner subtree.  `Rotated` follows the Java statements in
 * their order; `RotateHolds` proves that on a well-linked store it performs
 * exactly the tree rotation `RotatedTree`, so links stay consistent and the
 * in-order sequence and all colours are unchanged.
 */
module Rotation {
  import opened Trees
  import opened Arenas

  /** The first statements of `rotate(c, p)`: the link that led to the parent now leads to the child (RedBlackTree.java:154-161). */
  function Relinked(a: Arena, c: int, p: int): (r: Arena)
    requires Shape(a) && 0 <= c < |a.data| && 0 <= p < |a.data|
    requires p != a.root ==> a.parent[p] != -1
    ensures Shape(r) && r.data == a.data && r.black == a.black && r.parent == a.parent
  {
    if p == a.root then a.(root := c)
    else if IsLeftChild(a, p) then a.(left := a.left[a.parent[p] := c])
    else a.(right := a.right[a.parent[p] := c])
  }

  /** The middle statements: the child's inner subtree moves under the parent, and the parent under the child (RedBlackTree.java:162-172). */
  function Swapped(a: Arena, c: int, p: int): (r: Arena)
    requires Shape(a) && 0 <= c < |a.data| && 0 <= p < |a.data|
    ensures r.data == a.data && r.black == a.black && r.root == a.root && |r.parent| == |a.parent|
  {
    if IsLeftChild(a, c) then
      var l := a.left[p := a.right[c]];
      var up := if l[p] != -1 then a.parent[l[p] := p] else a.parent;
      a.(left := l, parent := up, right := a.right[c := p])
    else
      var rr := a.right[p := a.left[c]];
      var up := if rr[p] != -1 then a.parent[rr[p] := p] else a.parent;
      a.(right := rr, parent := up, left := a.left[c := p])
  }

  /** The store after `rotate(c, p)`, statement by statement (RedBlackTree.java:154-174). */
  function Rotated(a: Arena, c: int, p: int): (r: Arena)
    requires Shape(a) && 0 <= c < |a.data| && 0 <= p < |a.data| && a.parent[c] == p
    requires p != a.root ==> a.parent[p] != -1
    ensures r.data == a.data && r.black == a.black
  {
    var a2 := Swapped(Relinked(a, c, p), c, p);
    // the child takes the parent's parent, and the parent the child
    var a3 := a2.(parent := a2.parent[c := a2.parent[p]]);
    a3.(parent := a3.parent[p := c])
  }

  /**
   * The links after rotating `c` above its parent `p`, node by node: only the
   * child, the parent, the grandparent `g` and the top `b` of the child's
   * inner subtree change links.
   */
  ghost predicate RotationLinks(a: Arena, c: int, p: int, r: Arena)
    requires Shape(a) && 0 <= c < |a.data| && 0 <= p < |a.data|
  {
    KeptLinks(a, c, p, r) && MovedLinks(a, c, p, r)
  }

  /** The links of the nodes that take no part in the rotation. */
  ghost predicate KeptLinks(a: Arena, c: int, p: int, r: Arena)
    requires Shape(a) && 0 <= c < |a.data| && 0 <= p < |a.data|
  {
    var n := |a.data|;
    var g := a.parent[p];
    var b := if a.left[p] == c then a.right[c] else a.left[c];
    |r.left| == n && |r.right| == n && |r.parent| == n &&
    (forall x :: 0 <= x < n && x != p && x != c && x != g ==> r.left[x] == a.left[x] && r.right[x] == a.right[x]) &&
    (forall x :: 0 <= x < n && x != p && x != c && x != b ==> r.parent[x] == a.parent[x])
  }

  /** The links of the child, the parent, the grandparent and the top of the inner subtree. */
  ghost predicate MovedLinks(a: Arena, c: int, p: int, r: Arena)
    requires Shape(a) && 0 <= c < |a.data| && 0 <= p < |a.data|
    requires |r.left| == |a.data| && |r.right| == |a.data| && |r.parent| == |a.data|
  {
    var g := a.parent[p];
    var isLeft := a.left[p] == c;
    var b := if isLeft then a.right[c] else a.left[c];
    (isLeft ==> r.left[p] == b && r.right[p] == a.right[p] && r.left[c] == a.left[c] && r.right[c] == p) &&
    (!isLeft ==> r.right[p] == b && r.left[p] == a.left[p] && r.right[c] == a.right[c] && r.left[c] == p) &&
    r.parent[c] == g && r.parent[p] == c && (b != -1 ==> r.parent[b] == p) &&
    (g != -1 && a.left[g] == p ==> r.left[g] == c && r.right[g] == a.right[g]) &&
    (g != -1 && a.left[g] != p ==> r.right[g] == c && r.left[g] == a.left[g])
  }

  /** Where the nodes taking part in a rotation sit, in a well-linked store. */
  lemma RotationSetting(a: Arena, t: Tree, c: int, p: int)
    requires Holds(a, t) && 0 <= c < |a.data| && a.parent[c] == p && p != -1
    ensures 0 <= p < |a.data| && c != p && c != a.root && p in Ids(t) && c in Ids(t)
    ensures a.left[p] == c || a.right[p] == c
    ensures a.left[p] != a.right[p]
    ensures p == a.root <==> a.parent[p] == -1
    ensures p != a.root ==> (a.left[a.parent[p]] == p || a.right[a.parent[p]] == p)
    ensures p != a.root ==> a.left[a.parent[p]] != a.right[a.parent[p]]
    ensures a.parent[p] != c && a.parent[p] != p
    ensures var b := if a.left[p] == c then a.right[c] else a.left[c];
            b != -1 ==> b != c && b != p && b != a.parent[p] && a.parent[b] == c
    ensures var f := Find(t, p);
            Represents(a.left, a.right, a.parent, f, p, a.parent[p]) && Unique(f) && a.parent[p] !in Ids(f)
    ensures var f := Find(t, p);
            (a.left[p] == c ==> f.left.Node? && f.left.id == c) && (a.left[p] != c ==> f.right.Node? && f.right.id == c)
  {
    var L, R, P := a.left, a.right, a.parent;
    HoldsTop(a, t);
    assert p in Ids(t) && c in Ids(t);
    assert c != a.root;
    ParentLink(L, R, P, t, a.root, -1, c);
    ChildLink(L, R, P, t, a.root, -1, p);
    ChildLink(L, R, P, t, a.root, -1, c);
    FindRepresents(L, R, P, t, a.root, -1, p);
    var f := Find(t, p);
    if p != a.root {
      ParentLink(L, R, P, t, a.root, -1, p);
      ChildLink(L, R, P, t, a.root, -1, P[p]);
    }
    var b := if L[p] == c then R[c] else L[c];
    if L[p] == c {
      assert Represents(L, R, P, f.left, c, p);
      assert Represents(L, R, P, f.left.right, R[c], c);
      assert c in Ids(f.left);
      if b != -1 {
        assert b in Ids(f.left.right);
      }
    } else {
      assert Represents(L, R, P, f.right, c, p);
      assert Represents(L, R, P, f.right.left, L[c], c);
      assert c in Ids(f.right);
      if b != -1 {
        assert b in Ids(f.right.left);
      }
    }
  }

  /** The statements of `rotate` leave the links of the other nodes alone. */
  lemma RotatedKeeps(a: Arena, t: Tree, c: int, p: int)
    requires Holds(a, t) && 0 <= c < |a.data| && a.parent[c] == p && p != -1
    ensures 0 <= p < |a.data| && (p != a.root ==> a.parent[p] != -1)
    ensures KeptLinks(a, c, p, Rotated(a, c, p))
  {
    RotationSetting(a, t, c, p);
  }

  /** The statements of `rotate` relink the child, the parent, the grandparent and the top of the inner subtree. */
  lemma RotatedMoves(a: Arena, t: Tree, c: int, p: int)
    requires Holds(a, t) && 0 <= c < |a.data| && a.parent[c] == p && p != -1
    ensures 0 <= p < |a.data| && (p != a.root ==> a.parent[p] != -1)
    ensures KeptLinks(a, c, p, Rotated(a, c, p)) && MovedLinks(a, c, p, Rotated(a, c, p))
    ensures Rotated(a, c, p).root == if p == a.root then c else a.root
  {
    RotationSetting(a, t, c, p);
    RotatedKeeps(a, t, c, p);
  }

  /** The statements of `rotate` produce exactly the links of `RotationLinks`. */
  lemma RotatedLinks(a: Arena, t: Tree, c: int, p: int)
    requires Holds(a, t) && 0 <= c < |a.data| && a.parent[c] == p && p != -1
    ensures 0 <= p < |a.data| && (p != a.root ==> a.parent[p] != -1)
    ensures RotationLinks(a, c, p, Rotated(a, c, p))
    ensures Rotated(a, c, p).root == if p == a.root then c else a.root
  {
    RotatedMoves(a, t, c, p);
  }

  /**
   * A subtree of the rotated node, with top `top`, that the rotation leaves
   * in place except for the parent link of its top, now `pp2`.
   */
  lemma MovedSubtree(a: Arena, r: Arena, X: Tree, top: int, pp: int, pp2: int, c: int, p: int)
    requires Shape(a) && 0 <= c < |a.data| && 0 <= p < |a.data| && RotationLinks(a, c, p, r)
    requires Apart(a, X, top, pp, c, p)
    requires X.Node? ==> r.parent[top] == pp2
    ensures Represents(r.left, r.right, r.parent, X, top, pp2)
  {
    RepresentsInRange(a.left, a.right, a.parent, X, top, pp);
    Frame(a.left, a.right, a.parent, r.left, r.right, r.parent, X, top, pp, pp2);
  }

  /**
   * A subtree `X` below `top` (whose parent is `pp`) that holds none of the
   * nodes a rotation of `c` above `p` relinks, except possibly its own top.
   */
  ghost predicate Apart(a: Arena, X: Tree, top: int, pp: int, c: int, p: int)
    requires Shape(a) && 0 <= c < |a.data| && 0 <= p < |a.data|
  {
    var b := if a.left[p] == c then a.right[c] else a.left[c];
    Represents(a.left, a.right, a.parent, X, top, pp) && Unique(X) &&
    a.parent[p] !in Ids(X) && c !in Ids(X) && p !in Ids(X) && (b != top ==> b !in Ids(X))
  }

  /** The three subtrees around a child `c` on the left of `p`, which the rotation moves whole. */
  lemma NodeSidesLeft(a: Arena, s: Tree, c: int, p: int)
    requires Shape(a) && 0 <= c < |a.data| && 0 <= p < |a.data| && a.parent[c] == p
    requires Represents(a.left, a.right, a.parent, s, p, a.parent[p]) && Unique(s) && a.parent[p] !in Ids(s)
    requires a.left[p] == c && s.left.Node? && s.left.id == c
    ensures var L, R, P := a.left, a.right, a.parent;
            Apart(a, s.left.left, L[c], c, c, p) && Apart(a, s.left.right, R[c], c, c, p) && Apart(a, s.right, R[p], p, c, p) &&
            (L[c] != -1 ==> L[c] != p && L[c] != c && L[c] != R[c] && P[L[c]] == c) &&
            (R[p] != -1 ==> R[p] != p && R[p] != c && R[p] != R[c] && P[R[p]] == p)
  {
    var L, R, P := a.left, a.right, a.parent;
    var cs := s.left;
    var A, B, C := cs.left, cs.right, s.right;
    RepresentsInRange(L, R, P, s, p, P[p]);
    assert Unique(cs) && Ids(cs) <= Ids(s) && Ids(cs) !! Ids(C);
    assert Represents(L, R, P, cs, c, p) && Represents(L, R, P, A, L[c], c) && Represents(L, R, P, B, R[c], c);
    assert Ids(A) <= Ids(s) && Ids(A) !! Ids(B) && c !in Ids(A) && p !in Ids(A);
    assert P[p] !in Ids(A);
    if R[c] != -1 {
      assert R[c] in Ids(B);
    }
    if L[c] != -1 {
      assert L[c] in Ids(A);
    }
    if R[p] != -1 {
      assert R[p] in Ids(C);
    }
  }

  /** The three subtrees around a child `c` on the right of `p`. */
  lemma NodeSidesRight(a: Arena, s: Tree, c: int, p: int)
    requires Shape(a) && 0 <= c < |a.data| && 0 <= p < |a.data| && a.parent[c] == p
    requires Represents(a.left, a.right, a.parent, s, p, a.parent[p]) && Unique(s) && a.parent[p] !in Ids(s)
    requires a.left[p] != c && s.right.Node? && s.right.id == c
    ensures var L, R, P := a.left, a.right, a.parent;
            Apart(a, s.left, L[p], p, c, p) && Apart(a, s.right.left, L[c], c, c, p) && Apart(a, s.right.right, R[c], c, c, p) &&
            (L[p] != -1 ==> L[p] != p && L[p] != c && L[p] != L[c] && P[L[p]] == p) &&
            (R[c] != -1 ==> R[c] != p && R[c] != c && R[c] != L[c] && P[R[c]] == c)
  {
    var L, R, P := a.left, a.right, a.parent;
    var cs := s.right;
    var A, B, C := s.left, cs.left, cs.right;
    RepresentsInRange(L, R, P, s, p, P[p]);
    assert Unique(cs) && Ids(cs) <= Ids(s) && Ids(A) !! Ids(cs) && p !in Ids(A) && c !in Ids(A);
    assert Ids(C) <= Ids(s) && c !in Ids(C) && p !in Ids(C);
    assert P[p] !in Ids(A) && P[p] !in Ids(C);
    if L[p] != -1 {
      assert L[p] in Ids(A);
    }
    assert Represents(L, R, P, cs, c, p) && Represents(L, R, P, C, R[c], c) && Represents(L, R, P, B, L[c], c);
    if L[c] != -1 {
      assert L[c] in Ids(B);
    }
    if R[c] != -1 {
      assert R[c] in Ids(C);
    }
  }

  /** The rotation at the node itself, the child being the left child. */
  lemma RotatedNodeLeft(a: Arena, r: Arena, s: Tree, c: int, p: int)
    requires Shape(a) && 0 <= c < |a.data| && 0 <= p < |a.data| && a.parent[c] == p && RotationLinks(a, c, p, r)
    requires Represents(a.left, a.right, a.parent, s, p, a.parent[p]) && Unique(s) && a.parent[p] !in Ids(s)
    requires a.left[p] == c && s.left.Node? && s.left.id == c
    ensures Represents(r.left, r.right, r.parent, Node(s.left.left, c, Node(s.left.right, p, s.right)), c, a.parent[p])
  {
    var L, R := a.left, a.right;
    NodeSidesLeft(a, s, c, p);
    MovedSubtree(a, r, s.left.left, L[c], c, c, c, p);
    MovedSubtree(a, r, s.left.right, R[c], c, p, c, p);
    MovedSubtree(a, r, s.right, R[p], p, p, c, p);
  }

  /** The rotation at the node itself, the child being the right child. */
  lemma RotatedNodeRight(a: Arena, r: Arena, s: Tree, c: int, p: int)
    requires Shape(a) && 0 <= c < |a.data| && 0 <= p < |a.data| && a.parent[c] == p && RotationLinks(a, c, p, r)
    requires Represents(a.left, a.right, a.parent, s, p, a.parent[p]) && Unique(s) && a.parent[p] !in Ids(s)
    requires a.left[p] != c && s.right.Node? && s.right.id == c
    ensures Represents(r.left, r.right, r.parent, Node(Node(s.left, p, s.right.left), c, s.right.right), c, a.parent[p])
  {
    var L, R := a.left, a.right;
    NodeSidesRight(a, s, c, p);
    MovedSubtree(a, r, s.left, L[p], p, p, c, p);
    MovedSubtree(a, r, s.right.left, L[c], c, p, c, p);
    MovedSubtree(a, r, s.right.right, R[c], c, c, c, p);
  }

  /** The rotation at the node itself: the child's subtree takes the parent's place. */
  lemma RotatedNodeLinks(a: Arena, r: Arena, s: Tree, c: int, p: int)
    requires Shape(a) && 0 <= c < |a.data| && 0 <= p < |a.data| && a.parent[c] == p && RotationLinks(a, c, p, r)
    requires Represents(a.left, a.right, a.parent, s, p, a.parent[p]) && Unique(s) && a.parent[p] !in Ids(s)
    requires a.left[p] == c ==> s.left.Node? && s.left.id == c
    requires a.left[p] != c ==> s.right.Node? && s.right.id == c
    ensures Represents(r.left, r.right, r.parent, RotatedNode(s, c), c, a.parent[p])
  {
    if a.left[p] == c {
      RotatedNodeLeft(a, r, s, c, p);
    } else {
      assert s.left.Node? ==> s.left.id != c by {
        assert Unique(s) && Represents(a.left, a.right, a.parent, s.right, a.right[p], p);
        assert c in Ids(s.right);
      }
      RotatedNodeRight(a, r, s, c, p);
    }
  }

  /** A subtree holding the rotated parent also holds the child, the top of the inner subtree and, unless the parent is its top, the grandparent. */
  lemma PathInside(a: Arena, X: Tree, top: int, pp: int, c: int, p: int)
    requires Shape(a) && 0 <= c < |a.data| && 0 <= p < |a.data| && a.parent[c] == p && (a.left[p] == c || a.right[p] == c)
    requires Represents(a.left, a.right, a.parent, X, top, pp) && Unique(X) && p in Ids(X) && pp !in Ids(X)
    ensures var b := if a.left[p] == c then a.right[c] else a.left[c];
            c in Ids(X) && (b != -1 ==> b in Ids(X)) && (a.parent[p] != pp ==> a.parent[p] in Ids(X))
    ensures a.parent[p] == pp <==> top == p
  {
    var L, R, P := a.left, a.right, a.parent;
    ChildLink(L, R, P, X, top, pp, p);
    ChildLink(L, R, P, X, top, pp, c);
    if top != p {
      ParentLink(L, R, P, X, top, pp, p);
    }
  }

  /**
   * Where the nodes of a rotation sit relative to a node `i` above the
   * parent `p`, which lies in the subtree `X` of `i` on one side, `Y` being
   * the subtree on the other side, below the link `ty`.
   */
  lemma PathSides(a: Arena, X: Tree, tx: int, Y: Tree, ty: int, i: int, c: int, p: int)
    requires Shape(a) && 0 <= c < |a.data| && 0 <= p < |a.data| && a.parent[c] == p && (a.left[p] == c || a.right[p] == c)
    requires 0 <= i && Represents(a.left, a.right, a.parent, X, tx, i) && Unique(X) && p in Ids(X) && i !in Ids(X)
    requires Represents(a.left, a.right, a.parent, Y, ty, i) && Unique(Y) && i !in Ids(Y) && Ids(X) !! Ids(Y)
    ensures var b := if a.left[p] == c then a.right[c] else a.left[c];
            i != p && i != c && i != b && (a.parent[p] == i <==> tx == p) &&
            a.parent[p] !in Ids(Y) && c !in Ids(Y) && p !in Ids(Y) && b !in Ids(Y) &&
            (ty != -1 ==> 0 <= ty < |a.data| && ty != p && ty != c && ty != b && a.parent[ty] == i)
  {
    PathInside(a, X, tx, i, c, p);
    RepresentsInRange(a.left, a.right, a.parent, Y, ty, i);
    if ty != -1 {
      assert ty in Ids(Y);
    }
  }

  /** A node above the rotated parent, which sits in its left subtree, keeps its links once that subtree is rotated. */
  lemma PathLeft(a: Arena, r: Arena, s: Tree, i: int, pp: int, c: int, p: int)
    requires Shape(a) && 0 <= c < |a.data| && 0 <= p < |a.data| && a.parent[c] == p && RotationLinks(a, c, p, r)
    requires a.left[p] == c || a.right[p] == c
    requires Represents(a.left, a.right, a.parent, s, i, pp) && Unique(s) && i != p && s.Node? && p in Ids(s.left)
    requires Represents(r.left, r.right, r.parent, RotatedTree(s.left, c, p), if a.left[i] == p then c else a.left[i], i)
    ensures Represents(r.left, r.right, r.parent, RotatedTree(s, c, p), i, pp)
  {
    var L, R, P := a.left, a.right, a.parent;
    PathSides(a, s.left, L[i], s.right, R[i], i, c, p);
    MovedSubtree(a, r, s.right, R[i], i, i, c, p);
  }

  /** The mirror image: the rotated parent sits in the right subtree. */
  lemma PathRight(a: Arena, r: Arena, s: Tree, i: int, pp: int, c: int, p: int)
    requires Shape(a) && 0 <= c < |a.data| && 0 <= p < |a.data| && a.parent[c] == p && RotationLinks(a, c, p, r)
    requires a.left[p] == c || a.right[p] == c
    requires Represents(a.left, a.right, a.parent, s, i, pp) && Unique(s) && i != p && s.Node? && p in Ids(s.right)
    requires Represents(r.left, r.right, r.parent, RotatedTree(s.right, c, p), if a.right[i] == p then c else a.right[i], i)
    ensures Represents(r.left, r.right, r.parent, RotatedTree(s, c, p), i, pp)
  {
    var L, R, P := a.left, a.right, a.parent;
    PathSides(a, s.right, R[i], s.left, L[i], i, c, p);
    MovedSubtree(a, r, s.left, L[i], i, i, c, p);
  }

  /** Down the path to the rotated node nothing changes but the link that led to it. */
  lemma {:induction false} RotatedPath(a: Arena, r: Arena, s: Tree, i: int, pp: int, c: int, p: int)
    requires Shape(a) && 0 <= c < |a.data| && 0 <= p < |a.data| && a.parent[c] == p && RotationLinks(a, c, p, r)
    requires a.left[p] == c || a.right[p] == c
    requires a.left[p] != a.right[p]
    requires Represents(a.left, a.right, a.parent, s, i, pp) && Unique(s) && pp !in Ids(s) && p in Ids(s)
    ensures Represents(r.left, r.right, r.parent, RotatedTree(s, c, p), if i == p then c else i, pp)
    decreases s
  {
    if i == p {
      RotatedNodeLinks(a, r, s, c, p);
    } else {
      var l, rr := s.left, s.right;
      assert Represents(a.left, a.right, a.parent, l, a.left[i], i) && Represents(a.left, a.right, a.parent, rr, a.right[i], i);
      if p in Ids(l) {
        RotatedPath(a, r, l, a.left[i], i, c, p);
        PathLeft(a, r, s, i, pp, c, p);
      } else {
        RotatedPath(a, r, rr, a.right[i], i, c, p);
        PathRight(a, r, s, i, pp, c, p);
      }
    }
  }

  /** A store whose links represent a tree over all its indices has every link in range. */
  lemma ShapeFromLinks(a: Arena, t: Tree)
    requires |a.left| == |a.data| && |a.right| == |a.data| && |a.parent| == |a.data| && |a.black| == |a.data|
    requires Represents(a.left, a.right, a.parent, t, a.root, -1) && Unique(t)
    requires forall k :: k in Ids(t) <==> 0 <= k < |a.data|
    ensures Shape(a)
  {
    var n := |a.data|;
    if t.Node? {
      assert a.root in Ids(t);
    }
    forall k | 0 <= k < n
      ensures -1 <= a.left[k] < n && -1 <= a.right[k] < n && -1 <= a.parent[k] < n
    {
      assert k in Ids(t);
      ChildLink(a.left, a.right, a.parent, t, a.root, -1, k);
      if k != a.root {
        ParentLink(a.left, a.right, a.parent, t, a.root, -1, k);
      }
    }
  }

  /**
   * `rotate(c, p)` on a well-linked store, with `c` a child of `p`: the store
   * holds the rotated tree, every node keeps its value and colour, and the
   * child now sits where the parent was (it becomes the root when the parent was).
   */
  lemma RotateHolds(a: Arena, t: Tree, c: int, p: int)
    requires Holds(a, t) && 0 <= c < |a.data| && a.parent[c] == p && p != -1
    ensures 0 <= p < |a.data| && (p != a.root ==> a.parent[p] != -1)
    ensures var r := Rotated(a, c, p);
            Holds(r, RotatedTree(t, c, p)) && r.data == a.data && r.black == a.black &&
            r.root == (if p == a.root then c else a.root) &&
            r.parent[c] == a.parent[p] && r.parent[p] == c
    ensures RotationLinks(a, c, p, Rotated(a, c, p))
  {
    RotationSetting(a, t, c, p);
    RotatedLinks(a, t, c, p);
    var r := Rotated(a, c, p);
    HoldsTop(a, t);
    RepresentsInRange(a.left, a.right, a.parent, t, a.root, -1);
    RotatedPath(a, r, t, a.root, -1, c, p);
    RotatedTreeUnique(t, c, p);
    ShapeFromLinks(r, RotatedTree(t, c, p));
  }
}
