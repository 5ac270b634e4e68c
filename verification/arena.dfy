/**
 * The node store of `RedBlackTree`.  Node k of the tree is index k of the
 * sequences below; -1 stands for a null reference.  `Holds(a, t)` says that
 * the links of the store form exactly the tree `t`: every child's parent
 * link points back to the node that holds it, the root has no parent, no
 * node occurs twice and every stored node is reachable from the root.
 */
module Arenas {
  import opened Trees

  datatype Arena = Arena(
    data: seq<int>,     // Node.data
    left: seq<int>,     // Node.leftChild
    right: seq<int>,    // Node.rightChild
    parent: seq<int>,   // Node.parent
    black: seq<bool>,   // Node.isBlack
    root: int)          // RedBlackTree.root

  /** The store of a tree that holds no node. */
  const Empty := Arena([], [], [], [], [], -1)

  /** All sequences have one entry per node and every link is null or a node. */
  ghost predicate Shape(a: Arena)
  {
    var n := |a.data|;
    |a.left| == n && |a.right| == n && |a.parent| == n && |a.black| == n && -1 <= a.root < n &&
    forall k :: 0 <= k < n ==> -1 <= a.left[k] < n && -1 <= a.right[k] < n && -1 <= a.parent[k] < n
  }

  /** The subtree `s` is the one whose top is node `i`, and `pp` is the parent link of `i`. */
  ghost predicate Represents(L: seq<int>, R: seq<int>, P: seq<int>, s: Tree, i: int, pp: int)
  {
    match s
    case Nil => i == -1
    case Node(l, id, r) =>
      i == id && 0 <= id < |L| && id < |R| && id < |P| && P[id] == pp &&
      Represents(L, R, P, l, L[id], id) && Represents(L, R, P, r, R[id], id)
  }

  /** The store `a` holds the tree `t`, and nothing else. */
  ghost predicate Holds(a: Arena, t: Tree)
  {
    Shape(a) && Represents(a.left, a.right, a.parent, t, a.root, -1) && Unique(t) &&
    InRange(t, |a.data|) && (forall k :: k in Ids(t) <==> 0 <= k < |a.data|)
  }

  ghost predicate RootBlack(a: Arena)
  {
    a.root != -1 ==> 0 <= a.root < |a.black| && a.black[a.root]
  }

  /** Binary-search-tree order: the in-order sequence of values is strictly increasing. */
  ghost predicate Ordered(a: Arena, t: Tree)
  {
    InRange(t, |a.data|) && Increasing(Keys(a.data, t))
  }

  /** `Node.isLeftChild`: the node has a parent and is that parent's left child. */
  function IsLeftChild(a: Arena, i: int): (r: bool)
    requires Shape(a) && 0 <= i < |a.data|
    ensures a.parent[i] == -1 ==> !r
    ensures r ==> 0 <= a.parent[i] < |a.data| && Child(a, a.parent[i], true) == i
  {
    a.parent[i] != -1 && a.left[a.parent[i]] == i
  }

  /** The child of `i` on the given side (`true` is left). */
  function Child(a: Arena, i: int, isLeft: bool): int
    requires Shape(a) && 0 <= i < |a.data|
  {
    if isLeft then a.left[i] else a.right[i]
  }

  lemma {:induction false} RepresentsInRange(L: seq<int>, R: seq<int>, P: seq<int>, s: Tree, i: int, pp: int)
    requires Represents(L, R, P, s, i, pp)
    ensures InRange(s, |L|)
    ensures forall x :: x in Ids(s) ==> 0 <= x < |L| && x < |R| && x < |P|
  {
    match s
    case Nil =>
    case Node(l, id, r) =>
      RepresentsInRange(L, R, P, l, L[id], id);
      RepresentsInRange(L, R, P, r, R[id], id);
  }

  lemma HoldsTop(a: Arena, t: Tree)
    requires Holds(a, t)
    ensures a.root == -1 <==> t == Nil
    ensures t == Nil <==> |a.data| == 0
    ensures a.root != -1 ==> t.id == a.root && a.parent[a.root] == -1
  {
    if t.Node? {
      assert t.id in Ids(t);
    }
    if |a.data| > 0 {
      assert 0 in Ids(t);
    }
  }

  /**
   * Changing links of nodes outside a subtree, and the parent link of its
   * top, leaves the rest of the subtree in place.
   */
  lemma {:induction false} Frame(L: seq<int>, R: seq<int>, P: seq<int>, L2: seq<int>, R2: seq<int>, P2: seq<int>,
                                 s: Tree, i: int, pp: int, pp2: int)
    requires Represents(L, R, P, s, i, pp) && Unique(s)
    requires forall x :: x in Ids(s) ==> x < |L2| && x < |R2| && x < |P2|
    requires forall x :: x in Ids(s) ==> 0 <= x < |L| && x < |R| && L2[x] == L[x] && R2[x] == R[x]
    requires forall x :: x in Ids(s) && x != i ==> 0 <= x < |P| && P2[x] == P[x]
    requires s.Node? ==> P2[i] == pp2
    ensures Represents(L2, R2, P2, s, i, pp2)
  {
    match s
    case Nil =>
    case Node(l, id, r) =>
      Frame(L, R, P, L2, R2, P2, l, L[id], id, id);
      Frame(L, R, P, L2, R2, P2, r, R[id], id, id);
  }

  /** Every node but the top of a subtree hangs below its parent, one level deeper. */
  lemma {:induction false} ParentLink(L: seq<int>, R: seq<int>, P: seq<int>, s: Tree, i: int, pp: int, x: int)
    requires Represents(L, R, P, s, i, pp) && Unique(s) && x in Ids(s) && x != i
    ensures 0 <= x < |P| && P[x] in Ids(s) && 0 <= P[x] < |L| && P[x] < |R|
    ensures L[P[x]] == x || R[P[x]] == x
    ensures Depth(s, P[x]) + 1 == Depth(s, x)
  {
    match s
    case Node(l, id, r) =>
      if x in Ids(l) {
        if x == L[id] {
          assert Depth(s, x) == 1 + Depth(l, x);
        } else {
          ParentLink(L, R, P, l, L[id], id, x);
          assert Depth(s, P[x]) == 1 + Depth(l, P[x]);
        }
      } else {
        assert x in Ids(r);
        if x == R[id] {
          assert Depth(s, x) == 1 + Depth(r, x);
        } else {
          ParentLink(L, R, P, r, R[id], id, x);
          assert Depth(s, P[x]) == 1 + Depth(r, P[x]);
        }
      }
  }

  /** The subtree found at node `x` is the one the links give for `x`; its parent lies outside it. */
  lemma {:induction false} FindRepresents(L: seq<int>, R: seq<int>, P: seq<int>, s: Tree, i: int, pp: int, x: int)
    requires Represents(L, R, P, s, i, pp) && Unique(s) && x in Ids(s)
    ensures 0 <= x < |P| && Represents(L, R, P, Find(s, x), x, P[x]) && Unique(Find(s, x))
    ensures pp !in Ids(s) ==> P[x] !in Ids(Find(s, x))
  {
    match s
    case Node(l, id, r) =>
      if x != id {
        if x in Ids(l) {
          FindRepresents(L, R, P, l, L[id], id, x);
        } else {
          FindRepresents(L, R, P, r, R[id], id, x);
        }
      }
  }

  /** The children of a node are nodes of the same subtree, distinct, and point back to it. */
  lemma ChildLink(L: seq<int>, R: seq<int>, P: seq<int>, s: Tree, i: int, pp: int, x: int)
    requires Represents(L, R, P, s, i, pp) && Unique(s) && x in Ids(s)
    ensures 0 <= x < |L| && x < |R| && x < |P|
    ensures L[x] != -1 ==> L[x] in Ids(s) && 0 <= L[x] < |P| && P[L[x]] == x
    ensures R[x] != -1 ==> R[x] in Ids(s) && 0 <= R[x] < |P| && P[R[x]] == x
    ensures L[x] == -1 || L[x] != R[x]
  {
    FindRepresents(L, R, P, s, i, pp, x);
    RepresentsInRange(L, R, P, s, i, pp);
    var f := Find(s, x);
    assert L[x] == -1 || L[x] in Ids(f.left);
    assert R[x] == -1 || R[x] in Ids(f.right);
  }

  /** The left children, read from the links, are the left children of the tree. */
  lemma {:induction false} LeftIdsLinks(L: seq<int>, R: seq<int>, P: seq<int>, s: Tree, i: int, pp: int, x: int)
    requires Represents(L, R, P, s, i, pp) && Unique(s)
    ensures x in LeftIds(s) <==> x in Ids(s) && x != i && 0 <= x < |P| && 0 <= P[x] < |L| && L[P[x]] == x
  {
    match s
    case Nil =>
    case Node(l, id, r) =>
      LeftIdsLinks(L, R, P, l, L[id], id, x);
      LeftIdsLinks(L, R, P, r, R[id], id, x);
  }

  /** `isLeftChild` holds exactly of the left children of the tree, never of the root. */
  lemma IsLeftChildMeaning(a: Arena, t: Tree, i: int)
    requires Holds(a, t) && 0 <= i < |a.data|
    ensures IsLeftChild(a, i) <==> i in LeftIds(t)
    ensures i == a.root ==> !IsLeftChild(a, i)
  {
    HoldsTop(a, t);
    LeftIdsLinks(a.left, a.right, a.parent, t, a.root, -1, i);
  }
}
