/**
 * The class `RedBlackTree` with its nodes held in sequences indexed by node
 * (-1 is a null reference).  Every method changes the fields the way the
 * Java method changes the nodes, statement for statement, and is proved to
 * leave exactly the store its specification function computes.  The ghost
 * field `tree` is the shape the links form.
 */
module RedBlack {
  import opened Trees
  import opened Arenas
  import opened Rotation
  import opened FixUp
  import opened Insertion
  import opened Render
  import opened Traversal

  class RedBlackTree {
    var data: seq<int>
    var left: seq<int>
    var right: seq<int>
    var parent: seq<int>
    var black: seq<bool>
    var root: int
    ghost var tree: Tree

    /** The fields as a store. */
    function Snapshot(): Arena
      reads this
    {
      Arena(data, left, right, parent, black, root)
    }

    /** The links form `tree`, a binary search tree with a black root. */
    ghost predicate Valid()
      reads this
    {
      Holds(Snapshot(), tree) && RootBlack(Snapshot()) && Ordered(Snapshot(), tree)
    }

    /** A tree with no node: `root` is null. */
    constructor ()
      ensures Valid() && Snapshot() == Empty && tree == Nil
    {
      data, left, right, parent, black, root := [], [], [], [], [], -1;
      tree := Nil;
    }

    /**
     * `rotate(child, par)` (RedBlackTree.java:150-175).  When `child` does not
     * hang below `par` the Java method throws and nothing changes.
     */
    method Rotate(child: int, par: int) returns (ok: bool)
      modifies this
      requires Shape(Snapshot()) && 0 <= child < |data| && 0 <= par < |data|
      requires par != root ==> parent[par] != -1
      ensures ok <==> old(parent[child]) == par
      ensures ok ==> Snapshot() == Rotated(old(Snapshot()), child, par) && tree == RotatedTree(old(tree), child, par)
      ensures !ok ==> Snapshot() == old(Snapshot()) && tree == old(tree)
    {
      if parent[child] != par {
        return false;
      }
      ghost var t := tree;
      Relink(child, par);
      Swap(child, par);
      parent := parent[child := parent[par]];
      parent := parent[par := child];
      tree := RotatedTree(t, child, par);
      return true;
    }

    /** The first statements of `rotate`: the link that led to `par` now leads to `child` (RedBlackTree.java:154-161). */
    method Relink(child: int, par: int)
      modifies this
      requires Shape(Snapshot()) && 0 <= child < |data| && 0 <= par < |data|
      requires par != root ==> parent[par] != -1
      ensures Snapshot() == Relinked(old(Snapshot()), child, par) && tree == old(tree)
    {
      if par == root {
        root := child;
      } else if IsLeftChild(Snapshot(), par) {
        left := left[parent[par] := child];
      } else {
        right := right[parent[par] := child];
      }
    }

    /** The middle statements of `rotate`: the inner subtree of `child` moves under `par`, and `par` under `child` (RedBlackTree.java:162-172). */
    method Swap(child: int, par: int)
      modifies this
      requires Shape(Snapshot()) && 0 <= child < |data| && 0 <= par < |data|
      ensures Snapshot() == Swapped(old(Snapshot()), child, par) && tree == old(tree)
    {
      if IsLeftChild(Snapshot(), child) {
        left := left[par := right[child]];
        if left[par] != -1 {
          parent := parent[left[par] := par];
        }
        right := right[child := par];
      } else {
        right := right[par := left[child]];
        if right[par] != -1 {
          parent := parent[right[par] := par];
        }
        left := left[child := par];
      }
    }

    /** `enforceRBTreePropertiesAfterInsert(red)` (RedBlackTree.java:186-219). */
    method Fixup(red: int)
      modifies this
      requires Fixable(Snapshot(), tree) && 0 <= red < |data|
      ensures (Snapshot(), tree) == FixupS(old(Snapshot()), old(tree), red)
      decreases Depth(tree, red)
    {
      if red != root {
        Lineage(Snapshot(), tree, red);
      }
      if red != root && !black[parent[red]] {
        FixupUnfold(Snapshot(), tree, red);
        if IsLeftChild(Snapshot(), parent[red]) {
          if right[parent[parent[red]]] != -1 && !black[right[parent[parent[red]]]] {
            // case 1
            var g := parent[parent[red]];
            black := black[parent[red] := true];
            black := black[right[g] := true];
            Fixup(g);
          } else {
            RestructureLeft(red);
          }
        } else if left[parent[parent[red]]] != -1 && !black[left[parent[parent[red]]]] {
          var g := parent[parent[red]];
          black := black[parent[red] := true];
          black := black[left[g] := true];
          Fixup(g);
        } else {
          RestructureRight(red);
        }
      }
    }

    /** Cases 3 and 2 of the fix-up when the parent of `red` is a left child (RedBlackTree.java:194-204). */
    method RestructureLeft(red: int)
      modifies this
      requires Fixable(Snapshot(), tree) && 0 <= red < |data| && red != root
      requires 0 <= parent[red] && parent[red] != root && IsLeftChild(Snapshot(), parent[red])
      ensures (Snapshot(), tree) == Restructure(old(Snapshot()), old(tree), red, true)
    {
      ghost var a, t := Snapshot(), tree;
      Lineage(a, t, red);
      var r := red;
      // case 3
      if !IsLeftChild(Snapshot(), r) {
        var ok := Rotate(r, parent[r]);
        r := left[r];
      }
      // case 2
      ghost var st := Straighten(a, t, red, true);
      assert Snapshot() == st.0 && tree == st.1 && r == st.2;
      PromoteParent(r, true);
    }

    /** The mirror image: the parent of `red` is a right child (RedBlackTree.java:209-217). */
    method RestructureRight(red: int)
      modifies this
      requires Fixable(Snapshot(), tree) && 0 <= red < |data| && red != root
      requires 0 <= parent[red] && parent[red] != root && !IsLeftChild(Snapshot(), parent[red])
      ensures (Snapshot(), tree) == Restructure(old(Snapshot()), old(tree), red, false)
    {
      ghost var a, t := Snapshot(), tree;
      Lineage(a, t, red);
      var r := red;
      if IsLeftChild(Snapshot(), r) {
        var ok := Rotate(r, parent[r]);
        r := right[r];
      }
      ghost var st := Straighten(a, t, red, false);
      assert Snapshot() == st.0 && tree == st.1 && r == st.2;
      PromoteParent(r, false);
    }

    /**
     * Case 2 of the fix-up for the red node `r` whose parent hangs on the same
     * side of the grandparent as `r` of the parent (RedBlackTree.java:200-203,
     * 214-216): rotate the parent above the grandparent, redden the
     * grandparent and blacken the parent.
     */
    method PromoteParent(r: int, side: bool)
      modifies this
      requires Fixable(Snapshot(), tree) && 0 <= r < |data| && r != root
      requires 0 <= parent[r] < |data| && parent[r] != root
      requires IsLeftChild(Snapshot(), r) == side && IsLeftChild(Snapshot(), parent[r]) == side
      ensures (Snapshot(), tree) == FixUp.Promote(old(Snapshot()), old(tree), r, side)
    {
      ghost var a, t := Snapshot(), tree;
      OuterRotation(a, t, r, side);
      var p1 := parent[r];
      var g1 := parent[p1];
      var ok := Rotate(p1, g1);
      // `p1` is still the parent of `r`, and `g1` now hangs on its other side
      assert Snapshot() == Rotated(a, p1, g1) && parent[r] == p1 && Child(Snapshot(), p1, !side) == g1;
      if side {
        black := black[right[p1] := false];
      } else {
        black := black[left[p1] := false];
      }
      black := black[p1 := true];
    }

    /**
     * `insertHelper(newNode, sub)` (RedBlackTree.java:95-119) for a new node
     * holding `x`, where `s` is the subtree below `sub`.  It returns whether
     * the descent met `x` (the `IllegalArgumentException`), in which case
     * nothing has changed.  The new node is stored when it is hung.
     */
    method InsertHelper(x: int, sub: int, ghost s: Tree) returns (duplicate: bool)
      modifies this
      requires Fixable(Snapshot(), tree) && SubtreeAt(Snapshot(), s, sub)
      ensures (duplicate, Snapshot(), tree) == InsertHelperS(old(Snapshot()), old(tree), x, s, sub)
      decreases s
    {
      if x == data[sub] {
        return true;
      }
      // the two mirrored branches, written once for the side of `x`
      var isLeft := x < data[sub];
      ghost var a, t := Snapshot(), tree;
      InsertHelperFrame(a, t, x, s, sub, isLeft);
      var c := if isLeft then left[sub] else right[sub];
      if c == -1 {
        Hang(x, sub, isLeft);
      } else {
        duplicate := InsertHelper(x, c, if isLeft then s.left else s.right);
        if duplicate {
          return;
        }
      }
      // the new node is the last one stored
      Fixup(|data| - 1);
      return false;
    }

    /**
     * A new node holding `x`, hung below `sub` on the given side
     * (RedBlackTree.java:76, 103-105, 112-114); it is stored last.
     */
    method Hang(x: int, sub: int, isLeft: bool)
      modifies this
      requires Shape(Snapshot()) && 0 <= sub < |data|
      ensures Snapshot() == AttachA(old(Snapshot()), x, Slot(sub, isLeft, 1))
      ensures tree == AttachedTree(old(tree), sub, isLeft, old(|data|))
    {
      var n := |data|;
      data, left, right, parent, black := data + [x], left + [-1], right + [-1], parent + [-1], black + [false];
      if isLeft {
        left := left[sub := n];
      } else {
        right := right[sub := n];
      }
      parent := parent[n := sub];
      tree := AttachedTree(tree, sub, isLeft, n);
    }

    /** `insert(v)` (RedBlackTree.java:70-82); `None` stands for a null reference. */
    method Insert(v: Option<int>) returns (outcome: Outcome)
      modifies this
      requires Valid()
      ensures (outcome, Snapshot(), tree) == InsertS(old(Snapshot()), old(tree), v)
      ensures Valid()
    {
      ghost var a, t := Snapshot(), tree;
      InsertCorrect(a, t, v);
      if v.None? {
        return NullValue;
      }
      var x := v.value;
      HoldsTop(a, t);
      if root == -1 {
        var n := |data|;
        data, left, right, parent, black := data + [x], left + [-1], right + [-1], parent + [-1], black + [false];
        root := n;
        tree := Node(Nil, n, Nil);
      } else {
        InsertHelperGrows(a, t, x, t, root);
        var duplicate := InsertHelper(x, root, tree);
        if duplicate {
          return DuplicateValue;
        }
      }
      black := black[root := true];
      return Success;
    }

    /**
     * `Node.toString` for node `i` (RedBlackTree.java:43-55): the values of
     * the subtree below `i` in level order, written by the breadth-first
     * traversal `NodeString`.
     */
    method NodeToString(i: int) returns (s: string)
      requires Holds(Snapshot(), tree) && 0 <= i < |data|
      ensures i in Ids(tree) && InRange(Find(tree, i), |data|) && s == Bracketed(LevelOrder(data, Find(tree, i)))
    {
      assert i in Ids(tree);
      ghost var top := Find(tree, i);
      FindRepresents(left, right, parent, tree, root, -1, i);
      RepresentsInRange(left, right, parent, top, i, parent[i]);
      assert Queued(data, left, right, parent, [i], [top]);
      s := NodeString(data, left, right, parent, i, top);
    }

    /** `RedBlackTree.toString` (RedBlackTree.java:130-132): the level order of the whole tree. */
    method ToString() returns (s: string)
      requires Holds(Snapshot(), tree) && root != -1
      ensures s == Bracketed(LevelOrder(data, tree))
    {
      HoldsTop(Snapshot(), tree);
      s := NodeToString(root);
    }
  }

  /** One step of the fix-up below a red parent: case 1 moves up to the grandparent, otherwise the subtree is restructured. */
  lemma FixupUnfold(a: Arena, t: Tree, red: int)
    requires Fixable(a, t) && 0 <= red < |a.data| && red != a.root
    requires 0 <= a.parent[red] < |a.data| && !a.black[a.parent[red]]
    ensures var p := a.parent[red];
            p != a.root && 0 <= a.parent[p] < |a.data| && Depth(t, a.parent[p]) < Depth(t, red)
    ensures var p := a.parent[red];
            var side := IsLeftChild(a, p);
            var g := a.parent[p];
            var uncle := Child(a, g, !side);
            if uncle != -1 && !a.black[uncle] then
              var a1 := a.(black := a.black[p := true][uncle := true]);
              Fixable(a1, t) && FixupS(a, t, red) == FixupS(a1, t, g)
            else
              FixupS(a, t, red) == Restructure(a, t, red, side)
  {
    Lineage(a, t, red);
    HoldsTop(a, t);
  }
}
