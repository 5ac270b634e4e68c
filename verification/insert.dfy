/**
 * `RedBlackTree.insert` and `insertHelper`.  The descent of `insertHelper`
 * compares the new value with the value of each node on its way and stops
 * at the first empty child slot on the chosen side (`Locate`); the new red
 * node is hung there (`AttachA`); then, as the recursion unwinds, each of
 * the frames of the descent runs the fix-up on the new node once
 * (`FixupIter`); finally `insert` blackens the root.
 */
module Insertion {
  import opened Trees
  import opened Arenas
  import opened Rotation
  import opened FixUp

  datatype Option<T> = None | Some(value: T)

  /** Where the new node goes: below `parent`, on the left or the right, after `frames` calls of `insertHelper`. */
  datatype Slot = Slot(parent: int, isLeft: bool, frames: nat)

  /** How `insert` ends: normally, with a `NullPointerException`, or with an `IllegalArgumentException`. */
  datatype Outcome = Success | NullValue | DuplicateValue

  /** The descent of `insertHelper(newNode, s)` for the value `x` (RedBlackTree.java:95-116); `None` when it meets `x`. */
  function Locate(d: seq<int>, s: Tree, x: int): (r: Option<Slot>)
    requires InRange(s, |d|) && Unique(s) && s.Node?
    ensures r.Some? ==> r.value.parent in Ids(s) && r.value.frames >= 1
    ensures r.Some? && r.value.isLeft ==> Find(s, r.value.parent).left == Nil
    ensures r.Some? && !r.value.isLeft ==> Find(s, r.value.parent).right == Nil
    decreases s
  {
    var v := d[s.id];
    if x == v then None
    else if x < v then
      if s.left == Nil then Some(Slot(s.id, true, 1))
      else
        match Locate(d, s.left, x)
        case None => None
        case Some(sl) => Some(sl.(frames := sl.frames + 1))
    else
      if s.right == Nil then Some(Slot(s.id, false, 1))
      else
        match Locate(d, s.right, x)
        case None => None
        case Some(sl) => Some(sl.(frames := sl.frames + 1))
  }

  lemma {:induction false} InRangeGrows(t: Tree, n: int, m: int)
    requires InRange(t, n) && n <= m
    ensures InRange(t, m)
  {
    match t
    case Nil =>
    case Node(l, _, r) =>
      InRangeGrows(l, n, m);
      InRangeGrows(r, n, m);
  }

  /** Appending a value for a new node does not change the values of the existing ones. */
  lemma {:induction false} KeysAppend(d: seq<int>, t: Tree, x: int)
    requires InRange(t, |d|)
    ensures InRange(t, |d| + 1) && Keys(d + [x], t) == Keys(d, t)
  {
    InRangeGrows(t, |d|, |d| + 1);
    match t
    case Nil =>
    case Node(l, i, r) =>
      KeysAppend(d, l, x);
      KeysAppend(d, r, x);
  }

  /** Hanging a fresh leaf below a node of the tree adds exactly that leaf. */
  lemma {:induction false} AttachedTreeIds(t: Tree, pid: int, isLeft: bool, n: int)
    requires Unique(t) && pid in Ids(t) && n !in Ids(t)
    requires isLeft ==> Find(t, pid).left == Nil
    requires !isLeft ==> Find(t, pid).right == Nil
    ensures Ids(AttachedTree(t, pid, isLeft, n)) == Ids(t) + {n}
    ensures Unique(AttachedTree(t, pid, isLeft, n))
  {
    match t
    case Node(l, i, r) =>
      if i != pid {
        if pid in Ids(l) {
          AttachedTreeIds(l, pid, isLeft, n);
        } else {
          AttachedTreeIds(r, pid, isLeft, n);
        }
      }
  }

  /** The descent meets `x` exactly when the tree holds it. */
  lemma {:induction false} LocateFinds(d: seq<int>, s: Tree, x: int)
    requires InRange(s, |d|) && s.Node? && Unique(s) && Increasing(Keys(d, s))
    ensures Locate(d, s, x).None? <==> x in Keys(d, s)
    decreases s
  {
    var l, i, r := s.left, s.id, s.right;
    var v := d[i];
    IncreasingSplit(Keys(d, l), v, Keys(d, r));
    assert Keys(d, s) == Keys(d, l) + [v] + Keys(d, r);
    if x < v {
      assert x !in Keys(d, r);
      if l != Nil {
        LocateFinds(d, l, x);
      }
    } else if x > v {
      assert x !in Keys(d, l);
      if r != Nil {
        LocateFinds(d, r, x);
      }
    }
  }

  /** Hanging `x` at the slot the descent finds puts it in the in-order sequence where it belongs. */
  lemma {:induction false} LocatePlaces(d: seq<int>, s: Tree, x: int)
    requires InRange(s, |d|) && s.Node? && Unique(s) && Increasing(Keys(d, s))
    ensures Locate(d, s, x).Some? ==>
              var sl := Locate(d, s, x).value;
              var s2 := AttachedTree(s, sl.parent, sl.isLeft, |d|);
              InRange(s2, |d| + 1) && Keys(d + [x], s2) == InsertSorted(Keys(d, s), x)
    decreases s
  {
    var l, i, r := s.left, s.id, s.right;
    var n := |d|;
    var v := d[i];
    if x != v {
      IncreasingSplit(Keys(d, l), v, Keys(d, r));
      KeysAppend(d, l, x);
      KeysAppend(d, r, x);
      assert (d + [x])[i] == v;
    }
    if x < v {
      LocatePlacesLeft(d, s, x);
    } else if x > v {
      var u := Keys(d, l) + [v];
      assert Keys(d, s) == u + Keys(d, r);
      assert forall y :: y in u ==> y < x;
      InsertSortedAfter(u, Keys(d, r), x);
      if r == Nil {
        assert Keys(d + [x], Node(Nil, n, Nil)) == [x];
        assert InsertSorted([], x) == [x];
      } else {
        LocatePlaces(d, r, x);
        match Locate(d, r, x)
        case None =>
        case Some(sl) =>
          assert sl.parent != i && sl.parent !in Ids(l);
          InRangeGrows(l, n, n + 1);
      }
    }
  }

  /** The step of `LocatePlaces` for a value below the node's own. */
  lemma {:induction false} LocatePlacesLeft(d: seq<int>, s: Tree, x: int)
    requires InRange(s, |d|) && s.Node? && Unique(s) && Increasing(Keys(d, s)) && x < d[s.id]
    ensures Locate(d, s, x).Some? ==>
              var sl := Locate(d, s, x).value;
              var s2 := AttachedTree(s, sl.parent, sl.isLeft, |d|);
              InRange(s2, |d| + 1) && Keys(d + [x], s2) == InsertSorted(Keys(d, s), x)
    decreases s, 0
  {
    var l, i, r := s.left, s.id, s.right;
    var n := |d|;
    var v := d[i];
    IncreasingSplit(Keys(d, l), v, Keys(d, r));
    KeysAppend(d, l, x);
    KeysAppend(d, r, x);
    assert (d + [x])[i] == v;
    var u := [v] + Keys(d, r);
    assert Keys(d, s) == Keys(d, l) + u;
    InsertSortedBefore(Keys(d, l), u, x);
    if l == Nil {
      assert Keys(d + [x], Node(Nil, n, Nil)) == [x];
    } else {
      LocatePlaces(d, l, x);
      match Locate(d, l, x)
      case None =>
      case Some(sl) =>
        assert sl.parent != i && sl.parent !in Ids(r);
    }
  }

  /**
   * `insertHelper` reaching an empty slot: `new Node(x)` (red, no links) is
   * stored as the child of `sl.parent` on the slot's side and points back to it
   * (RedBlackTree.java:103-105, 112-114).
   */
  function AttachA(a: Arena, x: int, sl: Slot): (r: Arena)
    requires Shape(a) && 0 <= sl.parent < |a.data|
    ensures Shape(r) && r.data == a.data + [x] && r.black == a.black + [false] && r.root == a.root
  {
    var n := |a.data|;
    var grown := Arena(a.data + [x], a.left + [-1], a.right + [-1], a.parent + [-1], a.black + [false], a.root);
    var linked :=
      if sl.isLeft then grown.(left := grown.left[sl.parent := n])
      else grown.(right := grown.right[sl.parent := n]);
    linked.(parent := linked.parent[n := sl.parent])
  }

  /** The links after hanging the leaf `n` at the slot, node by node. */
  ghost predicate AttachLinks(a: Arena, sl: Slot, r: Arena)
    requires Shape(a) && 0 <= sl.parent < |a.data|
  {
    var n, pid := |a.data|, sl.parent;
    |r.left| == n + 1 && |r.right| == n + 1 && |r.parent| == n + 1 &&
    (forall k :: 0 <= k < n && k != pid ==> r.left[k] == a.left[k] && r.right[k] == a.right[k]) &&
    (forall k :: 0 <= k < n ==> r.parent[k] == a.parent[k]) &&
    r.left[pid] == (if sl.isLeft then n else a.left[pid]) &&
    r.right[pid] == (if sl.isLeft then a.right[pid] else n) &&
    r.left[n] == -1 && r.right[n] == -1 && r.parent[n] == pid
  }

  lemma AttachALinks(a: Arena, x: int, sl: Slot)
    requires Shape(a) && 0 <= sl.parent < |a.data|
    ensures AttachLinks(a, sl, AttachA(a, x, sl))
  {
  }

  /** Links that hang the leaf at the slot represent the tree with the new leaf. */
  lemma {:induction false} AttachedLinks(a: Arena, r: Arena, sl: Slot, s: Tree, i: int, pp: int)
    requires Shape(a) && 0 <= sl.parent < |a.data| && AttachLinks(a, sl, r)
    requires Represents(a.left, a.right, a.parent, s, i, pp) && Unique(s) && sl.parent in Ids(s)
    requires sl.isLeft ==> Find(s, sl.parent).left == Nil
    requires !sl.isLeft ==> Find(s, sl.parent).right == Nil
    ensures Represents(r.left, r.right, r.parent, AttachedTree(s, sl.parent, sl.isLeft, |a.data|), i, pp)
    decreases s
  {
    var n, pid := |a.data|, sl.parent;
    RepresentsInRange(a.left, a.right, a.parent, s, i, pp);
    match s
    case Node(l, id, rr) =>
      if id == pid {
        if sl.isLeft {
          Frame(a.left, a.right, a.parent, r.left, r.right, r.parent, rr, a.right[id], id, id);
        } else {
          Frame(a.left, a.right, a.parent, r.left, r.right, r.parent, l, a.left[id], id, id);
        }
      } else if pid in Ids(l) {
        AttachedLinks(a, r, sl, l, a.left[id], id);
        Frame(a.left, a.right, a.parent, r.left, r.right, r.parent, rr, a.right[id], id, id);
      } else {
        AttachedLinks(a, r, sl, rr, a.right[id], id);
        Frame(a.left, a.right, a.parent, r.left, r.right, r.parent, l, a.left[id], id, id);
      }
  }

  /** A free child slot of a stored node is a missing child of the tree. */
  lemma SlotFree(a: Arena, t: Tree, sl: Slot)
    requires Holds(a, t) && 0 <= sl.parent < |a.data|
    ensures sl.parent in Ids(t)
    ensures Child(a, sl.parent, sl.isLeft) == -1 <==>
              if sl.isLeft then Find(t, sl.parent).left == Nil else Find(t, sl.parent).right == Nil
  {
    assert sl.parent in Ids(t);
    FindRepresents(a.left, a.right, a.parent, t, a.root, -1, sl.parent);
    RepresentsInRange(a.left, a.right, a.parent, t, a.root, -1);
  }

  /** The store after hanging the new node holds the tree with the new leaf, and the root stays black. */
  lemma AttachHolds(a: Arena, t: Tree, x: int, sl: Slot)
    requires Holds(a, t) && RootBlack(a) && 0 <= sl.parent < |a.data| && Child(a, sl.parent, sl.isLeft) == -1
    ensures var r := AttachA(a, x, sl);
            Holds(r, AttachedTree(t, sl.parent, sl.isLeft, |a.data|)) && RootBlack(r) && r.data == a.data + [x]
  {
    var n := |a.data|;
    var r := AttachA(a, x, sl);
    SlotFree(a, t, sl);
    RepresentsInRange(a.left, a.right, a.parent, t, a.root, -1);
    AttachALinks(a, x, sl);
    AttachedLinks(a, r, sl, t, a.root, -1);
    assert n !in Ids(t);
    AttachedTreeIds(t, sl.parent, sl.isLeft, n);
    var t2 := AttachedTree(t, sl.parent, sl.isLeft, n);
    RepresentsInRange(r.left, r.right, r.parent, t2, r.root, -1);
    HoldsTop(a, t);
  }

  /**
   * `insertHelper` after its descent found the slot: the new node is hung
   * there when the slot is free (the null test of RedBlackTree.java:103 and
   * 112), and each of the `sl.frames` frames then runs the fix-up on it
   * (RedBlackTree.java:118).  A slot that is not free changes nothing.
   */
  ghost function Grow(a: Arena, t: Tree, x: int, sl: Slot): (r: (Arena, Tree))
    requires Holds(a, t) && RootBlack(a)
    ensures Holds(r.0, r.1) && RootBlack(r.0)
  {
    if 0 <= sl.parent < |a.data| && Child(a, sl.parent, sl.isLeft) == -1 then
      AttachHolds(a, t, x, sl);
      FixupIter(AttachA(a, x, sl), AttachedTree(t, sl.parent, sl.isLeft, |a.data|), |a.data|, sl.frames)
    else
      (a, t)
  }

  /** The frame that hangs the new node: its fix-up is the first of the growth. */
  lemma AttachStep(a: Arena, t: Tree, x: int, sl: Slot)
    requires Holds(a, t) && RootBlack(a) && 0 <= sl.parent < |a.data| && Child(a, sl.parent, sl.isLeft) == -1
    requires sl.frames == 1
    ensures Holds(AttachA(a, x, sl), AttachedTree(t, sl.parent, sl.isLeft, |a.data|))
    ensures RootBlack(AttachA(a, x, sl))
    ensures Grow(a, t, x, sl) == FixupS(AttachA(a, x, sl), AttachedTree(t, sl.parent, sl.isLeft, |a.data|), |a.data|)
  {
    AttachHolds(a, t, x, sl);
    var a1, t1 := AttachA(a, x, sl), AttachedTree(t, sl.parent, sl.isLeft, |a.data|);
    assert FixupIter(a1, t1, |a.data|, 0) == (a1, t1);
  }

  /** The place `Locate` finds in a subtree of the store is a node of the store with a free side. */
  lemma LocateFree(a: Arena, c: Tree, ci: int, x: int)
    requires Shape(a) && SubtreeAt(a, c, ci) && Locate(a.data, c, x).Some?
    ensures var sl := Locate(a.data, c, x).value;
            0 <= sl.parent < |a.data| && Child(a, sl.parent, sl.isLeft) == -1
  {
    var sl := Locate(a.data, c, x).value;
    FindRepresents(a.left, a.right, a.parent, c, ci, a.parent[ci], sl.parent);
    RepresentsInRange(a.left, a.right, a.parent, c, ci, a.parent[ci]);
    var f := Find(c, sl.parent);
    assert Represents(a.left, a.right, a.parent, f, sl.parent, a.parent[sl.parent]);
    if sl.isLeft {
      assert Represents(a.left, a.right, a.parent, Nil, a.left[sl.parent], sl.parent);
    } else {
      assert Represents(a.left, a.right, a.parent, Nil, a.right[sl.parent], sl.parent);
    }
  }

  /** One more frame of `insertHelper`: its fix-up completes the growth the deeper frames began. */
  lemma NextFrame(a: Arena, t: Tree, x: int, c: Tree, ci: int, sl: Slot)
    requires Fixable(a, t) && SubtreeAt(a, c, ci)
    requires Locate(a.data, c, x) == Some(sl)
    ensures |Grow(a, t, x, sl).0.data| == |a.data| + 1
    ensures FixupS(Grow(a, t, x, sl).0, Grow(a, t, x, sl).1, |a.data|) == Grow(a, t, x, sl.(frames := sl.frames + 1))
  {
    LocateFree(a, c, ci, x);
    AttachHolds(a, t, x, sl);
    var a1, t1 := AttachA(a, x, sl), AttachedTree(t, sl.parent, sl.isLeft, |a.data|);
    assert Grow(a, t, x, sl) == FixupIter(a1, t1, |a.data|, sl.frames);
    assert Grow(a, t, x, sl.(frames := sl.frames + 1)) == FixupIter(a1, t1, |a.data|, sl.frames + 1);
  }

  /** `s` is the subtree whose top is node `i` of the store. */
  ghost predicate SubtreeAt(a: Arena, s: Tree, i: int)
  {
    0 <= i < |a.data| && i < |a.parent| && s.Node? && Represents(a.left, a.right, a.parent, s, i, a.parent[i]) &&
    Unique(s) && InRange(s, |a.data|)
  }

  /**
   * `insertHelper(newNode, sub)` (RedBlackTree.java:95-119) as the Java code
   * recurses, for a new node holding `x` and the subtree `s` below `sub`:
   * whether the descent met `x`, and the store afterwards.  A frame either
   * hangs the new node on a free side of `sub` or recurses into that side,
   * and then runs the fix-up on the new node, stored last.
   */
  ghost function InsertHelperS(a: Arena, t: Tree, x: int, s: Tree, sub: int): (r: (bool, Arena, Tree))
    requires Fixable(a, t) && SubtreeAt(a, s, sub)
    ensures r.0 ==> r.1 == a && r.2 == t
    ensures !r.0 ==> Fixable(r.1, r.2) && r.1.data == a.data + [x]
    decreases s
  {
    var n := |a.data|;
    if x == a.data[sub] then (true, a, t)
    else
      var isLeft := x < a.data[sub];
      var c := Child(a, sub, isLeft);
      var cs := if isLeft then s.left else s.right;
      assert Represents(a.left, a.right, a.parent, cs, c, sub) && Unique(cs) && InRange(cs, n);
      if c == -1 then
        AttachHolds(a, t, x, Slot(sub, isLeft, 1));
        var f := FixupS(AttachA(a, x, Slot(sub, isLeft, 1)), AttachedTree(t, sub, isLeft, n), n);
        (false, f.0, f.1)
      else
        var r := InsertHelperS(a, t, x, cs, c);
        if r.0 then r
        else
          var f := FixupS(r.1, r.2, n);
          (false, f.0, f.1)
  }

  /** One frame of `InsertHelperS`, spelled out for each side: hang and fix up, or recurse and fix up unless the value was met. */
  lemma InsertHelperFrame(a: Arena, t: Tree, x: int, s: Tree, sub: int, isLeft: bool)
    requires Fixable(a, t) && SubtreeAt(a, s, sub)
    requires x != a.data[sub] && isLeft == (x < a.data[sub])
    ensures var c := Child(a, sub, isLeft);
            c == -1 ==>
              var b := AttachA(a, x, Slot(sub, isLeft, 1));
              var u := AttachedTree(t, sub, isLeft, |a.data|);
              Fixable(b, u) && |b.data| == |a.data| + 1 &&
              InsertHelperS(a, t, x, s, sub) == (false, FixupS(b, u, |a.data|).0, FixupS(b, u, |a.data|).1)
    ensures var c := Child(a, sub, isLeft);
            var cs := if isLeft then s.left else s.right;
            c != -1 ==>
              SubtreeAt(a, cs, c) &&
              var r := InsertHelperS(a, t, x, cs, c);
              (r.0 ==> InsertHelperS(a, t, x, s, sub) == r) &&
              (!r.0 ==> |r.1.data| == |a.data| + 1 && InsertHelperS(a, t, x, s, sub) == (false, FixupS(r.1, r.2, |a.data|).0, FixupS(r.1, r.2, |a.data|).1))
  {
    var c := Child(a, sub, isLeft);
    var cs := if isLeft then s.left else s.right;
    assert Represents(a.left, a.right, a.parent, cs, c, sub) && Unique(cs) && InRange(cs, |a.data|);
    if c == -1 {
      AttachHolds(a, t, x, Slot(sub, isLeft, 1));
    }
  }

  /** Below a node that does not hold `x` and whose side for `x` is empty, that side is the place. */
  lemma LocateHere(d: seq<int>, s: Tree, x: int)
    requires InRange(s, |d|) && Unique(s) && s.Node? && x != d[s.id]
    requires (if x < d[s.id] then s.left else s.right) == Nil
    ensures Locate(d, s, x) == Some(Slot(s.id, x < d[s.id], 1))
  {
  }

  /** A frame whose side is free hangs the new node there: the place `Locate` finds, after one fix-up. */
  lemma HangGrows(a: Arena, t: Tree, x: int, s: Tree, sub: int)
    requires Fixable(a, t) && SubtreeAt(a, s, sub)
    requires x != a.data[sub] && Child(a, sub, x < a.data[sub]) == -1
    ensures Locate(a.data, s, x) == Some(Slot(sub, x < a.data[sub], 1))
    ensures var g := Grow(a, t, x, Slot(sub, x < a.data[sub], 1));
            InsertHelperS(a, t, x, s, sub) == (false, g.0, g.1)
  {
    var isLeft := x < a.data[sub];
    InsertHelperFrame(a, t, x, s, sub, isLeft);
    AttachStep(a, t, x, Slot(sub, isLeft, 1));
    assert Represents(a.left, a.right, a.parent, s, sub, a.parent[sub]);
    if isLeft {
      assert Represents(a.left, a.right, a.parent, s.left, -1, sub);
    } else {
      assert Represents(a.left, a.right, a.parent, s.right, -1, sub);
    }
    LocateHere(a.data, s, x);
  }

  /** Below a node that does not hold `x`, the place is found in the subtree on `x`'s side, one frame deeper. */
  lemma LocateDeeper(d: seq<int>, s: Tree, x: int, cs: Tree)
    requires InRange(s, |d|) && Unique(s) && s.Node? && x != d[s.id]
    requires cs == (if x < d[s.id] then s.left else s.right) && cs.Node?
    ensures InRange(cs, |d|) && Unique(cs)
    ensures Locate(d, s, x) == match Locate(d, cs, x)
                               case None => None
                               case Some(sl) => Some(sl.(frames := sl.frames + 1))
  {
  }

  /** A frame that recurses into the subtree `cs` below `c` completes, with its fix-up, the growth the deeper frames began. */
  lemma DeeperGrows(a: Arena, t: Tree, x: int, s: Tree, sub: int, cs: Tree, c: int)
    requires Fixable(a, t) && SubtreeAt(a, s, sub)
    requires x != a.data[sub] && c == Child(a, sub, x < a.data[sub]) && c != -1
    requires cs == (if x < a.data[sub] then s.left else s.right)
    requires SubtreeAt(a, cs, c)
    requires Locate(a.data, cs, x).None? ==> InsertHelperS(a, t, x, cs, c) == (true, a, t)
    requires Locate(a.data, cs, x).Some? ==>
               InsertHelperS(a, t, x, cs, c) == (false, Grow(a, t, x, Locate(a.data, cs, x).value).0, Grow(a, t, x, Locate(a.data, cs, x).value).1)
    ensures Locate(a.data, s, x).None? ==> InsertHelperS(a, t, x, s, sub) == (true, a, t)
    ensures Locate(a.data, s, x).Some? ==>
              InsertHelperS(a, t, x, s, sub) == (false, Grow(a, t, x, Locate(a.data, s, x).value).0, Grow(a, t, x, Locate(a.data, s, x).value).1)
  {
    InsertHelperFrame(a, t, x, s, sub, x < a.data[sub]);
    assert Represents(a.left, a.right, a.parent, s, sub, a.parent[sub]) && s.id == sub;
    LocateDeeper(a.data, s, x, cs);
    if Locate(a.data, cs, x).Some? {
      var sl := Locate(a.data, cs, x).value;
      assert InsertHelperS(a, t, x, cs, c) == (false, Grow(a, t, x, sl).0, Grow(a, t, x, sl).1);
      NextFrame(a, t, x, cs, c, sl);
      var r, g := InsertHelperS(a, t, x, cs, c), Grow(a, t, x, sl);
      assert !r.0 && r.1 == g.0 && r.2 == g.1;
      var f := FixupS(g.0, g.1, |a.data|);
      assert InsertHelperS(a, t, x, s, sub) == (false, f.0, f.1);
      assert Locate(a.data, s, x).value == sl.(frames := sl.frames + 1);
    } else {
      assert Locate(a.data, s, x).None?;
    }
  }

  /** The recursion of `insertHelper` hangs the new node where `Locate` finds its place and runs one fix-up per frame. */
  lemma {:induction false} InsertHelperGrows(a: Arena, t: Tree, x: int, s: Tree, sub: int)
    requires Fixable(a, t) && SubtreeAt(a, s, sub)
    ensures Locate(a.data, s, x).None? ==> InsertHelperS(a, t, x, s, sub) == (true, a, t)
    ensures Locate(a.data, s, x).Some? ==>
              InsertHelperS(a, t, x, s, sub) == (false, Grow(a, t, x, Locate(a.data, s, x).value).0, Grow(a, t, x, Locate(a.data, s, x).value).1)
    decreases s
  {
    assert s.id == sub;
    if x != a.data[sub] {
      var isLeft := x < a.data[sub];
      var c := Child(a, sub, isLeft);
      var cs := if isLeft then s.left else s.right;
      if c == -1 {
        HangGrows(a, t, x, s, sub);
      } else {
        assert Represents(a.left, a.right, a.parent, cs, c, sub) && Unique(cs) && InRange(cs, |a.data|);
        InsertHelperGrows(a, t, x, cs, c);
        DeeperGrows(a, t, x, s, sub, cs, c);
      }
    }
  }

  /**
   * `insert(data)` (RedBlackTree.java:70-82): the outcome, the store and the
   * tree afterwards.  The new node gets the next free index.
   */
  ghost function InsertS(a: Arena, t: Tree, v: Option<int>): (r: (Outcome, Arena, Tree))
    requires Holds(a, t) && RootBlack(a)
    ensures Holds(r.1, r.2) && RootBlack(r.1)
  {
    match v
    case None => (NullValue, a, t)
    case Some(x) =>
      var n := |a.data|;
      HoldsTop(a, t);
      if a.root == -1 then
        // the new node becomes the root, and is blackened
        var a1 := Arena(a.data + [x], a.left + [-1], a.right + [-1], a.parent + [-1], a.black + [false], n);
        var t1 := Node(Nil, n, Nil);
        assert Ids(t1) == {0};
        (Success, a1.(black := a1.black[a1.root := true]), t1)
      else
        match Locate(a.data, t, x)
        case None => (DuplicateValue, a, t)
        case Some(sl) =>
          var g := Grow(a, t, x, sl);
          HoldsTop(g.0, g.1);
          (Success, g.0.(black := g.0.black[g.0.root := true]), g.1)
  }

  /**
   * What `insert` promises: a null value is refused, a value already stored
   * is refused, and both leave the tree as it was; any other value is added
   * as one more node, and the tree stays a well-linked binary search tree
   * whose in-order values are the old ones with the new value in its place,
   * with a black root.
   */
  lemma InsertCorrect(a: Arena, t: Tree, v: Option<int>)
    requires Holds(a, t) && RootBlack(a) && Ordered(a, t)
    ensures var r := InsertS(a, t, v);
            (r.0 == NullValue <==> v.None?) &&
            (r.0 == DuplicateValue <==> v.Some? && v.value in Keys(a.data, t)) &&
            (r.0 != Success ==> r.1 == a && r.2 == t)
    ensures var r := InsertS(a, t, v);
            r.0 == Success ==>
              Holds(r.1, r.2) && RootBlack(r.1) && r.1.data == a.data + [v.value] &&
              Keys(r.1.data, r.2) == InsertSorted(Keys(a.data, t), v.value) && Ordered(r.1, r.2)
  {
    HoldsTop(a, t);
    if v.Some? {
      var x, n := v.value, |a.data|;
      if a.root == -1 {
        assert Keys(a.data, t) == [];
        var r := InsertS(a, t, v);
        assert Keys(r.1.data, r.2) == [x];
      } else {
        LocateFinds(a.data, t, x);
        LocatePlaces(a.data, t, x);
        match Locate(a.data, t, x)
        case None =>
        case Some(sl) =>
          assert sl.parent in Ids(t);
          SlotFree(a, t, sl);
          AttachHolds(a, t, x, sl);
          InsertSortedIncreasing(Keys(a.data, t), x);
      }
    }
  }
}
