/**
 * Concrete insertion sequences from an empty tree, derived by proof: the outputs `toString`
 * gives for them, and an insertion sequence after which the paths from the root down to a
 * missing child pass different numbers of black nodes.
 */
module Scenarios {
  import opened Trees
  import opened Arenas
  import opened Rotation
  import opened FixUp
  import opened Insertion
  import opened Render

  lemma EmptyHolds()
    ensures Holds(Empty, Nil) && RootBlack(Empty)
  {
  }

  /** The store and tree after inserting `vs` one after the other into an empty tree. */
  ghost function Build(vs: seq<int>): (r: (Arena, Tree))
    ensures Holds(r.0, r.1) && RootBlack(r.0)
  {
    if vs == [] then
      EmptyHolds();
      (Empty, Nil)
    else
      var b := Build(vs[..|vs| - 1]);
      var r := InsertS(b.0, b.1, Some(vs[|vs| - 1]));
      (r.1, r.2)
  }

  /**
   * The number of black nodes on every path from the top of `t` down to a
   * missing child, or -1 when two such paths differ in it.
   */
  ghost function BlackHeight(black: seq<bool>, t: Tree): int
    requires InRange(t, |black|)
  {
    match t
    case Nil => 0
    case Node(l, i, r) =>
      var hl, hr := BlackHeight(black, l), BlackHeight(black, r);
      if hl < 0 || hl != hr then -1 else hl + (if black[i] then 1 else 0)
  }

  /** A fix-up whose node has a black parent stops at once, however often it is repeated. */
  lemma {:induction false} FixupStops(a: Arena, t: Tree, red: int, k: nat)
    requires Fixable(a, t) && 0 <= red < |a.data| && red != a.root
    requires 0 <= a.parent[red] < |a.data| && a.black[a.parent[red]]
    ensures FixupIter(a, t, red, k) == (a, t)
  {
    if k > 0 {
      FixupStops(a, t, red, k - 1);
    }
  }

  /** `k + 1` fix-ups are the first one followed by `k` more. */
  lemma {:induction false} FixupIterFirst(a: Arena, t: Tree, red: int, k: nat)
    requires Fixable(a, t) && 0 <= red < |a.data|
    ensures var f := FixupS(a, t, red);
            FixupIter(a, t, red, k + 1) == FixupIter(f.0, f.1, red, k)
  {
    if k > 0 {
      FixupIterFirst(a, t, red, k - 1);
    }
  }

  /**
   * Inserting `x` into a non-empty tree: the new node hangs at the place the
   * descent finds, the fix-ups follow, then the root is blackened.
   */
  lemma InsertGrows(vs: seq<int>, x: int, a: Arena, t: Tree, sl: Slot, b: Arena, u: Tree, f: (Arena, Tree))
    requires Build(vs) == (a, t) && a.root != -1 && t.Node? && Locate(a.data, t, x) == Some(sl)
    requires 0 <= sl.parent < |a.data| && Child(a, sl.parent, sl.isLeft) == -1
    requires AttachA(a, x, sl) == b && AttachedTree(t, sl.parent, sl.isLeft, |a.data|) == u
    ensures Fixable(b, u) && |b.data| == |a.data| + 1
    ensures FixupIter(b, u, |a.data|, sl.frames) == f ==> Build(vs + [x]) == (f.0.(black := f.0.black[f.0.root := true]), f.1)
  {
    AttachHolds(a, t, x, sl);
    var g := Grow(a, t, x, sl);
    assert g == FixupIter(b, u, |a.data|, sl.frames);
    var r := InsertS(a, t, Some(x));
    assert r == (Success, g.0.(black := g.0.black[g.0.root := true]), g.1);
    assert (vs + [x])[..|vs|] == vs;
    assert Build(vs + [x]) == (r.1, r.2);
  }

  /** The first value becomes a black root. */
  lemma BuildOne(x: int)
    ensures Build([x]) == (Arena([x], [-1], [-1], [-1], [true], 0), Node(Nil, 0, Nil))
  {
    assert [x][..0] == [];
    assert Build([]) == (Empty, Nil);
    var a1 := Arena([x], [-1], [-1], [-1], [false], 0);
    assert Empty.data + [x] == [x] && Empty.left + [-1] == [-1] && Empty.black + [false] == [false];
    assert InsertS(Empty, Nil, Some(x)) == (Success, a1.(black := a1.black[0 := true]), Node(Nil, 0, Nil));
    assert a1.black[0 := true] == [true];
  }

  lemma AttachSecond(x: int, y: int, isLeft: bool)
    ensures AttachA(Arena([x], [-1], [-1], [-1], [true], 0), y, Slot(0, isLeft, 1)) ==
            Arena([x, y], if isLeft then [1, -1] else [-1, -1], if isLeft then [-1, -1] else [1, -1], [-1, 0], [true, false], 0)
  {
  }

  /** A smaller second value hangs red on the left of the root. */
  lemma BuildLeft(x: int, y: int)
    requires y < x
    ensures Build([x, y]) == (Arena([x, y], [1, -1], [-1, -1], [-1, 0], [true, false], 0), Node(Node(Nil, 1, Nil), 0, Nil))
  {
    BuildOne(x);
    var a, t := Arena([x], [-1], [-1], [-1], [true], 0), Node(Nil, 0, Nil);
    var sl := Slot(0, true, 1);
    var b := Arena([x, y], [1, -1], [-1, -1], [-1, 0], [true, false], 0);
    var u := Node(Node(Nil, 1, Nil), 0, Nil);
    AttachSecond(x, y, true);
    InsertGrows([x], y, a, t, sl, b, u, (b, u));
    FixupStops(b, u, 1, 1);
    assert b.black[0 := true] == b.black;
  }

  /** A larger second value hangs red on the right of the root. */
  lemma BuildRight(x: int, y: int)
    requires x < y
    ensures Build([x, y]) == (Arena([x, y], [-1, -1], [1, -1], [-1, 0], [true, false], 0), Node(Nil, 0, Node(Nil, 1, Nil)))
  {
    BuildOne(x);
    var a, t := Arena([x], [-1], [-1], [-1], [true], 0), Node(Nil, 0, Nil);
    var sl := Slot(0, false, 1);
    var b := Arena([x, y], [-1, -1], [1, -1], [-1, 0], [true, false], 0);
    var u := Node(Nil, 0, Node(Nil, 1, Nil));
    AttachSecond(x, y, false);
    InsertGrows([x], y, a, t, sl, b, u, (b, u));
    FixupStops(b, u, 1, 1);
    assert b.black[0 := true] == b.black;
  }

  /** A third value larger than the root, after a smaller second one, hangs red on the right: no fix-up is needed. */
  lemma BuildVee(x: int, y: int, z: int)
    requires y < x < z
    ensures Build([x, y, z]) ==
              (Arena([x, y, z], [1, -1, -1], [2, -1, -1], [-1, 0, 0], [true, false, false], 0),
               Node(Node(Nil, 1, Nil), 0, Node(Nil, 2, Nil)))
  {
    BuildLeft(x, y);
    var a, t := Arena([x, y], [1, -1], [-1, -1], [-1, 0], [true, false], 0), Node(Node(Nil, 1, Nil), 0, Nil);
    var sl := Slot(0, false, 1);
    var b := Arena([x, y, z], [1, -1, -1], [2, -1, -1], [-1, 0, 0], [true, false, false], 0);
    var u := Node(Node(Nil, 1, Nil), 0, Node(Nil, 2, Nil));
    PlaceVee(x, y, z);
    InsertGrows([x, y], z, a, t, sl, b, u, (b, u));
    FixupStops(b, u, 2, 1);
    assert b.black[0 := true] == b.black;
    assert [x, y] + [z] == [x, y, z];
  }

  lemma PlaceVee(x: int, y: int, z: int)
    requires y < x < z
    ensures var t := Node(Node(Nil, 1, Nil), 0, Nil);
            Unique(t) && InRange(t, 2) ==> Locate([x, y], t, z) == Some(Slot(0, false, 1))
    ensures AttachA(Arena([x, y], [1, -1], [-1, -1], [-1, 0], [true, false], 0), z, Slot(0, false, 1)) ==
            Arena([x, y, z], [1, -1, -1], [2, -1, -1], [-1, 0, 0], [true, false, false], 0)
  {
  }

  lemma PlaceFour(x: int, y: int, z: int, w: int)
    requires w < y < x < z
    ensures var t := Node(Node(Nil, 1, Nil), 0, Node(Nil, 2, Nil));
            Unique(t) && InRange(t, 3) ==> Locate([x, y, z], t, w) == Some(Slot(1, true, 2))
    ensures AttachA(Arena([x, y, z], [1, -1, -1], [2, -1, -1], [-1, 0, 0], [true, false, false], 0), w, Slot(1, true, 2)) ==
            Arena([x, y, z, w], [1, 3, -1, -1], [2, -1, -1, -1], [-1, 0, 0, 1], [true, false, false, false], 0)
  {
  }

  /** A fourth value below the left child: the red uncle case blackens both children of the root. */
  lemma BuildFour(x: int, y: int, z: int, w: int)
    requires w < y < x < z
    ensures Build([x, y, z, w]) ==
              (Arena([x, y, z, w], [1, 3, -1, -1], [2, -1, -1, -1], [-1, 0, 0, 1], [true, true, true, false], 0),
               Node(Node(Node(Nil, 3, Nil), 1, Nil), 0, Node(Nil, 2, Nil)))
  {
    BuildVee(x, y, z);
    var a := Arena([x, y, z], [1, -1, -1], [2, -1, -1], [-1, 0, 0], [true, false, false], 0);
    var t := Node(Node(Nil, 1, Nil), 0, Node(Nil, 2, Nil));
    var sl := Slot(1, true, 2);
    var b := Arena([x, y, z, w], [1, 3, -1, -1], [2, -1, -1, -1], [-1, 0, 0, 1], [true, false, false, false], 0);
    var u := Node(Node(Node(Nil, 3, Nil), 1, Nil), 0, Node(Nil, 2, Nil));
    var c := b.(black := [true, true, true, false]);
    PlaceFour(x, y, z, w);
    InsertGrows([x, y, z], w, a, t, sl, b, u, (c, u));
    RedUncle(x, y, z, w);
    FixupIterFirst(b, u, 3, 1);
    FixupStops(c, u, 3, 1);
    assert c.black[0 := true] == c.black;
    assert [x, y, z] + [w] == [x, y, z, w];
  }

  lemma RedUncle(x: int, y: int, z: int, w: int)
    ensures var b := Arena([x, y, z, w], [1, 3, -1, -1], [2, -1, -1, -1], [-1, 0, 0, 1], [true, false, false, false], 0);
            var u := Node(Node(Node(Nil, 3, Nil), 1, Nil), 0, Node(Nil, 2, Nil));
            Fixable(b, u) ==> FixupS(b, u, 3) == (b.(black := [true, true, true, false]), u)
  {
    var b := Arena([x, y, z, w], [1, 3, -1, -1], [2, -1, -1, -1], [-1, 0, 0, 1], [true, false, false, false], 0);
    var u := Node(Node(Node(Nil, 3, Nil), 1, Nil), 0, Node(Nil, 2, Nil));
    if Fixable(b, u) {
      var c := b.(black := b.black[1 := true][2 := true]);
      assert c.black == [true, true, true, false];
      assert FixupS(c, u, 0) == (c, u);
    }
  }

  lemma PlaceChain(x: int, y: int, z: int, isLeft: bool)
    requires if isLeft then z < y < x else x < y < z
    ensures var t := if isLeft then Node(Node(Nil, 1, Nil), 0, Nil) else Node(Nil, 0, Node(Nil, 1, Nil));
            Unique(t) && InRange(t, 2) ==> Locate([x, y], t, z) == Some(Slot(1, isLeft, 2))
    ensures var a := Arena([x, y], if isLeft then [1, -1] else [-1, -1], if isLeft then [-1, -1] else [1, -1], [-1, 0], [true, false], 0);
            AttachA(a, z, Slot(1, isLeft, 2)) ==
            Arena([x, y, z], if isLeft then [1, 2, -1] else [-1, -1, -1], if isLeft then [-1, -1, -1] else [1, 2, -1], [-1, 0, 1], [true, false, false], 0)
  {
  }

  /** Case 2 on the chain 0, 1, 2 leaning to the right: 1 rises above 0 and is blackened, 0 is reddened. */
  lemma PromoteChainRight(x: int, y: int, z: int)
    ensures var b := Arena([x, y, z], [-1, -1, -1], [1, 2, -1], [-1, 0, 1], [true, false, false], 0);
            var u := Node(Nil, 0, Node(Nil, 1, Node(Nil, 2, Nil)));
            Fixable(b, u) ==>
            FixupS(b, u, 2) ==
              (Arena([x, y, z], [-1, 0, -1], [-1, 2, -1], [1, -1, 1], [false, true, false], 1),
               Node(Node(Nil, 0, Nil), 1, Node(Nil, 2, Nil)))
  {
    var b := Arena([x, y, z], [-1, -1, -1], [1, 2, -1], [-1, 0, 1], [true, false, false], 0);
    var u := Node(Nil, 0, Node(Nil, 1, Node(Nil, 2, Nil)));
    if Fixable(b, u) {
      assert Straighten(b, u, 2, false) == (b, u, 2);
      var c := Arena([x, y, z], [-1, 0, -1], [-1, 2, -1], [1, -1, 1], [true, false, false], 1);
      assert Rotated(b, 1, 0) == c;
      var d := c.(black := [false, true, false]);
      assert c.black[0 := false][1 := true] == d.black;
      assert Promote(b, u, 2, false) == (d, Node(Node(Nil, 0, Nil), 1, Node(Nil, 2, Nil)));
    }
  }

  /** The mirror image: the chain leans to the left. */
  lemma PromoteChainLeft(x: int, y: int, z: int)
    ensures var b := Arena([x, y, z], [1, 2, -1], [-1, -1, -1], [-1, 0, 1], [true, false, false], 0);
            var u := Node(Node(Node(Nil, 2, Nil), 1, Nil), 0, Nil);
            Fixable(b, u) ==>
            FixupS(b, u, 2) ==
              (Arena([x, y, z], [-1, 2, -1], [-1, 0, -1], [1, -1, 1], [false, true, false], 1),
               Node(Node(Nil, 2, Nil), 1, Node(Nil, 0, Nil)))
  {
    var b := Arena([x, y, z], [1, 2, -1], [-1, -1, -1], [-1, 0, 1], [true, false, false], 0);
    var u := Node(Node(Node(Nil, 2, Nil), 1, Nil), 0, Nil);
    if Fixable(b, u) {
      assert Straighten(b, u, 2, true) == (b, u, 2);
      var c := Arena([x, y, z], [-1, 2, -1], [-1, 0, -1], [1, -1, 1], [true, false, false], 1);
      assert Rotated(b, 1, 0) == c;
      var d := c.(black := [false, true, false]);
      assert c.black[0 := false][1 := true] == d.black;
      assert Promote(b, u, 2, true) == (d, Node(Node(Nil, 2, Nil), 1, Node(Nil, 0, Nil)));
    }
  }

  /** Three increasing values: the middle one ends up a black root with two red children. */
  lemma BuildIncreasing(x: int, y: int, z: int)
    requires x < y < z
    ensures Build([x, y, z]) ==
              (Arena([x, y, z], [-1, 0, -1], [-1, 2, -1], [1, -1, 1], [false, true, false], 1),
               Node(Node(Nil, 0, Nil), 1, Node(Nil, 2, Nil)))
  {
    BuildRight(x, y);
    var a, t := Arena([x, y], [-1, -1], [1, -1], [-1, 0], [true, false], 0), Node(Nil, 0, Node(Nil, 1, Nil));
    var sl := Slot(1, false, 2);
    var b := Arena([x, y, z], [-1, -1, -1], [1, 2, -1], [-1, 0, 1], [true, false, false], 0);
    var u := Node(Nil, 0, Node(Nil, 1, Node(Nil, 2, Nil)));
    var d := Arena([x, y, z], [-1, 0, -1], [-1, 2, -1], [1, -1, 1], [false, true, false], 1);
    var v := Node(Node(Nil, 0, Nil), 1, Node(Nil, 2, Nil));
    PlaceChain(x, y, z, false);
    InsertGrows([x, y], z, a, t, sl, b, u, (d, v));
    PromoteChainRight(x, y, z);
    FixupIterFirst(b, u, 2, 1);
    FixupStops(d, v, 2, 1);
    assert d.black[1 := true] == d.black;
    assert [x, y] + [z] == [x, y, z];
  }

  /** Three decreasing values: the mirror image. */
  lemma BuildDecreasing(x: int, y: int, z: int)
    requires z < y < x
    ensures Build([x, y, z]) ==
              (Arena([x, y, z], [-1, 2, -1], [-1, 0, -1], [1, -1, 1], [false, true, false], 1),
               Node(Node(Nil, 2, Nil), 1, Node(Nil, 0, Nil)))
  {
    BuildLeft(x, y);
    var a, t := Arena([x, y], [1, -1], [-1, -1], [-1, 0], [true, false], 0), Node(Node(Nil, 1, Nil), 0, Nil);
    var sl := Slot(1, true, 2);
    var b := Arena([x, y, z], [1, 2, -1], [-1, -1, -1], [-1, 0, 1], [true, false, false], 0);
    var u := Node(Node(Node(Nil, 2, Nil), 1, Nil), 0, Nil);
    var d := Arena([x, y, z], [-1, 2, -1], [-1, 0, -1], [1, -1, 1], [false, true, false], 1);
    var v := Node(Node(Nil, 2, Nil), 1, Node(Nil, 0, Nil));
    PlaceChain(x, y, z, true);
    InsertGrows([x, y], z, a, t, sl, b, u, (d, v));
    PromoteChainLeft(x, y, z);
    FixupIterFirst(b, u, 2, 1);
    FixupStops(d, v, 2, 1);
    assert d.black[1 := true] == d.black;
    assert [x, y] + [z] == [x, y, z];
  }

  lemma PlaceZigZag(x: int, y: int, z: int)
    requires y < z < x
    ensures var t := Node(Node(Nil, 1, Nil), 0, Nil);
            Unique(t) && InRange(t, 2) ==> Locate([x, y], t, z) == Some(Slot(1, false, 2))
    ensures AttachA(Arena([x, y], [1, -1], [-1, -1], [-1, 0], [true, false], 0), z, Slot(1, false, 2)) ==
            Arena([x, y, z], [1, -1, -1], [-1, 2, -1], [-1, 0, 1], [true, false, false], 0)
  {
  }

  /** Case 3 on the zig-zag 0, 1, 2: 2 rises above 1, and the fix-up goes on with 1. */
  lemma StraightenZigZag(x: int, y: int, z: int)
    ensures var b := Arena([x, y, z], [1, -1, -1], [-1, 2, -1], [-1, 0, 1], [true, false, false], 0);
            var u := Node(Node(Nil, 1, Node(Nil, 2, Nil)), 0, Nil);
            Fixable(b, u) ==>
            Straighten(b, u, 2, true) ==
              (Arena([x, y, z], [2, -1, 1], [-1, -1, -1], [-1, 2, 0], [true, false, false], 0),
               Node(Node(Node(Nil, 1, Nil), 2, Nil), 0, Nil), 1)
  {
    var b := Arena([x, y, z], [1, -1, -1], [-1, 2, -1], [-1, 0, 1], [true, false, false], 0);
    var u := Node(Node(Nil, 1, Node(Nil, 2, Nil)), 0, Nil);
    if Fixable(b, u) {
      var c := Arena([x, y, z], [2, -1, 1], [-1, -1, -1], [-1, 2, 0], [true, false, false], 0);
      assert Rotated(b, 2, 1) == c;
      assert RotatedTree(u, 2, 1) == Node(Node(Node(Nil, 1, Nil), 2, Nil), 0, Nil);
    }
  }

  /** Case 2 after the straightening: 2 rises above 0, is blackened, and becomes the root. */
  lemma PromoteZigZag(x: int, y: int, z: int)
    ensures var c := Arena([x, y, z], [2, -1, 1], [-1, -1, -1], [-1, 2, 0], [true, false, false], 0);
            var t := Node(Node(Node(Nil, 1, Nil), 2, Nil), 0, Nil);
            Fixable(c, t) && IsLeftChild(c, 1) && IsLeftChild(c, 2) ==>
            Promote(c, t, 1, true) ==
              (Arena([x, y, z], [-1, -1, 1], [-1, -1, 0], [2, 2, -1], [false, false, true], 2),
               Node(Node(Nil, 1, Nil), 2, Node(Nil, 0, Nil)))
  {
    var c := Arena([x, y, z], [2, -1, 1], [-1, -1, -1], [-1, 2, 0], [true, false, false], 0);
    var t := Node(Node(Node(Nil, 1, Nil), 2, Nil), 0, Nil);
    if Fixable(c, t) && IsLeftChild(c, 1) && IsLeftChild(c, 2) {
      var e := Arena([x, y, z], [-1, -1, 1], [-1, -1, 0], [2, 2, -1], [true, false, false], 2);
      assert Rotated(c, 2, 0) == e;
      assert e.black[0 := false][2 := true] == [false, false, true];
    }
  }

  /** A zig-zag of three values: the last one ends up a black root, above the other two, both red. */
  lemma BuildZigZag(x: int, y: int, z: int)
    requires y < z < x
    ensures Build([x, y, z]) ==
              (Arena([x, y, z], [-1, -1, 1], [-1, -1, 0], [2, 2, -1], [false, false, true], 2),
               Node(Node(Nil, 1, Nil), 2, Node(Nil, 0, Nil)))
  {
    BuildLeft(x, y);
    var a, t := Arena([x, y], [1, -1], [-1, -1], [-1, 0], [true, false], 0), Node(Node(Nil, 1, Nil), 0, Nil);
    var sl := Slot(1, false, 2);
    var b := Arena([x, y, z], [1, -1, -1], [-1, 2, -1], [-1, 0, 1], [true, false, false], 0);
    var u := Node(Node(Nil, 1, Node(Nil, 2, Nil)), 0, Nil);
    var d := Arena([x, y, z], [-1, -1, 1], [-1, -1, 0], [2, 2, -1], [false, false, true], 2);
    var v := Node(Node(Nil, 1, Nil), 2, Node(Nil, 0, Nil));
    PlaceZigZag(x, y, z);
    InsertGrows([x, y], z, a, t, sl, b, u, (d, v));
    StraightenZigZag(x, y, z);
    PromoteZigZag(x, y, z);
    assert FixupS(b, u, 2) == Restructure(b, u, 2, true) == (d, v);
    FixupIterFirst(b, u, 2, 1);
    assert FixupIter(d, v, 2, 1) == FixupS(d, v, 2) == (d, v);
    assert d.black[2 := true] == d.black;
    assert [x, y] + [z] == [x, y, z];
  }

  lemma PlaceFive(x: int, y: int, z: int, w: int, v: int)
    requires w < y < v < x < z
    ensures var t := Node(Node(Node(Nil, 3, Nil), 1, Nil), 0, Node(Nil, 2, Nil));
            Unique(t) && InRange(t, 4) ==> Locate([x, y, z, w], t, v) == Some(Slot(1, false, 2))
    ensures AttachA(Arena([x, y, z, w], [1, 3, -1, -1], [2, -1, -1, -1], [-1, 0, 0, 1], [true, true, true, false], 0), v, Slot(1, false, 2)) ==
            Arena([x, y, z, w, v], [1, 3, -1, -1, -1], [2, 4, -1, -1, -1], [-1, 0, 0, 1, 1], [true, true, true, false, false], 0)
  {
  }

  /** A fifth value on the right of the black left child: no fix-up is needed. */
  lemma BuildFive(x: int, y: int, z: int, w: int, v: int)
    requires w < y < v < x < z
    ensures Build([x, y, z, w, v]) ==
              (Arena([x, y, z, w, v], [1, 3, -1, -1, -1], [2, 4, -1, -1, -1], [-1, 0, 0, 1, 1], [true, true, true, false, false], 0),
               Node(Node(Node(Nil, 3, Nil), 1, Node(Nil, 4, Nil)), 0, Node(Nil, 2, Nil)))
  {
    BuildFour(x, y, z, w);
    var a := Arena([x, y, z, w], [1, 3, -1, -1], [2, -1, -1, -1], [-1, 0, 0, 1], [true, true, true, false], 0);
    var t := Node(Node(Node(Nil, 3, Nil), 1, Nil), 0, Node(Nil, 2, Nil));
    var sl := Slot(1, false, 2);
    var b := Arena([x, y, z, w, v], [1, 3, -1, -1, -1], [2, 4, -1, -1, -1], [-1, 0, 0, 1, 1], [true, true, true, false, false], 0);
    var u := Node(Node(Node(Nil, 3, Nil), 1, Node(Nil, 4, Nil)), 0, Node(Nil, 2, Nil));
    PlaceFive(x, y, z, w, v);
    InsertGrows([x, y, z, w], v, a, t, sl, b, u, (b, u));
    FixupStops(b, u, 4, 2);
    assert b.black[0 := true] == b.black;
    assert [x, y, z, w] + [v] == [x, y, z, w, v];
  }

  lemma PlaceSix(x: int, y: int, z: int, w: int, v: int, s: int)
    requires s < w < y < v < x < z
    ensures var t := Node(Node(Node(Nil, 3, Nil), 1, Node(Nil, 4, Nil)), 0, Node(Nil, 2, Nil));
            Unique(t) && InRange(t, 5) ==> Locate([x, y, z, w, v], t, s) == Some(Slot(3, true, 3))
    ensures AttachA(Arena([x, y, z, w, v], [1, 3, -1, -1, -1], [2, 4, -1, -1, -1], [-1, 0, 0, 1, 1], [true, true, true, false, false], 0), s, Slot(3, true, 3)) ==
            Arena([x, y, z, w, v, s], [1, 3, -1, 5, -1, -1], [2, 4, -1, -1, -1, -1], [-1, 0, 0, 1, 1, 3], [true, true, true, false, false, false], 0)
  {
  }

  /** Case 1 below the black node 1: 3 and 4 are blackened, 1 stays black, and the fix-up stops below the root. */
  lemma RedUncleBelow(x: int, y: int, z: int, w: int, v: int, s: int)
    ensures var b := Arena([x, y, z, w, v, s], [1, 3, -1, 5, -1, -1], [2, 4, -1, -1, -1, -1], [-1, 0, 0, 1, 1, 3], [true, true, true, false, false, false], 0);
            var u := Node(Node(Node(Node(Nil, 5, Nil), 3, Nil), 1, Node(Nil, 4, Nil)), 0, Node(Nil, 2, Nil));
            Fixable(b, u) ==> FixupS(b, u, 5) == (b.(black := [true, true, true, true, true, false]), u)
  {
    var b := Arena([x, y, z, w, v, s], [1, 3, -1, 5, -1, -1], [2, 4, -1, -1, -1, -1], [-1, 0, 0, 1, 1, 3], [true, true, true, false, false, false], 0);
    var u := Node(Node(Node(Node(Nil, 5, Nil), 3, Nil), 1, Node(Nil, 4, Nil)), 0, Node(Nil, 2, Nil));
    if Fixable(b, u) {
      var c := b.(black := b.black[3 := true][4 := true]);
      assert c.black == [true, true, true, true, true, false];
      assert FixupS(c, u, 1) == (c, u);
    }
  }

  /** A sixth value below the red node 3, whose uncle 4 is red. */
  lemma BuildSix(x: int, y: int, z: int, w: int, v: int, s: int)
    requires s < w < y < v < x < z
    ensures Build([x, y, z, w, v, s]) ==
              (Arena([x, y, z, w, v, s], [1, 3, -1, 5, -1, -1], [2, 4, -1, -1, -1, -1], [-1, 0, 0, 1, 1, 3], [true, true, true, true, true, false], 0),
               Node(Node(Node(Node(Nil, 5, Nil), 3, Nil), 1, Node(Nil, 4, Nil)), 0, Node(Nil, 2, Nil)))
  {
    BuildFive(x, y, z, w, v);
    var a := Arena([x, y, z, w, v], [1, 3, -1, -1, -1], [2, 4, -1, -1, -1], [-1, 0, 0, 1, 1], [true, true, true, false, false], 0);
    var t := Node(Node(Node(Nil, 3, Nil), 1, Node(Nil, 4, Nil)), 0, Node(Nil, 2, Nil));
    var sl := Slot(3, true, 3);
    var b := Arena([x, y, z, w, v, s], [1, 3, -1, 5, -1, -1], [2, 4, -1, -1, -1, -1], [-1, 0, 0, 1, 1, 3], [true, true, true, false, false, false], 0);
    var u := Node(Node(Node(Node(Nil, 5, Nil), 3, Nil), 1, Node(Nil, 4, Nil)), 0, Node(Nil, 2, Nil));
    var c := b.(black := [true, true, true, true, true, false]);
    PlaceSix(x, y, z, w, v, s);
    InsertGrows([x, y, z, w, v], s, a, t, sl, b, u, (c, u));
    RedUncleBelow(x, y, z, w, v, s);
    FixupIterFirst(b, u, 5, 2);
    FixupStops(c, u, 5, 2);
    assert c.black[0 := true] == c.black;
    assert [x, y, z, w, v] + [s] == [x, y, z, w, v, s];
  }

  /**
   * Inserting 10, 5, 15, 3, 7 leaves every path from the root with two black
   * nodes; inserting 1 next gives three on the paths through 5 and two on
   * the path through 15, since case 1 never reddens the grandparent.
   */
  lemma UnevenBlackHeights()
    ensures var b := Build([10, 5, 15, 3, 7]);
            BlackHeight(b.0.black, b.1) == 2
    ensures var b := Build([10, 5, 15, 3, 7, 1]);
            BlackHeight(b.0.black, b.1) == -1
  {
    BuildFive(10, 5, 15, 3, 7);
    BuildSix(10, 5, 15, 3, 7, 1);
    Heights();
  }

  lemma Heights()
    ensures InRange(Node(Node(Node(Nil, 3, Nil), 1, Node(Nil, 4, Nil)), 0, Node(Nil, 2, Nil)), 5)
    ensures InRange(Node(Node(Node(Node(Nil, 5, Nil), 3, Nil), 1, Node(Nil, 4, Nil)), 0, Node(Nil, 2, Nil)), 6)
    ensures BlackHeight([true, true, true, false, false], Node(Node(Node(Nil, 3, Nil), 1, Node(Nil, 4, Nil)), 0, Node(Nil, 2, Nil))) == 2
    ensures BlackHeight([true, true, true, true, true, false],
                        Node(Node(Node(Node(Nil, 5, Nil), 3, Nil), 1, Node(Nil, 4, Nil)), 0, Node(Nil, 2, Nil))) == -1
  {
    var b5, b6 := [true, true, true, false, false], [true, true, true, true, true, false];
    var n2, n3, n4, n5 := Node(Nil, 2, Nil), Node(Nil, 3, Nil), Node(Nil, 4, Nil), Node(Nil, 5, Nil);
    assert InRange(Node(n3, 1, n4), 5) && InRange(Node(Node(n5, 3, Nil), 1, n4), 6);
    assert BlackHeight(b5, n3) == 0 && BlackHeight(b5, n4) == 0 && BlackHeight(b5, n2) == 1;
    assert BlackHeight(b5, Node(n3, 1, n4)) == 1;
    assert BlackHeight(b6, n5) == 0 && BlackHeight(b6, n4) == 1 && BlackHeight(b6, n2) == 1;
    assert BlackHeight(b6, Node(n5, 3, Nil)) == 1;
    assert BlackHeight(b6, Node(Node(n5, 3, Nil), 1, n4)) == 2;
  }

  /** What `toString` returns after inserting `vs` into an empty tree that is then not empty. */
  ghost function Rendered(vs: seq<int>): string
  {
    var b := Build(vs);
    Bracketed(LevelOrder(b.0.data, b.1))
  }

  /** One step of the breadth-first traversal: the front tree's value, then the rest of the queue with its children behind. */
  lemma LevelStep(d: seq<int>, q: seq<Tree>, rest: seq<Tree>)
    requires Queueable(d, q) && q != [] && rest == q[1..] + Children(q[0])
    ensures Queueable(d, rest) && LevelOrderOf(d, q) == [d[q[0].id]] + LevelOrderOf(d, rest)
  {
    ChildrenQueueable(d, q[0]);
  }

  /** The level order of a node with two leaves: the node, then the left leaf, then the right one. */
  lemma LevelThree(d: seq<int>, i: int, j: int, k: int)
    requires 0 <= i < |d| && 0 <= j < |d| && 0 <= k < |d|
    ensures InRange(Node(Node(Nil, i, Nil), j, Node(Nil, k, Nil)), |d|)
    ensures LevelOrder(d, Node(Node(Nil, i, Nil), j, Node(Nil, k, Nil))) == [d[j], d[i], d[k]]
  {
    var l, r := Node(Nil, i, Nil), Node(Nil, k, Nil);
    var t := Node(l, j, r);
    assert Children(t) == [l, r] && Children(l) == [] && Children(r) == [];
    assert [r][1..] + Children(r) == [];
    LevelStep(d, [r], []);
    assert [l, r][1..] + Children(l) == [r];
    LevelStep(d, [l, r], [r]);
    assert [t][1..] + Children(t) == [l, r];
    LevelStep(d, [t], [l, r]);
  }

  /** The level order of the four-node tree of `BuildFour`. */
  lemma LevelFour(d: seq<int>)
    requires |d| == 4
    ensures InRange(Node(Node(Node(Nil, 3, Nil), 1, Nil), 0, Node(Nil, 2, Nil)), 4)
    ensures LevelOrder(d, Node(Node(Node(Nil, 3, Nil), 1, Nil), 0, Node(Nil, 2, Nil))) == [d[0], d[1], d[2], d[3]]
  {
    var n3, n2 := Node(Nil, 3, Nil), Node(Nil, 2, Nil);
    var n1 := Node(n3, 1, Nil);
    var t := Node(n1, 0, n2);
    assert Children(t) == [n1, n2] && Children(n1) == [n3] && Children(n2) == [] && Children(n3) == [];
    assert [n3][1..] + Children(n3) == [];
    LevelStep(d, [n3], []);
    assert [n2, n3][1..] + Children(n2) == [n3];
    LevelStep(d, [n2, n3], [n3]);
    assert [n1, n2][1..] + Children(n1) == [n2, n3];
    LevelStep(d, [n1, n2], [n2, n3]);
    assert [t][1..] + Children(t) == [n1, n2];
    LevelStep(d, [t], [n1, n2]);
  }

  lemma JoinStep(v: int, rest: seq<int>)
    requires rest != []
    ensures Join([v] + rest) == IntToString(v) + ", " + Join(rest)
  {
    assert ([v] + rest)[1..] == rest;
  }

  lemma Text213()
    ensures Bracketed([2, 1, 3]) == "[2, 1, 3]"
  {
    assert IntToString(1) == "1" && IntToString(2) == "2" && IntToString(3) == "3";
    JoinStep(1, [3]);
    assert [1] + [3] == [1, 3];
    JoinStep(2, [1, 3]);
    assert [2] + [1, 3] == [2, 1, 3];
  }

  lemma Text315()
    ensures Bracketed([3, 1, 5]) == "[3, 1, 5]"
  {
    assert IntToString(1) == "1" && IntToString(3) == "3" && IntToString(5) == "5";
    JoinStep(1, [5]);
    assert [1] + [5] == [1, 5];
    JoinStep(3, [1, 5]);
    assert [3] + [1, 5] == [3, 1, 5];
  }

  /** A two-digit number is written as its two digits. */
  lemma TwoDigits(t: int, u: int)
    requires 1 <= t < 10 && 0 <= u < 10
    ensures IntToString(10 * t + u) == [DigitChar(t), DigitChar(u)]
  {
    var n := 10 * t + u;
    assert n / 10 == t && n % 10 == u;
    assert NatToString(n) == NatToString(t) + [DigitChar(u)];
  }

  lemma Written45()
    ensures IntToString(45) == "45" && IntToString(26) == "26" && IntToString(72) == "72" && IntToString(18) == "18"
  {
    TwoDigits(4, 5);
    TwoDigits(2, 6);
    TwoDigits(7, 2);
    TwoDigits(1, 8);
    assert DigitChar(1) == '1' && DigitChar(2) == '2' && DigitChar(4) == '4' && DigitChar(5) == '5';
    assert DigitChar(6) == '6' && DigitChar(7) == '7' && DigitChar(8) == '8';
  }

  lemma Text45()
    ensures Bracketed([45, 26, 72, 18]) == "[45, 26, 72, 18]"
  {
    Written45();
    JoinStep(72, [18]);
    assert [72] + [18] == [72, 18];
    JoinStep(26, [72, 18]);
    assert [26] + [72, 18] == [26, 72, 18];
    JoinStep(45, [26, 72, 18]);
    assert [45] + [26, 72, 18] == [45, 26, 72, 18];
  }

  /** Inserting 1, 2, 3 (p2/TestRedBlackTree.java:30-36). */
  lemma OutputIncreasing()
    ensures Rendered([1, 2, 3]) == "[2, 1, 3]"
  {
    BuildIncreasing(1, 2, 3);
    LevelThree([1, 2, 3], 0, 1, 2);
    Text213();
  }

  /** Inserting 3, 2, 1 (p2/TestRedBlackTree.java:44-50). */
  lemma OutputDecreasing()
    ensures Rendered([3, 2, 1]) == "[2, 1, 3]"
  {
    BuildDecreasing(3, 2, 1);
    LevelThree([3, 2, 1], 2, 1, 0);
    Text213();
  }

  /** Inserting 5, 1, 3 (p2/TestRedBlackTree.java:58-64). */
  lemma OutputZigZag()
    ensures Rendered([5, 1, 3]) == "[3, 1, 5]"
  {
    BuildZigZag(5, 1, 3);
    LevelThree([5, 1, 3], 1, 2, 0);
    Text315();
  }

  /** Inserting 45, 26, 72, 18 (p2/TestRedBlackTree.java:15-22): the text ends with the closing bracket. */
  lemma OutputRedUncle()
    ensures Rendered([45, 26, 72, 18]) == "[45, 26, 72, 18]"
    ensures Rendered([45, 26, 72, 18]) != "[45, 26, 72, 18"
  {
    BuildFour(45, 26, 72, 18);
    LevelFour([45, 26, 72, 18]);
    Text45();
  }
}
