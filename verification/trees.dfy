/**
 * Tree shapes over node ids.  A `Tree` is the ghost abstraction of the
 * node store: each `Node` carries the index of the node it stands for, and
 * the values and colours are looked up in the store.  The in-order
 * sequence, the level order and the rotation of a subtree are stated here.
 */
module Trees {

  datatype Tree = Nil | Node(left: Tree, id: int, right: Tree)

  function Ids(t: Tree): set<int>
  {
    match t
    case Nil => {}
    case Node(l, i, r) => Ids(l) + {i} + Ids(r)
  }

  function Size(t: Tree): nat
  {
    match t
    case Nil => 0
    case Node(l, _, r) => Size(l) + 1 + Size(r)
  }

  /** No id occurs twice in the tree. */
  ghost predicate Unique(t: Tree)
  {
    match t
    case Nil => true
    case Node(l, i, r) =>
      Unique(l) && Unique(r) && i !in Ids(l) && i !in Ids(r) && Ids(l) !! Ids(r)
  }

  /** Every id of the tree is an index below `n`. */
  ghost predicate InRange(t: Tree, n: int)
  {
    match t
    case Nil => true
    case Node(l, i, r) => 0 <= i < n && InRange(l, n) && InRange(r, n)
  }

  /** The in-order sequence of the values `d` stores at the tree's ids. */
  ghost function Keys(d: seq<int>, t: Tree): seq<int>
    requires InRange(t, |d|)
  {
    match t
    case Nil => []
    case Node(l, i, r) => Keys(d, l) + [d[i]] + Keys(d, r)
  }

  ghost predicate Increasing(s: seq<int>)
  {
    forall i, j :: 0 <= i < j < |s| ==> s[i] < s[j]
  }

  /** Places `x` into a sorted sequence: the reference for what a BST insertion does to the in-order sequence. */
  ghost function InsertSorted(s: seq<int>, x: int): seq<int>
  {
    if s == [] then [x]
    else if x < s[0] then [x] + s
    else [s[0]] + InsertSorted(s[1..], x)
  }

  lemma {:induction false} InsertSortedElements(s: seq<int>, x: int)
    ensures multiset(InsertSorted(s, x)) == multiset(s) + multiset{x}
  {
    if s != [] && x >= s[0] {
      InsertSortedElements(s[1..], x);
      assert s == [s[0]] + s[1..];
    }
  }

  lemma {:induction false} InsertSortedIncreasing(s: seq<int>, x: int)
    requires Increasing(s) && x !in s
    ensures Increasing(InsertSorted(s, x))
  {
    if s != [] && x >= s[0] {
      var u := s[1..];
      InsertSortedIncreasing(u, x);
      InsertSortedElements(u, x);
      var w := InsertSorted(u, x);
      forall k | 0 <= k < |w| ensures s[0] < w[k] {
        assert w[k] in multiset(w);
        assert w[k] in multiset(u) + multiset{x};
        if w[k] != x {
          assert w[k] in u;
        }
      }
    }
  }

  /** Everything before `x` stays in front of it. */
  lemma {:induction false} InsertSortedAfter(s: seq<int>, u: seq<int>, x: int)
    requires forall y :: y in s ==> y < x
    ensures InsertSorted(s + u, x) == s + InsertSorted(u, x)
  {
    if s != [] {
      assert (s + u)[0] == s[0] && s[0] in s;
      assert (s + u)[1..] == s[1..] + u;
      assert forall y :: y in s[1..] ==> y in s;
      InsertSortedAfter(s[1..], u, x);
    } else {
      assert s + u == u;
    }
  }

  /** Everything after `x` stays behind it. */
  lemma {:induction false} InsertSortedBefore(s: seq<int>, u: seq<int>, x: int)
    requires u != [] && x < u[0]
    ensures InsertSorted(s + u, x) == InsertSorted(s, x) + u
  {
    if s != [] {
      assert (s + u)[0] == s[0];
      assert (s + u)[1..] == s[1..] + u;
      InsertSortedBefore(s[1..], u, x);
    } else {
      assert s + u == u;
    }
  }

  /** The values of an increasing in-order sequence split around the node's own value. */
  lemma IncreasingSplit(l: seq<int>, v: int, r: seq<int>)
    requires Increasing(l + [v] + r)
    ensures Increasing(l) && Increasing(r)
    ensures forall y :: y in l ==> y < v
    ensures forall y :: y in r ==> v < y
  {
    var s := l + [v] + r;
    assert forall k :: 0 <= k < |l| ==> s[k] == l[k];
    assert s[|l|] == v;
    assert forall k :: 0 <= k < |r| ==> s[|l| + 1 + k] == r[k];
    forall y | y in r ensures v < y {
      var k :| 0 <= k < |r| && r[k] == y;
      assert s[|l| + 1 + k] == y;
    }
    forall i, j | 0 <= i < j < |r| ensures r[i] < r[j] {
      assert s[|l| + 1 + i] == r[i] && s[|l| + 1 + j] == r[j];
    }
  }

  /**
   * The rotation of node `p` with its child `c`: the child moves into the
   * parent's place, the parent becomes the child's child on the other side
   * and takes over the child's inner subtree.
   */
  function RotatedNode(t: Tree, c: int): Tree
  {
    match t
    case Nil => Nil
    case Node(l, p, r) =>
      if l.Node? && l.id == c then Node(l.left, c, Node(l.right, p, r))
      else if r.Node? && r.id == c then Node(Node(l, p, r.left), c, r.right)
      else t
  }

  /** Rotates, wherever it sits in `t`, the node `p` with its child `c`. */
  function RotatedTree(t: Tree, c: int, p: int): (r: Tree)
    ensures Ids(r) == Ids(t)
    ensures Size(r) == Size(t)
    ensures forall n :: InRange(t, n) ==> InRange(r, n)
    ensures p !in Ids(t) ==> r == t
  {
    match t
    case Nil => Nil
    case Node(l, i, rr) =>
      if i == p then RotatedNode(t, c)
      else Node(RotatedTree(l, c, p), i, RotatedTree(rr, c, p))
  }

  /** Rotating at the top keeps the in-order sequence: both shapes list `A`, `c`, `B`, `p`, `C` in that order. */
  lemma RotationKeys(d: seq<int>, A: Tree, c: int, B: Tree, p: int, C: Tree)
    requires InRange(Node(Node(A, c, B), p, C), |d|)
    ensures InRange(Node(A, c, Node(B, p, C)), |d|)
    ensures Keys(d, Node(A, c, Node(B, p, C))) == Keys(d, Node(Node(A, c, B), p, C))
  {
    var x, kb, kc := Keys(d, A) + [d[c]], Keys(d, B), Keys(d, C);
    assert Keys(d, Node(Node(A, c, B), p, C)) == x + kb + [d[p]] + kc;
    assert Keys(d, Node(A, c, Node(B, p, C))) == x + (kb + [d[p]] + kc);
    AppendAssoc(x, kb, [d[p]]);
    AppendAssoc(x, kb + [d[p]], kc);
  }

  lemma AppendAssoc(x: seq<int>, y: seq<int>, z: seq<int>)
    ensures x + (y + z) == x + y + z
  {
  }

  /** A single rotation keeps the in-order sequence of values. */
  lemma RotatedNodeKeys(d: seq<int>, t: Tree, c: int)
    requires InRange(t, |d|)
    ensures InRange(RotatedNode(t, c), |d|) && Keys(d, RotatedNode(t, c)) == Keys(d, t)
  {
    match t
    case Nil =>
    case Node(l, p, r) =>
      if l.Node? && l.id == c {
        RotationKeys(d, l.left, c, l.right, p, r);
      } else if r.Node? && r.id == c {
        RotationKeys(d, l, p, r.left, c, r.right);
      }
  }

  /** Rotating anywhere in the tree keeps its in-order sequence of values. */
  lemma {:induction false} RotatedTreeKeys(d: seq<int>, t: Tree, c: int, p: int)
    requires InRange(t, |d|)
    ensures Keys(d, RotatedTree(t, c, p)) == Keys(d, t)
  {
    match t
    case Nil =>
    case Node(l, i, r) =>
      if i == p {
        RotatedNodeKeys(d, t, c);
      } else {
        RotatedTreeKeys(d, l, c, p);
        RotatedTreeKeys(d, r, c, p);
      }
  }

  lemma {:induction false} RotatedTreeUnique(t: Tree, c: int, p: int)
    requires Unique(t)
    ensures Unique(RotatedTree(t, c, p))
  {
    match t
    case Nil =>
    case Node(l, i, r) =>
      if i != p {
        RotatedTreeUnique(l, c, p);
        RotatedTreeUnique(r, c, p);
      }
  }

  /** Hangs the leaf `n` as the left (or right) child of node `pid`. */
  function AttachedTree(t: Tree, pid: int, isLeft: bool, n: int): (r: Tree)
    ensures pid !in Ids(t) ==> r == t
  {
    match t
    case Nil => Nil
    case Node(l, i, rr) =>
      if i == pid then
        if isLeft then Node(Node(Nil, n, Nil), i, rr) else Node(l, i, Node(Nil, n, Nil))
      else Node(AttachedTree(l, pid, isLeft, n), i, AttachedTree(rr, pid, isLeft, n))
  }

  /** Distance of node `x` from the top of `t`. */
  ghost function Depth(t: Tree, x: int): nat
    requires x in Ids(t)
  {
    match t
    case Node(l, i, r) =>
      if x == i then 0
      else if x in Ids(l) then 1 + Depth(l, x)
      else 1 + Depth(r, x)
  }

  /** The subtree of `t` whose top is node `x`. */
  ghost function Find(t: Tree, x: int): (r: Tree)
    requires x in Ids(t)
    ensures r.Node? && r.id == x && Ids(r) <= Ids(t)
  {
    match t
    case Node(l, i, rr) =>
      if x == i then t
      else if x in Ids(l) then Find(l, x)
      else Find(rr, x)
  }

  /** The ids that are the left child of some node. */
  function LeftIds(t: Tree): set<int>
  {
    match t
    case Nil => {}
    case Node(l, _, r) => (if l.Node? then {l.id} else {}) + LeftIds(l) + LeftIds(r)
  }

  function SizeSum(q: seq<Tree>): nat
  {
    if q == [] then 0 else Size(q[0]) + SizeSum(q[1..])
  }

  lemma {:induction false} SizeSumAppend(p: seq<Tree>, q: seq<Tree>)
    ensures SizeSum(p + q) == SizeSum(p) + SizeSum(q)
  {
    if p == [] {
      assert p + q == q;
    } else {
      assert (p + q)[1..] == p[1..] + q;
      SizeSumAppend(p[1..], q);
    }
  }

  /** The non-empty children of a node, left before right, as a breadth-first traversal queues them. */
  function Children(t: Tree): seq<Tree>
  {
    match t
    case Nil => []
    case Node(l, _, r) => Optional(l) + Optional(r)
  }

  ghost predicate Queueable(d: seq<int>, q: seq<Tree>)
  {
    forall k :: 0 <= k < |q| ==> q[k].Node? && InRange(q[k], |d|)
  }

  lemma ChildrenQueueable(d: seq<int>, t: Tree)
    requires t.Node? && InRange(t, |d|)
    ensures Queueable(d, Children(t))
    ensures SizeSum(Children(t)) == Size(t) - 1
  {
    var l, r := t.left, t.right;
    var cl: seq<Tree> := if l.Node? then [l] else [];
    var cr: seq<Tree> := if r.Node? then [r] else [];
    SizeSumAppend(cl, cr);
    assert SizeSum(cl) == Size(l) by {
      if l.Node? { assert cl[1..] == []; }
    }
    assert SizeSum(cr) == Size(r) by {
      if r.Node? { assert cr[1..] == []; }
    }
  }

  /** Values of a queue of subtrees in breadth-first order: the traversal of a FIFO queue. */
  ghost function LevelOrderOf(d: seq<int>, q: seq<Tree>): seq<int>
    requires Queueable(d, q)
    decreases SizeSum(q)
  {
    if q == [] then []
    else
      ChildrenQueueable(d, q[0]);
      SizeSumAppend(q[1..], Children(q[0]));
      [d[q[0].id]] + LevelOrderOf(d, q[1..] + Children(q[0]))
  }

  ghost function LevelOrder(d: seq<int>, t: Tree): seq<int>
    requires InRange(t, |d|)
  {
    if t == Nil then [] else LevelOrderOf(d, [t])
  }

  /** The values of all trees of a queue, as a multiset. */
  ghost function ForestValues(d: seq<int>, q: seq<Tree>): multiset<int>
    requires forall k :: 0 <= k < |q| ==> InRange(q[k], |d|)
  {
    if q == [] then multiset{} else multiset(Keys(d, q[0])) + ForestValues(d, q[1..])
  }

  lemma {:induction false} ForestValuesAppend(d: seq<int>, p: seq<Tree>, q: seq<Tree>)
    requires forall k :: 0 <= k < |p| ==> InRange(p[k], |d|)
    requires forall k :: 0 <= k < |q| ==> InRange(q[k], |d|)
    ensures ForestValues(d, p + q) == ForestValues(d, p) + ForestValues(d, q)
  {
    if p == [] {
      assert p + q == q;
    } else {
      assert (p + q)[0] == p[0];
      assert (p + q)[1..] == p[1..] + q;
      ForestValuesAppend(d, p[1..], q);
    }
  }

  /** The breadth-first traversal lists every value of the queued trees exactly once. */
  lemma {:induction false} LevelOrderOfValues(d: seq<int>, q: seq<Tree>)
    requires Queueable(d, q)
    ensures multiset(LevelOrderOf(d, q)) == ForestValues(d, q)
    decreases SizeSum(q)
  {
    if q != [] {
      var t := q[0];
      var cs := Children(t);
      var rest := q[1..] + cs;
      var v := d[t.id];
      assert Queueable(d, rest) && SizeSum(rest) < SizeSum(q) by {
        ChildrenQueueable(d, t);
        SizeSumAppend(q[1..], cs);
      }
      var others, l, r := ForestValues(d, q[1..]), multiset(Keys(d, t.left)), multiset(Keys(d, t.right));
      assert multiset(LevelOrderOf(d, rest)) == others + (l + r) by {
        LevelOrderOfValues(d, rest);
        ChildrenQueueable(d, t);
        ForestValuesAppend(d, q[1..], cs);
        ChildrenValues(d, t);
      }
      assert multiset(LevelOrderOf(d, q)) == multiset{v} + multiset(LevelOrderOf(d, rest));
      assert ForestValues(d, q) == (l + multiset{v} + r) + others by {
        assert Keys(d, t) == Keys(d, t.left) + [v] + Keys(d, t.right);
      }
      Regroup(multiset{v}, others, l, r);
    }
  }

  lemma Regroup(e: multiset<int>, a: multiset<int>, b: multiset<int>, c: multiset<int>)
    ensures e + (a + (b + c)) == (b + e + c) + a
  {
  }

  lemma ChildrenValues(d: seq<int>, t: Tree)
    requires t.Node? && InRange(t, |d|)
    ensures Queueable(d, Children(t))
    ensures ForestValues(d, Children(t)) == multiset(Keys(d, t.left)) + multiset(Keys(d, t.right))
  {
    ChildrenQueueable(d, t);
    var l, r := t.left, t.right;
    var cl := Optional(l);
    var cr := Optional(r);
    assert Children(t) == cl + cr;
    OptionalValues(d, l);
    OptionalValues(d, r);
    ForestValuesAppend(d, cl, cr);
  }

  function Optional(t: Tree): seq<Tree>
  {
    if t.Node? then [t] else []
  }

  lemma OptionalValues(d: seq<int>, t: Tree)
    requires InRange(t, |d|)
    ensures forall k :: 0 <= k < |Optional(t)| ==> InRange(Optional(t)[k], |d|)
    ensures ForestValues(d, Optional(t)) == multiset(Keys(d, t))
  {
    if t.Node? {
      assert Optional(t)[1..] == [];
    }
  }

  /** The level order of a tree is a permutation of its in-order sequence and starts at its top. */
  lemma LevelOrderValues(d: seq<int>, t: Tree)
    requires InRange(t, |d|)
    ensures multiset(LevelOrder(d, t)) == multiset(Keys(d, t))
    ensures t.Node? ==> LevelOrder(d, t)[0] == d[t.id]
  {
    if t.Node? {
      LevelOrderOfValues(d, [t]);
      assert [t][1..] == [];
    }
  }
}
