/**
 * The breadth-first traversal of `Node.toString`: a FIFO queue of node
 * indices, each standing for the subtree the links hang below it.
 */
module Traversal {
  import opened Trees
  import opened Arenas
  import opened Render

  /** Every queued index is a stored node whose links represent the queued subtree beside it. */
  ghost predicate Queued(d: seq<int>, L: seq<int>, R: seq<int>, P: seq<int>, q: seq<int>, qt: seq<Tree>)
  {
    |L| == |d| && |R| == |d| && |P| == |d| && |q| == |qt| && Queueable(d, qt) &&
    forall k :: 0 <= k < |q| ==> 0 <= q[k] < |d| && Represents(L, R, P, qt[k], q[k], P[q[k]])
  }

  /**
   * The traversal step: taking the front node off the queue and adding its
   * children, read from the links, queues its subtrees, and the level order
   * of the queue loses exactly the front value.
   */
  lemma QueueStep(d: seq<int>, L: seq<int>, R: seq<int>, P: seq<int>, q: seq<int>, qt: seq<Tree>, q1: seq<int>)
    requires Queued(d, L, R, P, q, qt) && q != []
    requires q1 == q[1..] + (if L[q[0]] != -1 then [L[q[0]]] else []) + (if R[q[0]] != -1 then [R[q[0]]] else [])
    ensures var qt1 := qt[1..] + Children(qt[0]);
            Queued(d, L, R, P, q1, qt1) && SizeSum(qt1) < SizeSum(qt) &&
            (q1 == [] <==> LevelOrderOf(d, qt1) == []) &&
            LevelOrderOf(d, qt) == [d[q[0]]] + LevelOrderOf(d, qt1)
  {
    var next, nt := q[0], qt[0];
    ChildrenQueueable(d, nt);
    SizeSumAppend(qt[1..], Children(nt));
    assert SizeSum(qt) == Size(nt) + SizeSum(qt[1..]);
    var qt1 := qt[1..] + Children(nt);
    RepresentsInRange(L, R, P, nt, next, P[next]);
    assert Represents(L, R, P, nt.left, L[next], next) && Represents(L, R, P, nt.right, R[next], next);
    forall k | 0 <= k < |q1|
      ensures 0 <= q1[k] < |d| && Represents(L, R, P, qt1[k], q1[k], P[q1[k]])
    {
      if k < |q| - 1 {
        assert q1[k] == q[k + 1] && qt1[k] == qt[k + 1];
      } else if k == |q| - 1 && L[next] != -1 {
        assert q1[k] == L[next] && qt1[k] == nt.left;
      } else {
        assert q1[k] == R[next] && qt1[k] == nt.right;
      }
    }
    if qt1 != [] {
      assert qt1[0].Node?;
    }
  }

  /**
   * The loop of `Node.toString` (RedBlackTree.java:43-55) for the node `i`
   * of a store with values `d` and links `L`, `R` and `P`: a breadth-first
   * traversal with a FIFO queue that writes the values in level order.
   */
  method NodeString(d: seq<int>, L: seq<int>, R: seq<int>, ghost P: seq<int>, i: int, ghost top: Tree) returns (s: string)
    requires Queued(d, L, R, P, [i], [top])
    ensures s == Bracketed(LevelOrderOf(d, [top]))
  {
    var output := "[";
    var q := [i];
    ghost var qt := [top];
    while q != []
      invariant Queued(d, L, R, P, q, qt)
      invariant output + Join(LevelOrderOf(d, qt)) == "[" + Join(LevelOrderOf(d, [top]))
      decreases SizeSum(qt)
    {
      var next := q[0];
      ghost var nt, q0, qt0, out0 := qt[0], q, qt, output;
      q := q[1..];
      if L[next] != -1 {
        q := q + [L[next]];
      }
      if R[next] != -1 {
        q := q + [R[next]];
      }
      output := output + IntToString(d[next]);
      if q != [] {
        output := output + ", ";
      }
      qt := qt[1..] + Children(nt);
      QueueStep(d, L, R, P, q0, qt0, q);
      JoinCons(out0, d[next], LevelOrderOf(d, qt));
    }
    return output + "]";
  }
}
