# Red-black tree insertion, modelled in Dafny

This project models `RedBlackTree<T>` from `p2/RedBlackTree.java`. The model covers insertion and the level-order
`toString`, and proves properties of that code as written.

The nodes of the Java tree are held in one store, `Arena`. It has five sequences indexed by node: `data`, `left`,
`right`, `parent` and `black`. It also has a `root` index. The index -1 plays the part of a null reference. Each
`Node` record of the Java class (its value, its three links and `isBlack`) is one index of these sequences.

The class `RedBlack.RedBlackTree` has the same sequences as fields. Its methods rewrite the fields statement by
statement, the way the Java methods rewrite the nodes. Each method is proved to leave exactly the store that a
specification function computes:

| method | specification function |
|---|---|
| `Rotate` | `Rotated` |
| `Fixup` | `FixupS` |
| `InsertHelper` | `InsertHelperS` |
| `Insert` | `InsertS` |

The class also has a ghost field `tree`. It is the binary tree the links form, over node indices. `Holds(a, t)`
says that every link of the store agrees with `t`: child links lead down, `parent` links lead back up, and the root's
parent is null. It also says that every stored node occurs in `t` exactly once.

The main results are:

- **`rotate`.** It performs the tree rotation `RotatedTree`. It keeps all links consistent, the in-order sequence of
  values, and every colour.
- **The fix-up.** `enforceRBTreePropertiesAfterInsert` keeps the links, the values, the in-order sequence and a black
  root, whatever the colours below the root are.
- **`insertHelper`.**
  - Its descent (`Locate`) finds an equal value exactly when the tree holds one.
  - Otherwise it hangs the new red node at the place that keeps the in-order sequence sorted.
  - The fix-up then runs once per frame of the recursion, because the call at `RedBlackTree.java:118` follows the
    recursive call.
- **`insert`.**
  - A null value changes nothing, and neither does a value already present.
  - Otherwise the tree holds the old values plus the new one, in increasing order, with a black root.
- **`toString`.** Its breadth-first loop writes `"["`, then the level-order values separated by `", "`, then `"]"`.
- **Concrete insertion sequences.** For the four sequences of inserts in `p2/TestRedBlackTree.java`, the text `toString` returns is
  derived.
- **Balance.** One insertion sequence shows that the code does not keep black heights equal. In the red-uncle case, the
  grandparent is not reddened.

## Model

| member | source | states |
|---|---|---|
| Arenas.IsLeftChild | p2/RedBlackTree.java:30-32 | `isLeftChild` is false for a node with a null parent, and true only for the left child of a stored parent |
| Arenas.IsLeftChildMeaning | p2/RedBlackTree.java:30-32 | `isLeftChild` holds exactly for the nodes that are left children in the tree the links form, and never for the root |
| Rotation.Relinked | p2/RedBlackTree.java:154-161 | re-pointing the link that led to the parent keeps values, colours and all parent links, and leaves a store whose links are null or nodes |
| Rotation.Swapped | p2/RedBlackTree.java:162-172 | moving the inner subtree and the parent keeps values, colours and the root |
| Rotation.Rotated | p2/RedBlackTree.java:154-174 | the store after the statements of `rotate`, in their order; values and colours are untouched |
| Rotation.RotateHolds | p2/RedBlackTree.java:150-175 | on a well-linked store with `c` a child of `p`: the result holds the rotated tree, `c` takes `p`'s place (it becomes the root when `p` was), `c`'s parent is `p`'s old parent, `p`'s parent is `c`, and values and colours are unchanged |
| Trees.RotatedTreeKeys | p2/RedBlackTree.java:150-175 | a rotation anywhere in a tree keeps its in-order sequence of values |
| RedBlack.RedBlackTree.Rotate | p2/RedBlackTree.java:150-175 | succeeds exactly when `par` is `child`'s parent, and then leaves the store `Rotated` and the tree `RotatedTree`; otherwise (the `IllegalArgumentException`) nothing changes |
| RedBlack.RedBlackTree.Relink | p2/RedBlackTree.java:154-161 | the link that led to `par` (the root, or a child link of the grandparent) now leads to `child` |
| RedBlack.RedBlackTree.Swap | p2/RedBlackTree.java:162-172 | `child`'s inner subtree moves under `par` and is re-parented, and `par` becomes `child`'s child on the other side |
| FixUp.Straighten | p2/RedBlackTree.java:196-199 | case 3: for a zig-zag, rotating `red` above its parent leaves a well-linked store with the same values, colours, root and in-order sequence, and a node to continue with whose parent and itself hang on the same side, below the same grandparent |
| FixUp.OuterRotation | p2/RedBlackTree.java:201-201 | rotating the parent above the grandparent keeps `red1` below the parent, puts the old grandparent on the parent's far side, and makes the parent the root when the grandparent was |
| FixUp.Promote | p2/RedBlackTree.java:200-203 | case 2 keeps the links consistent, the values, the in-order sequence and a black root |
| FixUp.Restructure | p2/RedBlackTree.java:194-204 | cases 3 and 2 together keep the links consistent, the values, the in-order sequence and a black root |
| FixUp.FixupS | p2/RedBlackTree.java:186-219 | the fix-up, recursion included, keeps the links consistent, the values, the in-order sequence and a black root |
| FixUp.FixupIter | p2/RedBlackTree.java:118-118 | repeating the fix-up of one node keeps the same four properties |
| RedBlack.FixupUnfold | p2/RedBlackTree.java:187-217 | below a red parent, the grandparent exists and lies higher; with a red uncle, the fix-up equals blackening parent and uncle and fixing up the grandparent; otherwise it equals the restructuring |
| RedBlack.RedBlackTree.Fixup | p2/RedBlackTree.java:186-219 | the method leaves exactly the store and tree `FixupS` computes |
| RedBlack.RedBlackTree.RestructureLeft | p2/RedBlackTree.java:194-204 | the method leaves exactly what `Restructure` computes for a parent on the left |
| RedBlack.RedBlackTree.RestructureRight | p2/RedBlackTree.java:209-217 | the method leaves exactly what `Restructure` computes for a parent on the right |
| RedBlack.RedBlackTree.PromoteParent | p2/RedBlackTree.java:200-216 | the method leaves exactly what `Promote` computes, on either side |
| Insertion.Locate | p2/RedBlackTree.java:95-116 | the descent ends at a node of the subtree whose child on the chosen side is empty, after at least one frame |
| Insertion.LocateFinds | p2/RedBlackTree.java:96-99 | in an ordered tree, the descent meets `x` (the `IllegalArgumentException`) exactly when `x` is one of the tree's values |
| Insertion.LocatePlaces | p2/RedBlackTree.java:100-116 | hanging the new node where the descent ends gives the in-order sequence with `x` inserted in sorted position |
| Insertion.AttachA | p2/RedBlackTree.java:103-114 | hanging a new red node holding `x` appends it to the store and keeps the root |
| Insertion.AttachHolds | p2/RedBlackTree.java:103-114 | on a free slot, the store after hanging holds the tree with the new leaf, and the root stays black |
| Insertion.Grow | p2/RedBlackTree.java:103-118 | hanging the new node on a free slot and running the fix-up once per frame leaves the links consistent and the root black |
| Insertion.InsertHelperS | p2/RedBlackTree.java:95-119 | on a duplicate nothing changes; otherwise the store gains exactly the value `x` and stays well-linked with a black root |
| Insertion.InsertHelperGrows | p2/RedBlackTree.java:95-119 | `insertHelper` meets a duplicate exactly when the descent does; otherwise it hangs the node where the descent ends and then runs the fix-up once per frame |
| RedBlack.RedBlackTree.InsertHelper | p2/RedBlackTree.java:95-119 | the method returns the duplicate flag and leaves the store and tree `InsertHelperS` computes |
| RedBlack.RedBlackTree.Hang | p2/RedBlackTree.java:103-114 | the method leaves the store `AttachA` computes and the tree with the new leaf |
| Insertion.InsertS | p2/RedBlackTree.java:70-82 | whatever the outcome of `insert`, the store after it keeps the links consistent and the root black |
| Insertion.InsertCorrect | p2/RedBlackTree.java:70-82 | a null value gives `NullValue`, and a stored value gives `DuplicateValue`, each iff; both leave the tree unchanged; on success the store gains `x`, the in-order sequence is the old one with `x` inserted in sorted order, and the root is black |
| RedBlack.RedBlackTree.Insert | p2/RedBlackTree.java:70-82 | the method returns the outcome and leaves the store `InsertS` computes, and keeps the tree valid: consistent links, binary-search order and a black root |
| RedBlack.RedBlackTree.constructor | p2/RedBlackTree.java:58-58 | a new tree is empty (`root` is null) and valid |
| Render.IntToString | p2/RedBlackTree.java:51-51 | `Integer.toString` writes at least one character, with a leading `-` exactly for a negative value |
| Render.IntToStringRoundTrip | p2/RedBlackTree.java:51-51 | the written number reads back as the same number |
| Render.Bracketed | p2/RedBlackTree.java:43-55 | the text starts with `[` and ends with `]`, and is `[]` exactly for no values |
| Render.JoinAppend | p2/RedBlackTree.java:51-52 | two non-empty lists joined together have exactly one separator between them |
| Traversal.QueueStep | p2/RedBlackTree.java:47-52 | one turn of the loop: the queue still holds subtrees, it gets smaller, and the level order loses exactly the front value |
| Traversal.NodeString | p2/RedBlackTree.java:43-55 | the breadth-first loop returns the bracketed level order of the subtree |
| Trees.LevelOrderValues | p2/RedBlackTree.java:43-55 | the level order is a permutation of the subtree's values, and starts with the value at its top |
| RedBlack.RedBlackTree.NodeToString | p2/RedBlackTree.java:43-55 | `Node.toString` for any stored node returns the bracketed level order of the subtree below it |
| RedBlack.RedBlackTree.ToString | p2/RedBlackTree.java:130-132 | on a non-empty tree, returns the bracketed level order of the whole tree |
| Scenarios.FixupStops | p2/RedBlackTree.java:187-187 | a fix-up whose node has a black parent changes nothing, however often it is repeated |
| Scenarios.FixupIterFirst | p2/RedBlackTree.java:118-118 | the repeated fix-ups of one node are the first fix-up followed by the remaining ones |
| Scenarios.BuildIncreasing | p2/RedBlackTree.java:214-216 | inserting three increasing values ends with the middle one as a black root and the others as its red children |
| Scenarios.BuildDecreasing | p2/RedBlackTree.java:200-203 | inserting three decreasing values gives the mirror image |
| Scenarios.BuildZigZag | p2/RedBlackTree.java:196-203 | inserting x, then y, then z with y < z < x straightens the zig-zag and ends with z as a black root |
| Scenarios.BuildFour | p2/RedBlackTree.java:190-193 | with a red uncle, parent and uncle are blackened and the new node stays red |
| Scenarios.BuildSix | p2/RedBlackTree.java:190-193 | after inserting six values in the relative order of 10, 5, 15, 3, 7, 1, every node is black except the last one |
| Scenarios.UnevenBlackHeights | p2/RedBlackTree.java:190-193 | after 10, 5, 15, 3 and 7 every path down passes 2 black nodes; after a further 1 the paths differ in it |
| Scenarios.OutputIncreasing | p2/TestRedBlackTree.java:30-36 | inserting 1, 2, 3 makes `toString` return `[2, 1, 3]` |
| Scenarios.OutputDecreasing | p2/TestRedBlackTree.java:44-50 | inserting 3, 2, 1 makes `toString` return `[2, 1, 3]` |
| Scenarios.OutputZigZag | p2/TestRedBlackTree.java:58-64 | inserting 5, 1, 3 makes `toString` return `[3, 1, 5]` |
| Scenarios.OutputRedUncle | p2/TestRedBlackTree.java:15-22 | inserting 45, 26, 72, 18 makes `toString` return `[45, 26, 72, 18]`, with the closing bracket |

## Left out

- The generic `T extends Comparable<T>` is modelled as `int`. `compareTo` becomes integer order, and `T.toString`
  becomes `Integer.toString` (`Render.IntToString`).
- Exceptions are modelled as results, not thrown:
  - `insert` returns an `Outcome` (`NullValue` for the `NullPointerException`, `DuplicateValue` for the
    `IllegalArgumentException`);
  - `insertHelper` returns a duplicate flag;
  - `rotate` returns `false`.
- `RedBlack.RedBlackTree.Rotate`: a child with a null parent also returns `false`. The Java code throws a
  `NullPointerException` from `child.parent.equals` in that case.
- The new node is stored when it is hung, not when `insert` allocates it. Until then it is linked to nothing, and on a
  duplicate it is garbage, so the order of allocation is not observable.
- The two mirrored branches are written once each, with a side parameter:
  - in `insertHelper`;
  - in the straight case of the fix-up (`PromoteParent`);
  - in the specification functions of the fix-up.

  The two restructuring branches of the fix-up keep one method each.
- `java.util.LinkedList` is modelled as a sequence used as a FIFO queue. The string concatenation of `toString` is
  modelled as sequence concatenation.
- `toString` on an empty tree is excluded by a precondition (`root != -1`). The Java code dereferences a null `root`
  there.
- The rule that no red node has a red child is neither proved nor refuted. The fix-up below a red parent is modelled
  exactly, and its contracts state the structural properties (links, values, order, black root); a proof of this rule
  would need an invariant that also covers the repeated fix-ups of `RedBlackTree.java:118` on a node that is already
  black.
- The red-black guarantees that the comment at `RedBlackTree.java:177-178` promises are not claimed: equal black
  heights and logarithmic height. The code does not keep them (`Scenarios.UnevenBlackHeights`).
- The expected text at `TestRedBlackTree.java:21` lacks the closing bracket that `RedBlackTree.java:54` always writes.
  That expectation is not modelled; `Scenarios.OutputRedUncle` states the text the code returns.
- `p1/TestHashTable.java` and `p3/GraphTest.java` are not part of this model. The classes they exercise are not among
  the source files.
