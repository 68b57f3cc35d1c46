/** How a tree of programs/include/RbTree.hpp sits in its link records: the pointer
    fields of every node agree with the tree and with the path above the node. */
module RbLinks {
  import opened RbShape
  import opened RbOrder

  /** RBTREE_NIL */
  const NIL := -1

  datatype Links = Links(parent: int, left: int, right: int, color: Color)

  function Ptr(t: Tree): int { if t.Leaf? then NIL else t.idx }

  function Above(c: Ctx, base: int): int { if c.Top? then base else c.idx }

  predicate TreeRep(L: seq<Links>, p: int, t: Tree)
    decreases t
  {
    t.Node? ==>
      && t.idx < |L|
      && L[t.idx] == Links(p, Ptr(t.left), Ptr(t.right), t.color)
      && TreeRep(L, t.idx, t.left) && TreeRep(L, t.idx, t.right)
  }

  /** The record of the node right above the hole, when the hole holds `x`. */
  function HoleRecord(c: Ctx, x: int, base: int): Links
    requires !c.Top?
  {
    if c.InLeft? then Links(Above(c.up, base), x, Ptr(c.sib), c.color)
    else Links(Above(c.up, base), Ptr(c.sib), x, c.color)
  }

  /** The path `c` is laid out in `L`: its hole holds `x`, its topmost node (or the
      hole, when the path is empty) is `top`, and above that is `base`. */
  predicate CtxRep(L: seq<Links>, c: Ctx, x: int, top: int, base: int)
    decreases c
  {
    if c.Top? then top == x
    else
      && c.idx < |L|
      && L[c.idx] == HoleRecord(c, x, base)
      && TreeRep(L, c.idx, c.sib)
      && CtxRep(L, c.up, c.idx, top, base)
  }

  /** The whole structure, seen from the subtree `t` at the end of the path `c`. */
  predicate Zip(L: seq<Links>, root: int, c: Ctx, t: Tree) { ZipIn(L, root, NIL, c, t) }

  /** The same for a tree that hangs under the node `base`. */
  predicate ZipIn(L: seq<Links>, top: int, base: int, c: Ctx, t: Tree) {
    Sep(c, t) && TreeRep(L, Above(c, base), t) && CtxRep(L, c, Ptr(t), top, base)
  }

  lemma TreeChild(L: seq<Links>, p: int, t: Tree)
    requires TreeRep(L, p, t) && Distinct(t) && t.Node?
    ensures Distinct(t.left) && Distinct(t.right) && Elems(t.left) !! Elems(t.right)
    ensures Elems(t) == Elems(t.left) + {t.idx} + Elems(t.right)
    ensures t.idx !in Elems(t.left) && t.idx !in Elems(t.right)
    ensures TreeRep(L, t.idx, t.left) && TreeRep(L, t.idx, t.right)
    ensures t.idx < |L| && L[t.idx] == Links(p, Ptr(t.left), Ptr(t.right), t.color)
  {
  }

  lemma {:induction false} TreeFrame(L: seq<Links>, L': seq<Links>, p: int, q: int, t: Tree)
    requires |L| == |L'| && TreeRep(L, p, t) && Distinct(t)
    requires t.Node? ==> (p == q && L'[t.idx] == L[t.idx]) || L'[t.idx] == L[t.idx].(parent := q)
    requires forall i :: i in Elems(t) && i < |L| && i != Ptr(t) ==> L'[i] == L[i]
    ensures TreeRep(L', q, t)
    decreases t
  {
    if t.Node? {
      var i := t.idx;
      TreeFrame(L, L', i, i, t.left);
      TreeFrame(L, L', i, i, t.right);
    }
  }

  /** Only the hole pointer of a path changes. */
  lemma {:induction false} HoleFrame(L: seq<Links>, L': seq<Links>, c: Ctx, x: int, x': int, top: int, top': int, base: int)
    requires |L| == |L'| && CtxRep(L, c, x, top, base) && CDistinct(c)
    requires c.Top? ==> top' == x'
    requires !c.Top? ==> top' == top && L'[c.idx] == HoleRecord(c, x', base)
    requires forall i :: i in CElems(c) && i < |L| && i != Above(c, NIL) ==> L'[i] == L[i]
    ensures CtxRep(L', c, x', top', base)
  {
    if !c.Top? {
      TreeFrame(L, L', c.idx, c.idx, c.sib);
      if !c.up.Top? { assert L'[c.up.idx] == HoleRecord(c.up, c.idx, base); }
      HoleFrame(L, L', c.up, c.idx, c.idx, top, top, base);
    }
  }

  lemma {:induction false} TopInPath(L: seq<Links>, c: Ctx, x: int, top: int, base: int)
    requires CtxRep(L, c, x, top, base) && !c.Top?
    ensures 0 <= top && top as nat in CElems(c)
  {
    if !c.up.Top? { TopInPath(L, c.up, c.idx, top, base); }
  }

  lemma {:induction false} ElemsInside(L: seq<Links>, p: int, t: Tree, z: nat)
    requires TreeRep(L, p, t) && z in Elems(t)
    ensures z < |L|
    decreases t
  {
    if z in Elems(t.left) { ElemsInside(L, t.idx, t.left, z); }
    if z in Elems(t.right) { ElemsInside(L, t.idx, t.right, z); }
  }

  lemma {:induction false} OnceInOrder(t: Tree, j: nat, k: nat)
    requires Distinct(t) && j < k < |InOrder(t)|
    ensures InOrder(t)[j] != InOrder(t)[k]
    decreases t
  {
    var n := |InOrder(t.left)|;
    InOrderElems(t.left);
    InOrderElems(t.right);
    if k < n {
      OnceInOrder(t.left, j, k);
    } else if j > n {
      OnceInOrder(t.right, j - n - 1, k - n - 1);
    } else if j < n {
      assert InOrder(t)[j] in InOrder(t.left) && InOrder(t)[k] in [t.idx] + InOrder(t.right);
    } else {
      assert InOrder(t)[k] == InOrder(t.right)[k - n - 1];
    }
  }

  /** A node taken out of the sequence of a tree is gone. */
  lemma RemovedGone(t: Tree, z: nat)
    requires Distinct(t)
    ensures forall s: seq<nat> :: Removed(InOrder(t), z, s) ==> z !in s
  {
    var v := InOrder(t);
    forall s: seq<nat> | Removed(v, z, s)
      ensures z !in s
    {
      var k: int :| RemovedAt(v, z, s, k);
      forall j | 0 <= j < |s|
        ensures s[j] != z
      {
        if j < k { OnceInOrder(t, j, k); } else { OnceInOrder(t, k, j + 1); }
      }
    }
  }

  /** The same links seen from one node higher. */
  lemma ShiftIn(L: seq<Links>, top: int, base: int, c: Ctx, t: Tree)
    requires !c.Top?
    ensures ZipIn(L, top, base, c, t) <==> ZipIn(L, top, base, c.up, Join(c, t))
  {
  }

  lemma Shift(L: seq<Links>, root: int, c: Ctx, t: Tree)
    requires !c.Top?
    ensures Zip(L, root, c, t) <==> Zip(L, root, c.up, Join(c, t))
  {
    ShiftIn(L, root, NIL, c, t);
  }

  lemma {:induction false} Climb(L: seq<Links>, root: int, c: Ctx, t: Tree)
    ensures Zip(L, root, c, t) <==> Zip(L, root, Top, Fill(c, t))
    decreases c
  {
    if !c.Top? {
      Shift(L, root, c, t);
      Climb(L, root, c.up, Join(c, t));
    }
  }

  // ---- Rotations ----

  /** Puts `d` (with its root re-parented) into the hole of `c`. */
  lemma Replace(L: seq<Links>, L': seq<Links>, root: int, root': int, c: Ctx, t: Tree, d: Tree)
    requires Zip(L, root, c, t) && |L'| == |L|
    requires Distinct(d) && Elems(d) !! CElems(c)
    requires TreeRep(L', Above(c, NIL), d)
    requires c.Top? ==> root' == Ptr(d)
    requires !c.Top? ==> root' == root && L'[c.idx] == HoleRecord(c, Ptr(d), NIL)
    requires forall i :: i in CElems(c) && i < |L| && i != Above(c, NIL) ==> L'[i] == L[i]
    ensures Zip(L', root', c, d)
  {
    HoleFrame(L, L', c, Ptr(t), Ptr(d), root, root', NIL);
  }

  predicate CanRotL(t: Tree) { t.Node? && t.right.Node? }

  predicate CanRotR(t: Tree) { t.Node? && t.left.Node? }

  function RotL(t: Tree): Tree
    requires CanRotL(t)
  {
    Node(Node(t.left, t.idx, t.color, t.right.left), t.right.idx, t.right.color, t.right.right)
  }

  function RotR(t: Tree): Tree
    requires CanRotR(t)
  {
    Node(t.left.left, t.left.idx, t.left.color, Node(t.left.right, t.idx, t.color, t.right))
  }

  lemma RotInOrder(t: Tree)
    ensures CanRotL(t) ==> InOrder(RotL(t)) == InOrder(t) && Elems(RotL(t)) == Elems(t)
    ensures CanRotR(t) ==> InOrder(RotR(t)) == InOrder(t) && Elems(RotR(t)) == Elems(t)
  {
  }

  /** What the two rotations write, record by record; `x` is the node that goes down,
      `y` the one that goes up and `b` the subtree that changes sides. */
  predicate Rotated(L: seq<Links>, L': seq<Links>, c: Ctx, x: nat, y: nat, b: Tree, left: bool)
  {
    && |L'| == |L| && x < |L| && y < |L|
    && L'[x] == (if left then L[x].(right := Ptr(b), parent := y) else L[x].(left := Ptr(b), parent := y))
    && L'[y] == (if left then L[y].(left := x, parent := Above(c, NIL)) else L[y].(right := x, parent := Above(c, NIL)))
    && (b.Node? && b.idx < |L| ==> L'[b.idx] == L[b.idx].(parent := x))
    && (!c.Top? && c.idx < |L| ==> L'[c.idx] == HoleRecord(c, y, NIL))
    && forall i: nat :: i < |L| && i != x && i != y && i != Ptr(b) && i != Above(c, NIL) ==> L'[i] == L[i]
  }

  /** The records that a rotation to the left works on. */
  lemma RotLParts(L: seq<Links>, root: int, c: Ctx, t: Tree)
    requires CanRotL(t) && Zip(L, root, c, t)
    ensures var (x, y, b) := (t.idx, t.right.idx, t.right.left);
      && x < |L| && y < |L| && x != y && Ptr(b) < |L| && Ptr(b) !in {x, y}
      && L[x] == Links(Above(c, NIL), Ptr(t.left), y, t.color) && L[y] == Links(x, Ptr(b), Ptr(t.right.right), t.right.color)
      && (!c.Top? ==> c.idx < |L| && c.idx !in {x, y} && c.idx != Ptr(b) && L[c.idx] == HoleRecord(c, x, NIL) && Ptr(c.sib) != x)
  {
    var x, y, b := t.idx, t.right.idx, t.right.left;
    TreeChild(L, Above(c, NIL), t);
    TreeChild(L, x, t.right);
    if b.Node? { TreeChild(L, y, b); }
  }

  lemma RotLTree(L: seq<Links>, L': seq<Links>, root: int, c: Ctx, t: Tree)
    requires CanRotL(t) && Zip(L, root, c, t) && Rotated(L, L', c, t.idx, t.right.idx, t.right.left, true)
    ensures TreeRep(L', Above(c, NIL), RotL(t)) && Distinct(RotL(t)) && Elems(RotL(t)) == Elems(t)
    ensures t.idx in Elems(t) && t.right.idx in Elems(t) && Elems(t.right.left) <= Elems(t)
  {
    hide CtxRep;
    var x, y := t.idx, t.right.idx;
    TreeChild(L, Above(c, NIL), t);
    TreeChild(L, x, t.right);
    TreeFrame(L, L', x, x, t.left);
    TreeFrame(L, L', y, x, t.right.left);
    TreeFrame(L, L', y, y, t.right.right);
  }

  lemma RotLRep(L: seq<Links>, L': seq<Links>, root: int, root': int, c: Ctx, t: Tree)
    requires CanRotL(t) && Zip(L, root, c, t)
    requires Rotated(L, L', c, t.idx, t.right.idx, t.right.left, true)
    requires root' == if c.Top? then t.right.idx else root
    ensures Zip(L', root', c, RotL(t)) && Flat(c, RotL(t)) == Flat(c, t)
  {
    hide TreeRep, Distinct, InOrder;
    RotLTree(L, L', root, c, t);
    RotInOrder(t);
    if t.right.left.Node? { RootIn(t.right.left); }
    Replace(L, L', root, root', c, t, RotL(t));
  }

  /** The records that a rotation to the right works on. */
  lemma RotRParts(L: seq<Links>, root: int, c: Ctx, t: Tree)
    requires CanRotR(t) && Zip(L, root, c, t)
    ensures var (x, y, b) := (t.idx, t.left.idx, t.left.right);
      && x < |L| && y < |L| && x != y && Ptr(b) < |L| && Ptr(b) !in {x, y}
      && L[x] == Links(Above(c, NIL), y, Ptr(t.right), t.color) && L[y] == Links(x, Ptr(t.left.left), Ptr(b), t.left.color)
      && (!c.Top? ==> c.idx < |L| && c.idx !in {x, y} && c.idx != Ptr(b) && L[c.idx] == HoleRecord(c, x, NIL) && Ptr(c.sib) != x)
  {
    var x, y, b := t.idx, t.left.idx, t.left.right;
    TreeChild(L, Above(c, NIL), t);
    TreeChild(L, x, t.left);
    if b.Node? { TreeChild(L, y, b); }
  }

  lemma RotRTree(L: seq<Links>, L': seq<Links>, root: int, c: Ctx, t: Tree)
    requires CanRotR(t) && Zip(L, root, c, t) && Rotated(L, L', c, t.idx, t.left.idx, t.left.right, false)
    ensures TreeRep(L', Above(c, NIL), RotR(t)) && Distinct(RotR(t)) && Elems(RotR(t)) == Elems(t)
    ensures t.idx in Elems(t) && t.left.idx in Elems(t) && Elems(t.left.right) <= Elems(t)
  {
    hide CtxRep;
    var x, y := t.idx, t.left.idx;
    TreeChild(L, Above(c, NIL), t);
    TreeChild(L, x, t.left);
    TreeFrame(L, L', x, x, t.right);
    TreeFrame(L, L', y, x, t.left.right);
    TreeFrame(L, L', y, y, t.left.left);
  }

  lemma RotRRep(L: seq<Links>, L': seq<Links>, root: int, root': int, c: Ctx, t: Tree)
    requires CanRotR(t) && Zip(L, root, c, t)
    requires Rotated(L, L', c, t.idx, t.left.idx, t.left.right, false)
    requires root' == if c.Top? then t.left.idx else root
    ensures Zip(L', root', c, RotR(t)) && Flat(c, RotR(t)) == Flat(c, t)
  {
    hide TreeRep, Distinct, InOrder;
    RotRTree(L, L', root, c, t);
    RotInOrder(t);
    if t.left.right.Node? { RootIn(t.left.right); }
    Replace(L, L', root, root', c, t, RotR(t));
  }

  /** Repainting the node at the end of a path. */
  lemma PaintRep(L: seq<Links>, root: int, c: Ctx, t: Tree, col: Color)
    requires Zip(L, root, c, t) && t.Node?
    ensures Zip(L[t.idx := L[t.idx].(color := col)], root, c, t.(color := col))
    ensures Flat(c, t.(color := col)) == Flat(c, t)
  {
    var L' := L[t.idx := L[t.idx].(color := col)];
    TreeFrame(L, L', t.idx, t.idx, t.left);
    TreeFrame(L, L', t.idx, t.idx, t.right);
    if !c.Top? { assert L[c.idx] == HoleRecord(c, Ptr(t), NIL); }
    Replace(L, L', root, root, c, t, t.(color := col));
  }

  // ---- Insert: descending to the leaf where the new node goes ----

  /** Everything before the hole stays before `z`, everything after it after `z`. */
  ghost predicate Descending(less: Less, L: seq<Links>, root: int, tree: Tree, c: Ctx, t: Tree, z: nat) {
    && Zip(L, root, c, t) && Fill(c, t) == tree && Flat(c, t) == InOrder(tree)
    && z !in Elems(t) && z !in CElems(c)
    && GoesAfter(less, z, Before(c)) && GoesBefore(less, z, After(c))
  }

  lemma DescendOrder(less: Less, c: Ctx, t: Tree, z: nat)
    requires StrictWeak(less) && Sorted(less, Flat(c, t)) && t.Node?
    requires GoesAfter(less, z, Before(c)) && GoesBefore(less, z, After(c))
    ensures less(z, t.idx) ==> GoesBefore(less, z, After(InLeft(c, t.idx, t.color, t.right)))
    ensures !less(z, t.idx) ==> GoesAfter(less, z, Before(InRight(c, t.idx, t.color, t.left)))
  {
    Descend(less, Before(c), InOrder(t.left), t.idx, InOrder(t.right), After(c), z);
  }

  lemma DescendLeft(less: Less, L: seq<Links>, root: int, tree: Tree, c: Ctx, t: Tree, z: nat)
    requires StrictWeak(less) && Sorted(less, InOrder(tree))
    requires Descending(less, L, root, tree, c, t, z) && t.Node? && less(z, t.idx)
    ensures t.idx < |L| && L[t.idx].left == Ptr(t.left)
    ensures Descending(less, L, root, tree, InLeft(c, t.idx, t.color, t.right), t.left, z)
  {
    DescendOrder(less, c, t, z);
    var d := InLeft(c, t.idx, t.color, t.right);
    assert Join(d, t.left) == t;
    Shift(L, root, d, t.left);
    FlatJoin(d, t.left);
  }

  lemma DescendRight(less: Less, L: seq<Links>, root: int, tree: Tree, c: Ctx, t: Tree, z: nat)
    requires StrictWeak(less) && Sorted(less, InOrder(tree))
    requires Descending(less, L, root, tree, c, t, z) && t.Node? && !less(z, t.idx)
    ensures t.idx < |L| && L[t.idx].right == Ptr(t.right)
    ensures Descending(less, L, root, tree, InRight(c, t.idx, t.color, t.left), t.right, z)
  {
    DescendOrder(less, c, t, z);
    var d := InRight(c, t.idx, t.color, t.left);
    assert Join(d, t.right) == t;
    Shift(L, root, d, t.right);
    FlatJoin(d, t.right);
  }

  lemma AttachedOrder(less: Less, tree: Tree, c: Ctx, z: nat)
    requires StrictWeak(less) && Sorted(less, InOrder(tree)) && Flat(c, Leaf) == InOrder(tree)
    requires GoesAfter(less, z, Before(c)) && GoesBefore(less, z, After(c))
    ensures Sorted(less, Flat(c, Node(Leaf, z, Red, Leaf)))
    ensures InOrder(tree) == Before(c) + After(c)
    ensures Flat(c, Node(Leaf, z, Red, Leaf)) == Before(c) + [z] + After(c)
  {
    assert InOrder(Node(Leaf, z, Red, Leaf)) == [z];
    assert InOrder(tree) == Before(c) + After(c);
    SortedInsert(less, Before(c), After(c), z);
  }

  /** The new red node hung into the leaf at the end of the path. */
  lemma Attached(less: Less, L: seq<Links>, L': seq<Links>, root: int, root': int, tree: Tree, c: Ctx, z: nat)
    requires StrictWeak(less) && Sorted(less, InOrder(tree)) && Rb(tree) && !IsRed(tree)
    requires Descending(less, L, root, tree, c, Leaf, z) && z < |L| == |L'|
    requires L'[z] == Links(Above(c, NIL), NIL, NIL, Red)
    requires c.Top? ==> root' == z
    requires !c.Top? ==> root' == root && L'[c.idx] == HoleRecord(c, z, NIL)
    requires forall i :: 0 <= i < |L| && i != z && i != Above(c, NIL) ==> L'[i] == L[i]
    ensures var t := Node(Leaf, z, Red, Leaf);
      Zip(L', root', c, t) && Rb(t) && CtxOk(c, BH(t)) && Sorted(less, Flat(c, t))
    ensures InOrder(tree) == Before(c) + After(c)
    ensures Flat(c, Node(Leaf, z, Red, Leaf)) == Before(c) + [z] + After(c)
  {
    var t := Node(Leaf, z, Red, Leaf);
    UnfillRb(c, Leaf);
    AttachedOrder(less, tree, c, z);
    Replace(L, L', root, root', c, Leaf, t);
  }

  /** Whether the hole is the left child decides the last comparison. */
  lemma HoleSide(less: Less, c: Ctx, z: nat)
    requires GoesAfter(less, z, Before(c)) && GoesBefore(less, z, After(c))
    ensures c.InLeft? ==> less(z, c.idx)
    ensures c.InRight? ==> !less(z, c.idx)
  {
    if c.InLeft? { assert After(c)[0] == c.idx; }
    if c.InRight? { assert Before(c)[|Before(c)| - 1] == c.idx; }
  }

  // ---- Searching for the end of a prefix ----

  ghost predicate Searching(cmp: Cmp, L: seq<Links>, root: int, tree: Tree, c: Ctx, t: Tree) {
    && Zip(L, root, c, t) && Flat(c, t) == InOrder(tree)
    && HoldsOnPrefix(cmp, InOrder(tree))
    && AllTrue(cmp, Before(c)) && AllFalse(cmp, After(c))
  }

  lemma SearchLeft(cmp: Cmp, L: seq<Links>, root: int, tree: Tree, c: Ctx, t: Tree)
    requires Searching(cmp, L, root, tree, c, t) && t.Node? && !cmp(t.idx)
    ensures var d := InLeft(c, t.idx, t.color, t.right);
      && Searching(cmp, L, root, tree, d, t.left) && Head(After(d)) == t.idx
      && t.idx < |L| && L[t.idx].left == Ptr(t.left) && Height(t.left) < Height(t)
  {
    PrefixDescend(cmp, Before(c), InOrder(t.left), t.idx, InOrder(t.right), After(c));
    var d := InLeft(c, t.idx, t.color, t.right);
    Shift(L, root, d, t.left);
    FlatJoin(d, t.left);
  }

  lemma SearchRight(cmp: Cmp, L: seq<Links>, root: int, tree: Tree, c: Ctx, t: Tree)
    requires Searching(cmp, L, root, tree, c, t) && t.Node? && cmp(t.idx)
    ensures var d := InRight(c, t.idx, t.color, t.left);
      && Searching(cmp, L, root, tree, d, t.right) && Last(Before(d)) == t.idx
      && t.idx < |L| && L[t.idx].right == Ptr(t.right) && Height(t.right) < Height(t)
  {
    PrefixDescend(cmp, Before(c), InOrder(t.left), t.idx, InOrder(t.right), After(c));
    var d := InRight(c, t.idx, t.color, t.left);
    Shift(L, root, d, t.right);
    FlatJoin(d, t.right);
  }

  lemma SearchDone(cmp: Cmp, L: seq<Links>, root: int, tree: Tree, c: Ctx)
    requires Searching(cmp, L, root, tree, c, Leaf)
    ensures FirstFalse(cmp, InOrder(tree)) == Head(After(c))
    ensures LastTrue(cmp, InOrder(tree)) == Last(Before(c))
  {
    assert InOrder(tree) == Before(c) + After(c);
    FirstFalseSplit(cmp, Before(c), After(c));
    LastTrueSplit(cmp, Before(c), After(c));
  }

  // ---- The steps of the insert fixup ----

  function Flipped(t: Tree): Tree
    requires t.Node? && t.left.Node? && t.right.Node?
  {
    Node(t.left.(color := Black), t.idx, Red, t.right.(color := Black))
  }

  /** Two levels up from a red node under a red parent: the grandparent exists, and
      the pointers the fixup reads lead where they should. */
  lemma TwoUp(L: seq<Links>, root: int, c: Ctx, t: Tree)
    requires Zip(L, root, c, t) && IsRed(t) && Rb(t) && CtxOk(c, BH(t)) && HoleUnderRed(c)
    ensures !c.up.Top?
    ensures var cp := c.up; var p := Join(c, t); var g := Join(cp, p);
      && Zip(L, root, cp.up, g) && Flat(cp.up, g) == Flat(c, t)
      && c.idx < |L| && cp.idx < |L| && t.idx < |L|
      && L[c.idx].parent == cp.idx
      && (L[cp.idx].left == c.idx <==> cp.InLeft?)
      && L[cp.idx].left == Ptr(g.left) && L[cp.idx].right == Ptr(g.right)
      && (L[c.idx].right == t.idx <==> c.InRight?)
      && (L[c.idx].left == t.idx <==> c.InLeft?)
      && (cp.sib.Node? ==> cp.sib.idx < |L| && L[cp.sib.idx].color == cp.sib.color)
  {
    var cp, p := c.up, Join(c, t);
    Shift(L, root, c, t);
    Shift(L, root, cp, p);
    FlatJoin(c, t);
    FlatJoin(cp, p);
  }

  /** The grandparent turns red in place of its two red children. */
  lemma FlipOk(c: Ctx, t: Tree)
    requires IsRed(t) && Rb(t) && CtxOk(c, BH(t)) && HoleUnderRed(c) && IsRed(c.up.sib)
    ensures var g := Join(c.up, Join(c, t));
      g.left.Node? && g.right.Node? && IsRed(Flipped(g)) && Rb(Flipped(g)) && CtxOk(c.up.up, BH(Flipped(g)))
  {
    var g := Join(c.up, Join(c, t));
    assert BH(Flipped(g)) == BH(t) + 1;
  }

  /** What is left after the rotations of a red parent that is a left child: the red
      node below the black middle one. */
  function RotatedRight(c: Ctx, t: Tree): (r: (Ctx, Tree))
    requires !c.Top? && t.Node? && c.up.InLeft?
  {
    var g := c.up;
    if c.InLeft? then
      (InLeft(g.up, c.idx, Black, Node(c.sib, g.idx, Red, g.sib)), t)
    else
      (InLeft(g.up, t.idx, Black, Node(t.right, g.idx, Red, g.sib)), Node(c.sib, c.idx, c.color, t.left))
  }

  function RotatedLeft(c: Ctx, t: Tree): (r: (Ctx, Tree))
    requires !c.Top? && t.Node? && c.up.InRight?
  {
    var g := c.up;
    if c.InRight? then
      (InRight(g.up, c.idx, Black, Node(g.sib, g.idx, Red, c.sib)), t)
    else
      (InRight(g.up, t.idx, Black, Node(g.sib, g.idx, Red, t.left)), Node(t.right, c.idx, c.color, c.sib))
  }

  lemma RotatedOk(c: Ctx, t: Tree)
    requires IsRed(t) && Rb(t) && CtxOk(c, BH(t)) && HoleUnderRed(c) && !IsRed(c.up.sib)
    ensures var (d, s) := if c.up.InLeft? then RotatedRight(c, t) else RotatedLeft(c, t);
      IsRed(s) && Rb(s) && CtxOk(d, BH(s)) && !HoleUnderRed(d) && Depth(d) < Depth(c)
  {
    var (d, s) := if c.up.InLeft? then RotatedRight(c, t) else RotatedLeft(c, t);
    assert BH(s) == BH(t);
    assert CtxOk(c.up, BH(t));
    assert BH(d.sib) == BH(t);
    assert CtxOk(d.up, BH(t) + 1);
  }

  /** Reading back the two parent pointers after a rotation under the grandparent. */
  lemma ReadPath(L: seq<Links>, root: int, c: Ctx, t: Tree)
    requires Zip(L, root, c, t) && t.Node?
    ensures t.left.Node? ==> t.left.idx < |L| && L[t.left.idx].parent == t.idx
    ensures t.left.Node? && t.left.left.Node? ==> t.left.left.idx < |L| && L[t.left.left.idx].parent == t.left.idx
    ensures t.right.Node? ==> t.right.idx < |L| && L[t.right.idx].parent == t.idx
    ensures t.right.Node? && t.right.right.Node? ==> t.right.right.idx < |L| && L[t.right.right.idx].parent == t.right.idx
  {
    TreeChild(L, Above(c, NIL), t);
    if t.left.Node? { TreeChild(L, t.idx, t.left); }
    if t.right.Node? { TreeChild(L, t.idx, t.right); }
  }

  /** When the fixup stops, only the root may still be red. */
  lemma FinishTop(L: seq<Links>, root: int, c: Ctx, t: Tree)
    requires Zip(L, root, c, t) && IsRed(t) && Rb(t) && CtxOk(c, BH(t)) && !HoleUnderRed(c)
    ensures var s := Fill(c, t);
      Zip(L, root, Top, s) && s.Node? && root == s.idx && Rb(s.(color := Black)) && InOrder(s.(color := Black)) == Flat(c, t)
  {
    Climb(L, root, c, t);
    FillRb(c, t);
    FillNode(c, t);
    FillInOrder(c, t);
  }

  // ---- Remove ----

  predicate LeftSpine(m: Ctx) { m.Top? || (m.InLeft? && LeftSpine(m.up)) }

  function TransplantLinks(L: seq<Links>, u: nat, v: int): (L': seq<Links>)
    requires u < |L| && NIL <= v < |L| && NIL <= L[u].parent < |L|
    ensures |L'| == |L|
  {
    var up := L[u].parent;
    var L1 :=
      if up == NIL then L
      else if u == L[up].left then L[up := L[up].(left := v)]
      else L[up := L[up].(right := v)];
    if v == NIL then L1 else L1[v := L1[v].(parent := up)]
  }

  /** The rules hold once the root of `t` is painted black. */
  predicate RbBlack(t: Tree) { t.Node? ==> Rb(t.(color := Black)) }

  /** The path to the sibling of the hole. */
  function Opposite(c: Ctx, t: Tree): Ctx
    requires !c.Top?
  {
    if c.InLeft? then InRight(c.up, c.idx, c.color, t) else InLeft(c.up, c.idx, c.color, t)
  }

  function RedSibling(c: Ctx): Ctx
    requires !c.Top? && c.sib.Node?
  {
    if c.InLeft? then InLeft(InLeft(c.up, c.sib.idx, Black, c.sib.right), c.idx, Red, c.sib.left)
    else InRight(InRight(c.up, c.sib.idx, Black, c.sib.left), c.idx, Red, c.sib.right)
  }

  lemma RedSiblingOk(c: Ctx, t: Tree)
    requires CtxOk(c, BH(t) + 1) && !c.Top? && IsRed(c.sib)
    ensures CtxOk(RedSibling(c), BH(t) + 1) && RedSibling(c).sib.Node? && !IsRed(RedSibling(c).sib)
  {
    var d := RedSibling(c);
    assert BH(c.sib) == BH(t) + 1 && BH(c.sib.left) == BH(t) + 1;
    assert CtxOk(d.up, BH(t) + 1);
  }

  predicate NephewRed(c: Ctx) {
    !c.Top? && c.sib.Node? && (IsRed(c.sib.left) || IsRed(c.sib.right))
  }

  /** The far nephew: the sibling's child on the side away from the hole. */
  predicate FarRed(c: Ctx) {
    !c.Top? && c.sib.Node? && IsRed(if c.InLeft? then c.sib.right else c.sib.left)
  }

  /** Rotating the red near nephew above its black parent. */
  function TurnedOut(c: Ctx): Ctx
    requires NephewRed(c) && !FarRed(c)
  {
    var s := c.sib;
    if c.InLeft? then
      InLeft(c.up, c.idx, c.color, Node(s.left.left, s.left.idx, Black, Node(s.left.right, s.idx, Red, s.right)))
    else
      InRight(c.up, c.idx, c.color, Node(Node(s.left, s.idx, Red, s.right.left), s.right.idx, Black, s.right.right))
  }

  /** Rotating the sibling above the parent, with the sibling's far child black. */
  function LiftedSibling(c: Ctx, t: Tree): Tree
    requires FarRed(c)
  {
    var s := c.sib;
    if c.InLeft? then Node(Node(t, c.idx, Black, s.left), s.idx, c.color, s.right.(color := Black))
    else Node(s.left.(color := Black), s.idx, c.color, Node(s.right, c.idx, Black, t))
  }

  lemma TurnedOutOk(c: Ctx, t: Tree)
    requires CtxOk(c, BH(t) + 1) && NephewRed(c) && !FarRed(c) && !IsRed(c.sib)
    ensures var d := TurnedOut(c);
      CtxOk(d, BH(t) + 1) && FarRed(d) && !IsRed(d.sib)
  {
    if c.InLeft? { TurnedOutLeft(c, t); } else { TurnedOutRight(c, t); }
  }

  lemma TurnedOutLeft(c: Ctx, t: Tree)
    requires c.InLeft? && CtxOk(c, BH(t) + 1) && NephewRed(c) && !FarRed(c) && !IsRed(c.sib)
    ensures var d := TurnedOut(c);
      CtxOk(d, BH(t) + 1) && FarRed(d) && !IsRed(d.sib)
  {
    var s, d := c.sib, TurnedOut(c);
    var n := s.left;
    assert BH(n) == BH(t) && BH(s.right) == BH(t);
    assert Rb(n) && Rb(n.left) && Rb(n.right) && BH(n.left) == BH(t) && BH(n.right) == BH(t);
    assert Rb(d.sib.right);
    assert Rb(d.sib) && BH(d.sib) == BH(t) + 1;
  }

  lemma TurnedOutRight(c: Ctx, t: Tree)
    requires c.InRight? && CtxOk(c, BH(t) + 1) && NephewRed(c) && !FarRed(c) && !IsRed(c.sib)
    ensures var d := TurnedOut(c);
      CtxOk(d, BH(t) + 1) && FarRed(d) && !IsRed(d.sib)
  {
    var s, d := c.sib, TurnedOut(c);
    var n := s.right;
    assert BH(n) == BH(t) && BH(s.left) == BH(t);
    assert Rb(n) && Rb(n.left) && Rb(n.right) && BH(n.left) == BH(t) && BH(n.right) == BH(t);
    assert Rb(d.sib.left);
    assert Rb(d.sib) && BH(d.sib) == BH(t) + 1;
  }

  lemma LiftedOk(c: Ctx, t: Tree)
    requires Rb(t) && CtxOk(c, BH(t) + 1) && FarRed(c) && !IsRed(c.sib) && !IsRed(t)
    ensures var r := LiftedSibling(c, t);
      && Rb(r) && CtxOk(c.up, BH(r))
      && (IsRed(r) ==> !HoleUnderRed(c.up))
  {
    var s := c.sib;
    assert BH(s.left) == BH(t) && BH(s.right) == BH(t);
    var f := if c.InLeft? then s.right else s.left;
    assert Rb(f) && Rb(f.(color := Black)) && BH(f.(color := Black)) == BH(t) + 1;
    var r := LiftedSibling(c, t);
    assert Rb(if c.InLeft? then r.left else r.right);
  }

  /** How far the fixup is from its end: a red `t` ends it at once. */
  function Unfinished(c: Ctx, t: Tree): nat { if IsRed(t) then 0 else Depth(c) }

  /** The hole is one black node short, so the sibling is a node, and reading the
      parent's left pointer tells which side the hole is on even when it is empty. */
  lemma ReadSibling(L: seq<Links>, root: int, c: Ctx, t: Tree)
    requires Zip(L, root, c, t) && CtxOk(c, BH(t) + 1)
    ensures !c.Top? ==>
      && c.sib.Node? && c.idx < |L| && c.sib.idx < |L|
      && (L[c.idx].left == Ptr(t) <==> c.InLeft?)
      && (c.InLeft? ==> L[c.idx].right == c.sib.idx) && (c.InRight? ==> L[c.idx].left == c.sib.idx)
      && L[c.sib.idx].color == c.sib.color
      && L[c.sib.idx].left == Ptr(c.sib.left) && L[c.sib.idx].right == Ptr(c.sib.right)
      && (c.sib.left.Node? ==> c.sib.left.idx < |L| && L[c.sib.left.idx].color == c.sib.left.color)
      && (c.sib.right.Node? ==> c.sib.right.idx < |L| && L[c.sib.right.idx].color == c.sib.right.color)
    ensures !c.Top? ==> Ptr(t) != root
    ensures t.Node? ==> t.idx < |L| && L[t.idx].color == t.color
  {
    if !c.Top? {
      TopInPath(L, c, Ptr(t), root, NIL);
      TreeChild(L, c.idx, c.sib);
    }
  }

  /** Two black nephews: the shortage moves up to the parent. */
  lemma BothBlackOk(c: Ctx, t: Tree)
    requires Rb(t) && !IsRed(t) && CtxOk(c, BH(t) + 1) && !c.Top? && !IsRed(c.sib)
    requires c.sib.Node? && !IsRed(c.sib.left) && !IsRed(c.sib.right)
    ensures var s := Join(Opposite(c, t), c.sib.(color := Red));
      RbBlack(s) && CtxOk(c.up, BH(s) + 1)
  {
    var w := c.sib.(color := Red);
    assert Rb(w) && BH(w) == BH(t);
    assert BH(Join(Opposite(c, t), w)) == BH(t) + BlackUnit(c.color);
  }

  /** A repaired subtree back in its place: the whole tree is well formed again. */
  lemma WholeTree(L: seq<Links>, root: int, c: Ctx, t: Tree)
    requires Zip(L, root, c, t) && Rb(t) && CtxOk(c, BH(t))
    requires IsRed(t) ==> !c.Top? && !HoleUnderRed(c)
    ensures var s := Fill(c, t);
      Zip(L, root, Top, s) && root == Ptr(s) && Rb(s) && !IsRed(s) && Flat(Top, s) == InOrder(s) == Flat(c, t)
  {
    Climb(L, root, c, t);
    FillRb(c, t);
    FillInOrder(c, t);
    FlatTop(Fill(c, t));
  }

  lemma AtRoot(L: seq<Links>, root: int, c: Ctx, t: Tree)
    requires Zip(L, root, c, t) && CtxOk(c, BH(t) + 1) && RbBlack(t)
    requires Ptr(t) == root || IsRed(t)
    ensures c.Top? || IsRed(t)
    ensures t.Node? ==> CtxOk(c, BH(t.(color := Black)))
    ensures t.Leaf? ==> c.Top?
  {
    ReadSibling(L, root, c, t);
  }

  // ---- Taking a node out ----

  function Compose(m: Ctx, o: Ctx): Ctx {
    match m
    case Top => o
    case InLeft(up, i, col, s) => InLeft(Compose(up, o), i, col, s)
    case InRight(up, i, col, s) => InRight(Compose(up, o), i, col, s)
  }

  lemma {:induction false} ComposeRep(L: seq<Links>, m: Ctx, o: Ctx, x: int, top: int, root: int)
    requires CtxRep(L, m, x, top, Above(o, NIL)) && CtxRep(L, o, top, root, NIL)
    ensures CtxRep(L, Compose(m, o), x, root, NIL)
  {
    if !m.Top? { ComposeRep(L, m.up, o, m.idx, top, root); }
  }

  lemma {:induction false} ComposeElems(m: Ctx, o: Ctx)
    requires CDistinct(m) && CDistinct(o) && CElems(m) !! CElems(o)
    ensures CDistinct(Compose(m, o)) && CElems(Compose(m, o)) == CElems(m) + CElems(o)
  {
    if !m.Top? { ComposeElems(m.up, o); }
  }

  lemma {:induction false} ComposeFill(m: Ctx, o: Ctx, t: Tree)
    ensures Fill(Compose(m, o), t) == Fill(o, Fill(m, t))
    decreases m
  {
    if !m.Top? { ComposeFill(m.up, o, Join(m, t)); }
  }

  lemma {:induction false} ComposeOrder(m: Ctx, o: Ctx)
    ensures Before(Compose(m, o)) == Before(o) + Before(m)
    ensures After(Compose(m, o)) == After(m) + After(o)
  {
    if !m.Top? { ComposeOrder(m.up, o); }
  }

  /** The rules do not look at indices. */
  lemma {:induction false} ComposeOk(m: Ctx, o: Ctx, o': Ctx, h: nat)
    requires !o.Top? && !o'.Top? && o' == (if o.InLeft? then InLeft(o.up, o'.idx, o.color, o.sib) else InRight(o.up, o'.idx, o.color, o.sib))
    requires CtxOk(Compose(m, o), h)
    ensures CtxOk(Compose(m, o'), h)
    ensures HoleUnderRed(Compose(m, o')) == HoleUnderRed(Compose(m, o))
  {
    if !m.Top? { ComposeOk(m.up, o, o', h + BlackUnit(m.color)); }
  }

  lemma {:induction false} FillElems(c: Ctx, t: Tree)
    requires Sep(c, t)
    ensures Elems(Fill(c, t)) == CElems(c) + Elems(t)
    decreases c
  {
    if !c.Top? { FillElems(c.up, Join(c, t)); }
  }

  lemma {:induction false} SpineBefore(m: Ctx)
    requires LeftSpine(m)
    ensures Before(m) == []
  {
    if !m.Top? { SpineBefore(m.up); }
  }

  /** The inner path `m` from the hole up to the right child of `z`, after its hole
      holds `x'` and the node above it is `base'`. */
  lemma {:induction false} PathFrame(L: seq<Links>, L': seq<Links>, m: Ctx, x: int, x': int, top: int, base: int, base': int)
    requires |L| == |L'| && CtxRep(L, m, x, top, base) && CDistinct(m) && !m.Top?
    requires L'[m.idx] == HoleRecord(m, x', base')
    requires forall i :: i in CElems(m) && i < |L| && i != m.idx && i != top ==> L'[i] == L[i]
    requires m.idx != top && 0 <= top < |L| ==> L'[top] == L[top].(parent := base')
    ensures CtxRep(L', m, x', top, base')
  {
    TreeFrame(L, L', m.idx, m.idx, m.sib) by {
      TopInPath(L, m, x, top, base);
      if m.idx != top { TopInPath(L, m.up, m.idx, top, base); }
    }
    if !m.up.Top? {
      TopInPath(L, m.up, m.idx, top, base);
      assert CtxRep(L, m.up, m.idx, top, base) && L[m.up.idx] == HoleRecord(m.up, m.idx, base);
      assert CtxRep(L, m.up.up, m.up.idx, top, base);
      if !m.up.up.Top? { TopInPath(L, m.up.up, m.up.idx, top, base); }
      PathFrame(L, L', m.up, m.idx, m.idx, top, base, base');
    }
  }

  /** `m` leads from the right child of the node `t` down to the node `s`, which has no
      left child. */
  predicate Cut(L: seq<Links>, root: int, c: Ctx, t: Tree, m: Ctx, s: Tree) {
    && Zip(L, root, c, t) && t.Node? && t.left.Node? && t.right.Node?
    && ZipIn(L, Ptr(t.right), t.idx, m, s) && Fill(m, s) == t.right
    && s.Node? && s.left.Leaf?
  }

  lemma CutApart(L: seq<Links>, root: int, c: Ctx, t: Tree, m: Ctx, s: Tree)
    requires Cut(L, root, c, t, m, s)
    ensures t.idx < |L| && s.idx < |L| && t.left.idx < |L| && t.right.idx < |L|
    ensures CDistinct(c) && CDistinct(m) && Distinct(t.left) && Distinct(s.right)
    ensures CElems(m) !! CElems(c) && CElems(m) !! Elems(t.left) && CElems(m) !! Elems(s.right)
    ensures Elems(s.right) !! CElems(c) && Elems(s.right) !! Elems(t.left) && CElems(c) !! Elems(t.left)
    ensures t.idx !in CElems(c) + CElems(m) + Elems(t.left) + Elems(s.right)
    ensures s.idx !in CElems(c) + CElems(m) + Elems(t.left) + Elems(s.right)
    ensures t.idx != s.idx
    ensures if m.Top? then t.right.idx == s.idx else t.right.idx in CElems(m)
    ensures !m.Top? ==>
      && m.idx < |L| && L[m.idx] == HoleRecord(m, s.idx, t.idx)
      && (m.up.Top? <==> m.idx == t.right.idx) && Ptr(m.sib) != s.idx
  {
    TreeChild(L, Above(c, NIL), t);
    TreeChild(L, Above(m, t.idx), s);
    TreeChild(L, t.idx, t.left);
    FillElems(m, s);
    if !m.Top? {
      TopInPath(L, m, s.idx, t.right.idx, t.idx);
      assert CtxRep(L, m.up, m.idx, t.right.idx, t.idx);
      if !m.up.Top? { TopInPath(L, m.up, m.idx, t.right.idx, t.idx); }
    }
  }

  /** The writes of remove for a node `t` with two children: `y` = s.idx takes its
      place, and the right child of `y` takes the place of `y`. */
  predicate SpliceWrites(L: seq<Links>, L': seq<Links>, c: Ctx, t: Tree, m: Ctx, s: Tree)
    requires t.Node? && t.left.Node? && t.right.Node? && s.Node?
  {
    var y := s.idx;
    && |L'| == |L| && y < |L| && t.left.idx < |L| && t.right.idx < |L|
    && L'[y] == Links(Above(c, NIL), t.left.idx, if m.Top? then Ptr(s.right) else t.right.idx, t.color)
    && L'[t.left.idx] == L[t.left.idx].(parent := y)
    && (!c.Top? && c.idx < |L| ==> L'[c.idx] == HoleRecord(c, y, NIL))
    && (!m.Top? && m.idx < |L| ==> L'[m.idx] == HoleRecord(m, Ptr(s.right), y))
    && (!m.Top? && m.idx != t.right.idx ==> L'[t.right.idx] == L[t.right.idx].(parent := y))
    && (s.right.Node? && s.right.idx < |L| ==> L'[s.right.idx] == L[s.right.idx].(parent := Above(m, y)))
    && forall i: nat ::
        (i < |L| && i != t.idx && i != y && i != t.left.idx && i != t.right.idx
         && i != Above(c, NIL) && i != Above(m, NIL) && i != Ptr(s.right)) ==> L'[i] == L[i]
  }

  /** The first half of those writes: `y` leaves its old place and takes over the right
      subtree of `z`; nothing happens when `y` is itself the right child of `z`. */
  predicate Detached(L: seq<Links>, L': seq<Links>, t: Tree, m: Ctx, s: Tree)
    requires t.Node? && t.right.Node? && s.Node?
  {
    var y := s.idx;
    && |L'| == |L| && y < |L| && t.right.idx < |L|
    && (m.Top? ==> L' == L)
    && (!m.Top? ==>
          && L'[y] == L[y].(right := t.right.idx)
          && (m.idx < |L| ==> L'[m.idx] == HoleRecord(m, Ptr(s.right), y))
          && (m.idx != t.right.idx ==> L'[t.right.idx] == L[t.right.idx].(parent := y))
          && (s.right.Node? && s.right.idx < |L| ==> L'[s.right.idx] == L[s.right.idx].(parent := m.idx))
          && forall i: nat :: i < |L| && i != y && i != t.right.idx && i != m.idx && i != Ptr(s.right) ==> L'[i] == L[i])
  }

  /** The writes that take `y` from under its parent `p` and hang the right subtree of
      `z`, whose root is `r`, under `y`. */
  predicate Unhooked(L: seq<Links>, L': seq<Links>, y: nat, r: nat)
    requires y < |L| && r < |L| && 0 <= L[y].parent < |L| && NIL <= L[y].right < |L|
  {
    var p, x := L[y].parent, L[y].right;
    var hole := if L[p].left == y then L[p].(left := x) else L[p].(right := x);
    && |L'| == |L|
    && L'[y] == L[y].(right := r)
    && L'[p] == (if p == r then hole.(parent := y) else hole)
    && (r != p ==> L'[r] == L[r].(parent := y))
    && (x != NIL ==> L'[x] == L[x].(parent := p))
    && forall i: nat :: i < |L| && i != y && i != r && i != p && i != x ==> L'[i] == L[i]
  }

  lemma UnhookedDetaches(L: seq<Links>, L': seq<Links>, root: int, c: Ctx, t: Tree, m: Ctx, s: Tree)
    requires Cut(L, root, c, t, m, s) && !m.Top?
    ensures var (z, y, r) := (t.idx, s.idx, t.right.idx);
      && z < |L| && y < |L| && r < |L|
      && L[y].parent == m.idx < |L| && L[y].right == Ptr(s.right) < |L| && L[z].right == r
      && y != z && r != y && r != z && m.idx !in {y, z} && L[y].right !in {y, z, r, m.idx}
    ensures Unhooked(L, L', s.idx, t.right.idx) ==> Detached(L, L', t, m, s)
  {
    CutApart(L, root, c, t, m, s);
    TreeChild(L, Above(c, NIL), t);
    TreeChild(L, Above(m, t.idx), s);
    if s.right.Node? { TreeChild(L, s.idx, s.right); }
  }

  /** The second half: `y` takes the parent, the left child and the color of `z`. */
  predicate TookPlace(L: seq<Links>, L': seq<Links>, z: nat, y: nat)
    requires z < |L| && y < |L| && 0 <= L[z].left < |L| && NIL <= L[z].parent < |L|
  {
    var l, up := L[z].left, L[z].parent;
    && |L'| == |L|
    && L'[y] == Links(up, l, L[y].right, L[z].color)
    && L'[l] == L[l].(parent := y)
    && (up != NIL ==> L'[up] == if L[up].left == z then L[up].(left := y) else L[up].(right := y))
    && forall i: nat :: i < |L| && i != y && i != l && i != up ==> L'[i] == L[i]
  }

  /** The nodes the second half touches, as the first half leaves them. */
  lemma DetachedRest(L: seq<Links>, L1: seq<Links>, root: int, c: Ctx, t: Tree, m: Ctx, s: Tree)
    requires Cut(L, root, c, t, m, s) && Detached(L, L1, t, m, s)
    ensures var (z, y, l, up) := (t.idx, s.idx, t.left.idx, Above(c, NIL));
      && z < |L| && l < |L| && y < |L| && NIL <= up < |L|
      && z != y && l != y && l != z && up != y && up != z && up != l
      && L1[z] == L[z] == Links(up, l, t.right.idx, t.color) && L1[l] == L[l]
      && (up != NIL ==> L1[up] == L[up] == HoleRecord(c, z, NIL) && (L[up].left == z <==> c.InLeft?))
      && L1[y].right == if m.Top? then Ptr(s.right) else t.right.idx
  {
    CutApart(L, root, c, t, m, s);
    TreeChild(L, Above(c, NIL), t);
    TreeChild(L, Above(m, t.idx), s);
  }

  lemma SpliceDone(L: seq<Links>, L1: seq<Links>, L': seq<Links>, root: int, c: Ctx, t: Tree, m: Ctx, s: Tree)
    requires Cut(L, root, c, t, m, s) && Detached(L, L1, t, m, s)
    requires t.idx < |L1| && 0 <= L1[t.idx].left < |L1| && NIL <= L1[t.idx].parent < |L1|
    requires TookPlace(L1, L', t.idx, s.idx)
    ensures SpliceWrites(L, L', c, t, m, s)
  {
    hide Zip, ZipIn, Fill, Distinct, CDistinct;
    DetachedRest(L, L1, root, c, t, m, s);
    CutApart(L, root, c, t, m, s);
    CutRecord(L, root, c, t, m, s);
    RootIn(t.left);
    if s.right.Node? { RootIn(s.right); }
  }

  lemma CutRecord(L: seq<Links>, root: int, c: Ctx, t: Tree, m: Ctx, s: Tree)
    requires Cut(L, root, c, t, m, s)
    ensures s.idx < |L| && L[s.idx] == Links(Above(m, t.idx), NIL, Ptr(s.right), s.color)
    ensures s.right.Node? ==> s.right.idx < |L| && L[s.right.idx].parent == s.idx
    ensures (!m.Top? ==> m.idx in CElems(m)) && (!c.Top? ==> c.idx in CElems(c))
  {
    TreeChild(L, Above(m, t.idx), s);
    if s.right.Node? { TreeChild(L, s.idx, s.right); }
  }

  lemma RootIn(t: Tree)
    requires t.Node?
    ensures t.idx in Elems(t)
  {
  }

  lemma SplicedInner(L: seq<Links>, L': seq<Links>, root: int, c: Ctx, t: Tree, m: Ctx, s: Tree)
    requires Cut(L, root, c, t, m, s) && SpliceWrites(L, L', c, t, m, s)
    ensures TreeRep(L', Above(m, s.idx), s.right)
    ensures CtxRep(L', m, Ptr(s.right), if m.Top? then Ptr(s.right) else t.right.idx, s.idx)
  {
    CutApart(L, root, c, t, m, s);
    TreeChild(L, Above(m, t.idx), s);
    TreeFrame(L, L', s.idx, Above(m, s.idx), s.right);
    if !m.Top? {
      PathFrame(L, L', m, s.idx, Ptr(s.right), t.right.idx, t.idx, s.idx);
    }
  }

  lemma SplicedOuter(L: seq<Links>, L': seq<Links>, root: int, root': int, c: Ctx, t: Tree, m: Ctx, s: Tree)
    requires Cut(L, root, c, t, m, s) && SpliceWrites(L, L', c, t, m, s)
    requires root' == if c.Top? then s.idx else root
    ensures TreeRep(L', s.idx, t.left) && CtxRep(L', c, s.idx, root', NIL)
  {
    CutApart(L, root, c, t, m, s);
    TreeChild(L, Above(c, NIL), t);
    TreeFrame(L, L', t.idx, s.idx, t.left);
    HoleFrame(L, L', c, t.idx, s.idx, root, root', NIL);
  }

  lemma Spliced(L: seq<Links>, L': seq<Links>, root: int, root': int, c: Ctx, t: Tree, m: Ctx, s: Tree)
    requires Cut(L, root, c, t, m, s) && SpliceWrites(L, L', c, t, m, s)
    requires root' == if c.Top? then s.idx else root
    ensures Zip(L', root', Compose(m, InRight(c, s.idx, t.color, t.left)), s.right)
  {
    var o := InRight(c, s.idx, t.color, t.left);
    var top := if m.Top? then Ptr(s.right) else t.right.idx;
    SplicedInner(L, L', root, c, t, m, s);
    SplicedOuter(L, L', root, root', c, t, m, s);
    CutApart(L, root, c, t, m, s);
    ComposeRep(L', m, o, Ptr(s.right), top, root');
    ComposeElems(m, o);
    assert Above(Compose(m, o), NIL) == Above(m, s.idx);
  }

  lemma SpliceEnds(L: seq<Links>, L1: seq<Links>, L': seq<Links>, root: int, root': int, c: Ctx, t: Tree, m: Ctx, s: Tree)
    requires Cut(L, root, c, t, m, s) && Detached(L, L1, t, m, s)
    requires t.idx < |L1| && 0 <= L1[t.idx].left < |L1| && NIL <= L1[t.idx].parent < |L1|
    requires TookPlace(L1, L', t.idx, s.idx)
    requires root' == if c.Top? then s.idx else root
    ensures Zip(L', root', Compose(m, InRight(c, s.idx, t.color, t.left)), s.right)
  {
    SpliceDone(L, L1, L', root, c, t, m, s);
    Spliced(L, L', root, root', c, t, m, s);
  }

  /** What remove leaves for its fixup: the subtree `s` at the end of the path `d` is
      one black node short iff a black node went away. */
  predicate TakenOut(gone: Color, d: Ctx, s: Tree) {
    && Rb(s) && CtxOk(d, BH(s) + BlackUnit(gone))
    && (gone == Red ==> !IsRed(s))
  }

  /** A node with at most one child is replaced by that child. */
  lemma BypassRules(T: Tree, c: Ctx, t: Tree)
    requires Rb(T) && !IsRed(T) && Fill(c, t) == T && t.Node? && (t.left.Leaf? || t.right.Leaf?)
    ensures TakenOut(t.color, c, if t.left.Leaf? then t.right else t.left)
  {
    UnfillRb(c, t);
  }

  lemma BypassRemoves(T: Tree, c: Ctx, t: Tree)
    requires Fill(c, t) == T && t.Node? && (t.left.Leaf? || t.right.Leaf?)
    ensures Removed(InOrder(T), t.idx, Flat(c, if t.left.Leaf? then t.right else t.left))
  {
    FillInOrder(c, t);
    Regroup(Before(c), InOrder(t.left), t.idx, InOrder(t.right), After(c));
    RemovedHere(InOrder(T), Before(c) + InOrder(t.left), InOrder(t.right) + After(c), t.idx);
  }

  lemma Bypassed(L: seq<Links>, root: int, c: Ctx, t: Tree)
    requires Zip(L, root, c, t) && t.Node? && (t.left.Leaf? || t.right.Leaf?)
    ensures t.idx < |L| && NIL <= L[t.idx].parent < |L|
    ensures L[t.idx] == Links(Above(c, NIL), Ptr(t.left), Ptr(t.right), t.color)
    ensures var s := if t.left.Leaf? then t.right else t.left;
      && Ptr(s) < |L|
      && Zip(TransplantLinks(L, t.idx, Ptr(s)), if c.Top? then Ptr(s) else root, c, s)
  {
    var s := if t.left.Leaf? then t.right else t.left;
    TreeChild(L, Above(c, NIL), t);
    var L' := TransplantLinks(L, t.idx, Ptr(s));
    TreeFrame(L, L', t.idx, Above(c, NIL), s);
    Replace(L, L', root, if c.Top? then Ptr(s) else root, c, t, s);
  }

  lemma Regroup(b: seq<nat>, l: seq<nat>, x: nat, r: seq<nat>, a: seq<nat>)
    ensures b + (l + [x] + r) + a == (b + l) + [x] + (r + a)
    ensures l == [] ==> b + r + a == (b + l) + (r + a)
    ensures r == [] ==> b + l + a == (b + l) + (r + a)
  {
  }

  lemma RegroupSplice(b: seq<nat>, l: seq<nat>, y: nat, r: seq<nat>, am: seq<nat>, a: seq<nat>)
    ensures ((b + l + [y]) + []) + r + (am + a) == (b + l) + (([y] + r + am) + a)
  {
  }

  lemma SpineOrder(m: Ctx, s: Tree)
    requires LeftSpine(m) && s.Node? && s.left.Leaf?
    ensures InOrder(Fill(m, s)) == [s.idx] + InOrder(s.right) + After(m)
  {
    FillInOrder(m, s);
    SpineBefore(m);
    assert InOrder(s) == [s.idx] + InOrder(s.right);
  }

  lemma SpliceFlat(c: Ctx, t: Tree, m: Ctx, s: Tree)
    requires t.Node? && s.Node? && s.left.Leaf? && Fill(m, s) == t.right && LeftSpine(m)
    ensures Flat(Compose(m, InRight(c, s.idx, t.color, t.left)), s.right) == (Before(c) + InOrder(t.left)) + (InOrder(t.right) + After(c))
  {
    ComposeOrder(m, InRight(c, s.idx, t.color, t.left));
    SpineBefore(m);
    SpineOrder(m, s);
    RegroupSplice(Before(c), InOrder(t.left), s.idx, InOrder(s.right), After(m), After(c));
  }

  lemma SpliceRules(T: Tree, c: Ctx, t: Tree, m: Ctx, s: Tree)
    requires Rb(T) && !IsRed(T) && Fill(c, t) == T && t.Node?
    requires s.Node? && Fill(m, s) == t.right
    ensures s.left.Leaf? ==> TakenOut(s.color, Compose(m, InRight(c, s.idx, t.color, t.left)), s.right)
  {
    var o, o' := InRight(c, t.idx, t.color, t.left), InRight(c, s.idx, t.color, t.left);
    ComposeFill(m, o, s);
    assert Join(o, t.right) == t;
    UnfillRb(Compose(m, o), s);
    ComposeOk(m, o, o', BH(s));
  }

  lemma SpliceRemoves(T: Tree, c: Ctx, t: Tree, m: Ctx, s: Tree)
    requires Fill(c, t) == T && t.Node?
    requires s.Node? && s.left.Leaf? && Fill(m, s) == t.right && LeftSpine(m)
    ensures Removed(InOrder(T), t.idx, Flat(Compose(m, InRight(c, s.idx, t.color, t.left)), s.right))
  {
    SpliceFlat(c, t, m, s);
    FillInOrder(c, t);
    Regroup(Before(c), InOrder(t.left), t.idx, InOrder(t.right), After(c));
    RemovedHere(InOrder(T), Before(c) + InOrder(t.left), InOrder(t.right) + After(c), t.idx);
  }
}
