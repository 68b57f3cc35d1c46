/** The mathematical side of the red-black tree of programs/include/RbTree.hpp:
    trees of node indices, one-hole contexts that stand for the path from a node
    up to the root, and the red-black rules on both. Nothing here mentions links. */
module RbShape {
  import opened Powers

  datatype Color = Red | Black

  datatype Tree = Leaf | Node(left: Tree, idx: nat, color: Color, right: Tree)

  /** The path above a node: the hole is the left (InLeft) or the right (InRight)
      child of `idx`; `sib` is the other child of `idx`. */
  datatype Ctx =
    | Top
    | InLeft(up: Ctx, idx: nat, color: Color, sib: Tree)
    | InRight(up: Ctx, idx: nat, color: Color, sib: Tree)

  predicate IsRed(t: Tree) { t.Node? && t.color == Red }

  /** One level of filling the hole. */
  function Join(c: Ctx, t: Tree): Tree
    requires !c.Top?
  {
    if c.InLeft? then Node(t, c.idx, c.color, c.sib) else Node(c.sib, c.idx, c.color, t)
  }

  function Fill(c: Ctx, t: Tree): Tree
    decreases c
  {
    if c.Top? then t else Fill(c.up, Join(c, t))
  }

  function InOrder(t: Tree): seq<nat> {
    match t
    case Leaf => []
    case Node(l, i, _, r) => InOrder(l) + [i] + InOrder(r)
  }

  /** The nodes that come before and after the hole in search order. */
  function Before(c: Ctx): seq<nat> {
    match c
    case Top => []
    case InLeft(up, _, _, _) => Before(up)
    case InRight(up, i, _, s) => Before(up) + InOrder(s) + [i]
  }

  function After(c: Ctx): seq<nat> {
    match c
    case Top => []
    case InLeft(up, i, _, s) => [i] + InOrder(s) + After(up)
    case InRight(up, _, _, _) => After(up)
  }

  function Flat(c: Ctx, t: Tree): seq<nat> { Before(c) + InOrder(t) + After(c) }

  lemma FlatJoin(c: Ctx, t: Tree)
    requires !c.Top?
    ensures Flat(c, t) == Flat(c.up, Join(c, t))
  {
  }

  lemma {:induction false} FillInOrder(c: Ctx, t: Tree)
    ensures InOrder(Fill(c, t)) == Flat(c, t)
    decreases c
  {
    if c.Top? {
      assert Flat(c, t) == InOrder(t);
    } else {
      FillInOrder(c.up, Join(c, t));
      FlatJoin(c, t);
    }
  }

  lemma FlatTop(t: Tree)
    ensures Flat(Top, t) == InOrder(t)
  {
  }

  lemma {:induction false} FillNode(c: Ctx, t: Tree)
    requires t.Node? || !c.Top?
    ensures Fill(c, t).Node?
    decreases c
  {
    if !c.Top? { FillNode(c.up, Join(c, t)); }
  }

  function Elems(t: Tree): set<nat> {
    match t
    case Leaf => {}
    case Node(l, i, _, r) => Elems(l) + {i} + Elems(r)
  }

  function CElems(c: Ctx): set<nat> {
    if c.Top? then {} else CElems(c.up) + {c.idx} + Elems(c.sib)
  }

  /** No index occurs twice. */
  predicate Distinct(t: Tree) {
    t.Node? ==>
      && Distinct(t.left) && Distinct(t.right)
      && t.idx !in Elems(t.left) && t.idx !in Elems(t.right)
      && Elems(t.left) !! Elems(t.right)
  }

  predicate CDistinct(c: Ctx) {
    !c.Top? ==>
      && CDistinct(c.up) && Distinct(c.sib)
      && c.idx !in CElems(c.up) && c.idx !in Elems(c.sib)
      && CElems(c.up) !! Elems(c.sib)
  }

  predicate Sep(c: Ctx, t: Tree) { CDistinct(c) && Distinct(t) && CElems(c) !! Elems(t) }

  lemma {:induction false} InOrderElems(t: Tree)
    ensures forall i :: i in InOrder(t) <==> i in Elems(t)
  {
    if t.Node? { InOrderElems(t.left); InOrderElems(t.right); }
  }

  // ---- The red-black rules ----

  function BlackUnit(c: Color): nat { if c == Black then 1 else 0 }

  function BH(t: Tree): nat {
    if t.Leaf? then 0 else BH(t.left) + BlackUnit(t.color)
  }

  /** No red node has a red child, and every path to a leaf has the same number of
      black nodes. */
  predicate Rb(t: Tree) {
    t.Node? ==>
      && Rb(t.left) && Rb(t.right) && BH(t.left) == BH(t.right)
      && (t.color == Red ==> !IsRed(t.left) && !IsRed(t.right))
  }

  predicate HoleUnderRed(c: Ctx) { !c.Top? && c.color == Red }

  /** The context obeys the rules when its hole holds a tree of black height `h`;
      a red node on the path has a black parent, so it is not the root. */
  predicate CtxOk(c: Ctx, h: nat) {
    !c.Top? ==>
      && Rb(c.sib) && BH(c.sib) == h
      && (c.color == Red ==> !IsRed(c.sib) && !c.up.Top? && c.up.color == Black)
      && CtxOk(c.up, h + BlackUnit(c.color))
  }

  lemma {:induction false} FillRb(c: Ctx, t: Tree)
    requires CtxOk(c, BH(t)) && Rb(t)
    requires IsRed(t) ==> !HoleUnderRed(c)
    ensures Rb(Fill(c, t))
    ensures IsRed(Fill(c, t)) ==> c.Top? && IsRed(t)
    decreases c
  {
    if !c.Top? { FillRb(c.up, Join(c, t)); }
  }

  lemma {:induction false} UnfillRb(c: Ctx, t: Tree)
    requires Rb(Fill(c, t)) && !IsRed(Fill(c, t))
    ensures Rb(t) && CtxOk(c, BH(t))
    ensures IsRed(t) ==> !c.Top? && c.color == Black
    decreases c
  {
    if !c.Top? { UnfillRb(c.up, Join(c, t)); }
  }

  /** Splits the tree at a node. */
  ghost function PathTo(t: Tree, z: nat): (c: Ctx)
    requires z in Elems(t)
    ensures var s := Sub(t, z); Fill(c, s) == t
    decreases t
  {
    PathIn(Top, t, z)
  }

  ghost function Sub(t: Tree, z: nat): (s: Tree)
    requires z in Elems(t)
    ensures s.Node? && s.idx == z
  {
    if t.idx == z then t else if z in Elems(t.left) then Sub(t.left, z) else Sub(t.right, z)
  }

  ghost function PathIn(c: Ctx, t: Tree, z: nat): (d: Ctx)
    requires z in Elems(t)
    ensures Fill(d, Sub(t, z)) == Fill(c, t)
    decreases t
  {
    if t.idx == z then c
    else if z in Elems(t.left) then PathIn(InLeft(c, t.idx, t.color, t.right), t.left, z)
    else PathIn(InRight(c, t.idx, t.color, t.left), t.right, z)
  }

  // ---- Size and height ----

  function Size(t: Tree): nat { if t.Leaf? then 0 else Size(t.left) + 1 + Size(t.right) }

  function Height(t: Tree): nat {
    if t.Leaf? then 0
    else 1 + if Height(t.left) > Height(t.right) then Height(t.left) else Height(t.right)
  }

  function Depth(c: Ctx): nat { if c.Top? then 0 else 1 + Depth(c.up) }

  lemma {:induction false} SizeInOrder(t: Tree)
    ensures |InOrder(t)| == Size(t)
  {
    if t.Node? { SizeInOrder(t.left); SizeInOrder(t.right); }
  }

  lemma {:induction false} Bushy(t: Tree)
    requires Rb(t)
    ensures Pow2(BH(t)) <= Size(t) + 1
    ensures Height(t) <= 2 * BH(t) + (if IsRed(t) then 1 else 0)
  {
    if t.Node? { Bushy(t.left); Bushy(t.right); }
  }

  /** The height is at most 2 * log2(n + 1) on n nodes. */
  lemma HeightBound(t: Tree)
    requires Rb(t) && !IsRed(t)
    ensures Pow2(Height(t)) <= (|InOrder(t)| + 1) * (|InOrder(t)| + 1)
  {
    Bushy(t);
    SizeInOrder(t);
    Pow2Twice(Height(t), BH(t));
    SquareMono(Pow2(BH(t)), Size(t) + 1);
  }

  /** A walk down that loses height with every step. */
  lemma StepBound(t: Tree, steps: nat)
    requires Rb(t) && !IsRed(t) && steps <= Height(t)
    ensures Pow2(steps) <= (|InOrder(t)| + 1) * (|InOrder(t)| + 1)
  {
    HeightBound(t);
    Pow2Mono(steps, Height(t));
  }
}
