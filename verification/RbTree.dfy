/** The intrusive red-black tree of programs/include/RbTree.hpp: index links in a
    fixed pool, parent pointers, no sentinel node, iterative insert and remove. */
module RbTree {
  import opened Powers
  import opened RbShape
  import opened RbLinks
  import opened RbOrder

  class IntrusiveRbTree {
    var less: Less                // Policy::less, which reads the keys of the nodes
    const links: array<Links>     // Policy::links
    var root: int
    ghost var tree: Tree

    ghost predicate Valid()
      reads this, links
    {
      && StrictWeak(less)
      && Zip(links[..], root, Top, tree)
      && Rb(tree) && !IsRed(tree)
      && Sorted(less, InOrder(tree))
    }

    constructor (pool: array<Links>, order: Less)
      requires StrictWeak(order)
      ensures Valid() && InOrder(tree) == [] && links == pool && less == order
    {
      links, less := pool, order;
      root, tree := NIL, Leaf;
    }

    function ColorOf(x: int): Color
      requires x == NIL || 0 <= x < links.Length
      reads links
    {
      if x == NIL then Black else links[x].color
    }

    method RotateLeft(x: nat, ghost c: Ctx, ghost t: Tree)
      requires Zip(links[..], root, c, t) && CanRotL(t) && t.idx == x
      modifies this`root, links
      ensures Zip(links[..], root, c, RotL(t)) && Flat(c, RotL(t)) == Flat(c, t)
    {
      hide Zip, Flat, RotL;
      ghost var L, rt := links[..], root;
      RotLParts(L, root, c, t);
      var y := links[x].right;
      var b := links[y].left;
      links[x] := links[x].(right := b);
      if b != NIL {
        links[b] := links[b].(parent := x);
      }
      links[y] := links[y].(parent := links[x].parent);
      var up := links[x].parent;
      if up == NIL {
        root := y;
      } else if x == links[up].left {
        links[up] := links[up].(left := y);
      } else {
        links[up] := links[up].(right := y);
      }
      links[y] := links[y].(left := x);
      links[x] := links[x].(parent := y);
      RotLRep(L, links[..], rt, root, c, t);
    }

    method RotateRight(x: nat, ghost c: Ctx, ghost t: Tree)
      requires Zip(links[..], root, c, t) && CanRotR(t) && t.idx == x
      modifies this`root, links
      ensures Zip(links[..], root, c, RotR(t)) && Flat(c, RotR(t)) == Flat(c, t)
    {
      hide Zip, Flat, RotR;
      ghost var L, rt := links[..], root;
      RotRParts(L, root, c, t);
      var y := links[x].left;
      var b := links[y].right;
      links[x] := links[x].(left := b);
      if b != NIL {
        links[b] := links[b].(parent := x);
      }
      links[y] := links[y].(parent := links[x].parent);
      var up := links[x].parent;
      if up == NIL {
        root := y;
      } else if x == links[up].right {
        links[up] := links[up].(right := y);
      } else {
        links[up] := links[up].(left := y);
      }
      links[y] := links[y].(right := x);
      links[x] := links[x].(parent := y);
      RotRRep(L, links[..], rt, root, c, t);
    }

    /** L(x).color = col */
    method Paint(x: nat, col: Color, ghost c: Ctx, ghost t: Tree)
      requires Zip(links[..], root, c, t) && t.Node? && t.idx == x
      modifies links
      ensures Zip(links[..], root, c, t.(color := col)) && Flat(c, t.(color := col)) == Flat(c, t)
      ensures forall i :: 0 <= i < links.Length ==> links[i] == old(links[i]).(color := links[i].color)
    {
      PaintRep(links[..], root, c, t, col);
      links[x] := links[x].(color := col);
      assert links[..] == old(links[..])[x := old(links[x]).(color := col)];
    }

    /** The subtree and path the fixup of insert works on: `t` is red, everything is
        in order except that its parent may be red too. */
    ghost predicate Inserting(c: Ctx, t: Tree)
      reads this, links
    {
      Zip(links[..], root, c, t) && IsRed(t) && Rb(t) && CtxOk(c, BH(t))
    }

    /** The descent of insert: `y` is the node the new one is hung under. */
    method FindParent(z: nat) returns (y: int, ghost c: Ctx)
      requires Valid() && z !in InOrder(tree)
      ensures Descending(less, links[..], root, tree, c, Leaf, z) && y == Above(c, NIL)
    {
      ghost var T, L := tree, links[..];
      InOrderElems(T);
      FlatTop(T);
      y := NIL;
      var x := root;
      ghost var t := T;
      c := Top;
      while x != NIL
        invariant Descending(less, L, root, T, c, t, z)
        invariant x == Ptr(t) && y == Above(c, NIL)
        decreases t
      {
        y := x;
        if less(z, x) {
          DescendLeft(less, L, root, T, c, t, z);
          x := links[x].left;
          c, t := InLeft(c, t.idx, t.color, t.right), t.left;
        } else {
          DescendRight(less, L, root, T, c, t, z);
          x := links[x].right;
          c, t := InRight(c, t.idx, t.color, t.left), t.right;
        }
      }
    }

    /** Writes the new red node `z` under `y`, which it is hung to the left of iff it is less. */
    method Hang(z: nat, y: int, ghost c: Ctx)
      requires Valid() && z < links.Length
      requires Descending(less, links[..], root, tree, c, Leaf, z) && y == Above(c, NIL)
      modifies this`root, links
      ensures Inserting(c, Node(Leaf, z, Red, Leaf))
      ensures var t := Node(Leaf, z, Red, Leaf);
        Sorted(less, Flat(c, t)) && Flat(c, t) == Before(c) + [z] + After(c)
    {
      hide StrictWeak, Sorted, Rb;
      ghost var L, rt, T := links[..], root, tree;
      HoleSide(less, c, z);
      links[z] := links[z].(parent := y);
      if y == NIL {
        root := z;
      } else if less(z, y) {
        links[y] := links[y].(left := z);
      } else {
        links[y] := links[y].(right := z);
      }
      links[z] := links[z].(left := NIL);
      links[z] := links[z].(right := NIL);
      links[z] := links[z].(color := Red);
      Attached(less, L, links[..], rt, root, T, c, z);
    }

    method Insert(z: nat)
      requires Valid() && z < links.Length && z !in InOrder(tree)
      modifies this`root, this`tree, links
      ensures Valid()
      ensures Inserted(less, old(InOrder(tree)), z, InOrder(tree))
    {
      var y; ghost var c;
      y, c := FindParent(z);
      InsertedHere(less, InOrder(tree), Before(c), After(c), z);
      Hang(z, y, c);
      InsertFixup(z, c, Node(Leaf, z, Red, Leaf));
    }

    /** The parent and the uncle turn black, the grandparent red. */
    method FlipColors(l: nat, r: nat, g: nat, ghost c: Ctx, ghost t: Tree)
      requires Zip(links[..], root, c, t) && t.Node? && t.left.Node? && t.right.Node?
      requires t.idx == g && t.left.idx == l && t.right.idx == r
      modifies links
      ensures Zip(links[..], root, c, Flipped(t)) && Flat(c, Flipped(t)) == Flat(c, t)
    {
      PaintChild(l, Black, InLeft(c, t.idx, t.color, t.right), t.left);
      ghost var t1 := t.(left := t.left.(color := Black));
      PaintChild(r, Black, InRight(c, t.idx, t.color, t1.left), t.right);
      ghost var t2 := t1.(right := t.right.(color := Black));
      Paint(g, Red, c, t2);
    }

    /** L(x).color = col, seen from the parent of x */
    method PaintChild(x: nat, col: Color, ghost d: Ctx, ghost s: Tree)
      requires !d.Top? && s.Node? && s.idx == x
      requires Zip(links[..], root, d.up, Join(d, s))
      modifies links
      ensures Zip(links[..], root, d.up, Join(d, s.(color := col)))
      ensures Flat(d.up, Join(d, s.(color := col))) == Flat(d.up, Join(d, s))
    {
      Shift(links[..], root, d, s);
      FlatJoin(d, s);
      Paint(x, col, d, s);
      Shift(links[..], root, d, s.(color := col));
      FlatJoin(d, s.(color := col));
    }

    /** The node `x` goes down to the left below its right child, seen from the parent of `x`. */
    method RotateChildLeft(x: nat, ghost d: Ctx, ghost s: Tree)
      requires !d.Top? && CanRotL(s) && s.idx == x
      requires Zip(links[..], root, d.up, Join(d, s))
      modifies this`root, links
      ensures Zip(links[..], root, d.up, Join(d, RotL(s)))
      ensures Flat(d.up, Join(d, RotL(s))) == Flat(d.up, Join(d, s))
    {
      Shift(links[..], root, d, s);
      FlatJoin(d, s);
      RotateLeft(x, d, s);
      Shift(links[..], root, d, RotL(s));
      FlatJoin(d, RotL(s));
    }

    method RotateChildRight(x: nat, ghost d: Ctx, ghost s: Tree)
      requires !d.Top? && CanRotR(s) && s.idx == x
      requires Zip(links[..], root, d.up, Join(d, s))
      modifies this`root, links
      ensures Zip(links[..], root, d.up, Join(d, RotR(s)))
      ensures Flat(d.up, Join(d, RotR(s))) == Flat(d.up, Join(d, s))
    {
      Shift(links[..], root, d, s);
      FlatJoin(d, s);
      RotateRight(x, d, s);
      Shift(links[..], root, d, RotR(s));
      FlatJoin(d, RotR(s));
    }

    /** A red parent with a red uncle `y`; the fixup moves up to the grandparent. */
    method InsertFlip(l: nat, r: nat, zpp: nat, ghost c: Ctx, ghost t: Tree)
      returns (z: nat, ghost d: Ctx, ghost s: Tree)
      requires Inserting(c, t) && HoleUnderRed(c) && IsRed(c.up.sib) && zpp == c.up.idx
      requires if c.up.InLeft? then l == c.idx && r == c.up.sib.idx else l == c.up.sib.idx && r == c.idx
      modifies links
      ensures Inserting(d, s) && z == s.idx
      ensures Flat(d, s) == Flat(c, t) && Depth(d) < Depth(c)
    {
      TwoUp(links[..], root, c, t);
      FlipOk(c, t);
      ghost var g := Join(c.up, Join(c, t));
      FlipColors(l, r, zpp, c.up.up, g);
      z, d, s := zpp, c.up.up, Flipped(g);
    }

    /** A red parent that is a left child, with a black uncle. */
    method InsertRotateRight(z0: nat, zp0: nat, zpp0: nat, ghost c: Ctx, ghost t: Tree)
      returns (z: nat, ghost d: Ctx, ghost s: Tree)
      requires Inserting(c, t) && HoleUnderRed(c) && c.up.InLeft? && !IsRed(c.up.sib)
      requires z0 == t.idx && zp0 == c.idx && zpp0 == c.up.idx
      modifies this`root, links
      ensures Inserting(d, s) && z == s.idx && !HoleUnderRed(d)
      ensures Flat(d, s) == Flat(c, t) && Depth(d) < Depth(c)
    {
      var zp, zpp := zp0, zpp0;
      z := z0;
      ghost var cp, cg := c.up, c.up.up;
      ghost var p := Join(c, t);
      TwoUp(links[..], root, c, t);
      if z == links[zp].right {
        z := zp;
        RotateChildLeft(z, cp, p);
        p := RotL(p);
        ReadPath(links[..], root, cg, Join(cp, p));
        zp := links[z].parent;
        zpp := links[zp].parent;
      }
      PaintChild(zp, Black, cp, p);
      ghost var g1 := Join(cp, p.(color := Black));
      Paint(zpp, Red, cg, g1);
      ghost var g2 := g1.(color := Red);
      RotateRight(zpp, cg, g2);
      ghost var g3 := RotR(g2);
      d, s := RotatedRight(c, t).0, RotatedRight(c, t).1;
      assert g3 == Join(d, s);
      Shift(links[..], root, d, s);
      FlatJoin(d, s);
      RotatedOk(c, t);
    }

    /** A red parent that is a right child, with a black uncle. */
    method InsertRotateLeft(z0: nat, zp0: nat, zpp0: nat, ghost c: Ctx, ghost t: Tree)
      returns (z: nat, ghost d: Ctx, ghost s: Tree)
      requires Inserting(c, t) && HoleUnderRed(c) && c.up.InRight? && !IsRed(c.up.sib)
      requires z0 == t.idx && zp0 == c.idx && zpp0 == c.up.idx
      modifies this`root, links
      ensures Inserting(d, s) && z == s.idx && !HoleUnderRed(d)
      ensures Flat(d, s) == Flat(c, t) && Depth(d) < Depth(c)
    {
      var zp, zpp := zp0, zpp0;
      z := z0;
      ghost var cp, cg := c.up, c.up.up;
      ghost var p := Join(c, t);
      TwoUp(links[..], root, c, t);
      if z == links[zp].left {
        z := zp;
        RotateChildRight(z, cp, p);
        p := RotR(p);
        ReadPath(links[..], root, cg, Join(cp, p));
        zp := links[z].parent;
        zpp := links[zp].parent;
      }
      PaintChild(zp, Black, cp, p);
      ghost var g1 := Join(cp, p.(color := Black));
      Paint(zpp, Red, cg, g1);
      ghost var g2 := g1.(color := Red);
      RotateLeft(zpp, cg, g2);
      ghost var g3 := RotL(g2);
      d, s := RotatedLeft(c, t).0, RotatedLeft(c, t).1;
      assert g3 == Join(d, s);
      Shift(links[..], root, d, s);
      FlatJoin(d, s);
      RotatedOk(c, t);
    }

    method InsertFixup(z0: nat, ghost c0: Ctx, ghost t0: Tree)
      requires StrictWeak(less) && Inserting(c0, t0) && z0 == t0.idx
      requires Sorted(less, Flat(c0, t0))
      modifies this`root, this`tree, links
      ensures Valid() && InOrder(tree) == Flat(c0, t0)
    {
      hide StrictWeak, Sorted, InOrder;
      var z := z0;
      ghost var c, t := c0, t0;
      while links[z].parent != NIL && ColorOf(links[z].parent) == Red
        invariant Inserting(c, t) && z == t.idx
        invariant Flat(c, t) == Flat(c0, t0)
        decreases Depth(c)
      {
        var zp := links[z].parent;
        var zpp := links[zp].parent;
        TwoUp(links[..], root, c, t);
        if zp == links[zpp].left {
          var y := links[zpp].right;
          if ColorOf(y) == Red {
            z, c, t := InsertFlip(zp, y, zpp, c, t);
          } else {
            z, c, t := InsertRotateRight(z, zp, zpp, c, t);
          }
        } else {
          var y := links[zpp].left;
          if ColorOf(y) == Red {
            z, c, t := InsertFlip(y, zp, zpp, c, t);
          } else {
            z, c, t := InsertRotateLeft(z, zp, zpp, c, t);
          }
        }
      }
      FinishTop(links[..], root, c, t);
      tree := Fill(c, t);
      Paint(root, Black, Top, tree);
      tree := tree.(color := Black);
      FlatTop(tree);
    }

    method Transplant(u: nat, v: int)
      requires u < links.Length && NIL <= v < links.Length && NIL <= links[u].parent < links.Length
      modifies this`root, links
      ensures links[..] == TransplantLinks(old(links[..]), u, v)
      ensures root == if old(links[u]).parent == NIL then v else old(root)
    {
      var up := links[u].parent;
      if up == NIL {
        root := v;
      } else if u == links[up].left {
        links[up] := links[up].(left := v);
      } else {
        links[up] := links[up].(right := v);
      }
      if v != NIL {
        links[v] := links[v].(parent := up);
      }
    }

    method Minimum(x: nat, ghost base: int, ghost t: Tree) returns (y: nat, ghost m: Ctx, ghost s: Tree)
      requires ZipIn(links[..], x, base, Top, t) && t.Node? && t.idx == x
      ensures ZipIn(links[..], x, base, m, s) && LeftSpine(m) && Fill(m, s) == t
      ensures s.Node? && s.left.Leaf? && y == s.idx
    {
      y, m, s := x, Top, t;
      while links[y].left != NIL
        invariant ZipIn(links[..], x, base, m, s) && LeftSpine(m) && Fill(m, s) == t
        invariant s.Node? && y == s.idx
        decreases s
      {
        y := links[y].left;
        m, s := InLeft(m, s.idx, s.color, s.right), s.left;
        ShiftIn(links[..], x, base, m, s);
      }
    }

    /** The subtree and path the fixup of remove works on: `t` (whose own root may
        break the red rule) is one black node short. */
    ghost predicate Removing(c: Ctx, t: Tree)
      reads this, links
    {
      Zip(links[..], root, c, t) && RbBlack(t) && CtxOk(c, BH(t) + 1)
    }

    /** Red sibling `w` of a left child: after the rotation the sibling is black. */
    method RedSiblingLeft(w: nat, xp: nat, ghost c: Ctx, ghost t: Tree) returns (w': int, ghost d: Ctx)
      requires Removing(c, t) && !IsRed(t) && c.InLeft? && IsRed(c.sib)
      requires w == c.sib.idx && xp == c.idx
      modifies this`root, links
      ensures Removing(d, t) && d.InLeft? && d.idx == xp && !IsRed(d.sib) && d.color == Red
      ensures w' == Ptr(d.sib) && Depth(d) == Depth(c) + 1 && Flat(d, t) == Flat(c, t)
    {
      RedSiblingOk(c, t);
      d := RedSibling(c);
      Shift(links[..], root, c, t);
      FlatJoin(c, t);
      PaintChild(w, Black, Opposite(c, t), c.sib);
      ghost var g1 := Join(Opposite(c, t), c.sib.(color := Black));
      Paint(xp, Red, c.up, g1);
      ghost var g2 := g1.(color := Red);
      RotateLeft(xp, c.up, g2);
      assert Join(d.up, Join(d, t)) == RotL(g2);
      Shift(links[..], root, d.up, Join(d, t));
      Shift(links[..], root, d, t);
      FlatJoin(d.up, Join(d, t));
      FlatJoin(d, t);
      w' := links[xp].right;
    }

    /** The black sibling `w` of a left child has a red child only on the near side. */
    method NearNephewLeft(w: nat, xp: nat, ghost c: Ctx, ghost t: Tree) returns (w': nat)
      requires Zip(links[..], root, c, t) && c.InLeft? && NephewRed(c) && !FarRed(c)
      requires w == c.sib.idx && xp == c.idx
      modifies this`root, links
      ensures Zip(links[..], root, TurnedOut(c), t) && Flat(TurnedOut(c), t) == Flat(c, t)
      ensures w' == TurnedOut(c).sib.idx
    {
      ghost var e, s := Opposite(c, t), c.sib;
      Shift(links[..], root, c, t);
      FlatJoin(c, t);
      Shift(links[..], root, e, s);
      FlatJoin(e, s);
      TreeChild(links[..], xp, s);
      if links[w].left != NIL {
        ghost var n := InLeft(e, s.idx, s.color, s.right);
        PaintChild(links[w].left, Black, n, s.left);
        s := Join(n, s.left.(color := Black));
      }
      Paint(w, Red, e, s);
      s := s.(color := Red);
      RotateRight(w, e, s);
      s := RotR(s);
      Shift(links[..], root, e, s);
      FlatJoin(e, s);
      Shift(links[..], root, TurnedOut(c), t);
      FlatJoin(TurnedOut(c), t);
      w' := links[xp].right;
    }

    /** The black sibling `w` of a left child has a red child on the far side. */
    method FarNephewLeft(w: nat, xp: nat, ghost c: Ctx, ghost t: Tree)
      requires Zip(links[..], root, c, t) && c.InLeft? && FarRed(c)
      requires w == c.sib.idx && xp == c.idx
      modifies this`root, links
      ensures Zip(links[..], root, c.up, LiftedSibling(c, t)) && Flat(c.up, LiftedSibling(c, t)) == Flat(c, t)
    {
      ghost var e, s := Opposite(c, t), c.sib;
      Shift(links[..], root, c, t);
      FlatJoin(c, t);
      Shift(links[..], root, e, s);
      PaintChild(w, links[xp].color, e, s);
      s := s.(color := c.color);
      Paint(xp, Black, c.up, Join(e, s));
      e := InRight(c.up, c.idx, Black, t);
      Shift(links[..], root, e, s);
      FlatJoin(e, s);
      TreeChild(links[..], xp, s);
      if links[w].right != NIL {
        ghost var n := InRight(e, s.idx, s.color, s.left);
        PaintChild(links[w].right, Black, n, s.right);
        s := Join(n, s.right.(color := Black));
      }
      Shift(links[..], root, e, s);
      FlatJoin(e, s);
      RotateLeft(xp, c.up, Join(e, s));
    }

    /** Red sibling `w` of a right child: after the rotation the sibling is black. */
    method RedSiblingRight(w: nat, xp: nat, ghost c: Ctx, ghost t: Tree) returns (w': int, ghost d: Ctx)
      requires Removing(c, t) && !IsRed(t) && c.InRight? && IsRed(c.sib)
      requires w == c.sib.idx && xp == c.idx
      modifies this`root, links
      ensures Removing(d, t) && d.InRight? && d.idx == xp && !IsRed(d.sib) && d.color == Red
      ensures w' == Ptr(d.sib) && Depth(d) == Depth(c) + 1 && Flat(d, t) == Flat(c, t)
    {
      RedSiblingOk(c, t);
      d := RedSibling(c);
      Shift(links[..], root, c, t);
      FlatJoin(c, t);
      PaintChild(w, Black, Opposite(c, t), c.sib);
      ghost var g1 := Join(Opposite(c, t), c.sib.(color := Black));
      Paint(xp, Red, c.up, g1);
      ghost var g2 := g1.(color := Red);
      RotateRight(xp, c.up, g2);
      assert Join(d.up, Join(d, t)) == RotR(g2);
      Shift(links[..], root, d.up, Join(d, t));
      Shift(links[..], root, d, t);
      FlatJoin(d.up, Join(d, t));
      FlatJoin(d, t);
      w' := links[xp].left;
    }

    /** The black sibling `w` of a right child has a red child only on the near side. */
    method NearNephewRight(w: nat, xp: nat, ghost c: Ctx, ghost t: Tree) returns (w': nat)
      requires Zip(links[..], root, c, t) && c.InRight? && NephewRed(c) && !FarRed(c)
      requires w == c.sib.idx && xp == c.idx
      modifies this`root, links
      ensures Zip(links[..], root, TurnedOut(c), t) && Flat(TurnedOut(c), t) == Flat(c, t)
      ensures w' == TurnedOut(c).sib.idx
    {
      ghost var e, s := Opposite(c, t), c.sib;
      Shift(links[..], root, c, t);
      FlatJoin(c, t);
      Shift(links[..], root, e, s);
      FlatJoin(e, s);
      TreeChild(links[..], xp, s);
      if links[w].right != NIL {
        ghost var n := InRight(e, s.idx, s.color, s.left);
        PaintChild(links[w].right, Black, n, s.right);
        s := Join(n, s.right.(color := Black));
      }
      Paint(w, Red, e, s);
      s := s.(color := Red);
      RotateLeft(w, e, s);
      s := RotL(s);
      Shift(links[..], root, e, s);
      FlatJoin(e, s);
      Shift(links[..], root, TurnedOut(c), t);
      FlatJoin(TurnedOut(c), t);
      w' := links[xp].left;
    }

    /** The black sibling `w` of a right child has a red child on the far side. */
    method FarNephewRight(w: nat, xp: nat, ghost c: Ctx, ghost t: Tree)
      requires Zip(links[..], root, c, t) && c.InRight? && FarRed(c)
      requires w == c.sib.idx && xp == c.idx
      modifies this`root, links
      ensures Zip(links[..], root, c.up, LiftedSibling(c, t)) && Flat(c.up, LiftedSibling(c, t)) == Flat(c, t)
    {
      ghost var e, s := Opposite(c, t), c.sib;
      Shift(links[..], root, c, t);
      FlatJoin(c, t);
      Shift(links[..], root, e, s);
      PaintChild(w, links[xp].color, e, s);
      s := s.(color := c.color);
      Paint(xp, Black, c.up, Join(e, s));
      e := InLeft(c.up, c.idx, Black, t);
      Shift(links[..], root, e, s);
      FlatJoin(e, s);
      TreeChild(links[..], xp, s);
      if links[w].left != NIL {
        ghost var n := InLeft(e, s.idx, s.color, s.right);
        PaintChild(links[w].left, Black, n, s.left);
        s := Join(n, s.left.(color := Black));
      }
      Shift(links[..], root, e, s);
      FlatJoin(e, s);
      RotateRight(xp, c.up, Join(e, s));
    }


    /** Two black nephews: the sibling turns red and the shortage moves to the parent. */
    method BlackNephews(w: nat, xp: nat, ghost c: Ctx, ghost t: Tree) returns (x: int, xp': int, ghost d: Ctx, ghost s: Tree)
      requires Removing(c, t) && !IsRed(t) && !c.Top? && !IsRed(c.sib) && c.sib.Node? && !NephewRed(c)
      requires w == c.sib.idx && xp == c.idx
      modifies links
      ensures Removing(d, s) && x == Ptr(s) && xp' == Above(d, NIL) && d == c.up
      ensures c.color == Red ==> IsRed(s)
      ensures Flat(d, s) == Flat(c, t)
    {
      BothBlackOk(c, t);
      Shift(links[..], root, c, t);
      FlatJoin(c, t);
      PaintChild(w, Red, Opposite(c, t), c.sib);
      x := xp;
      d, s := c.up, Join(Opposite(c, t), c.sib.(color := Red));
      xp' := links[x].parent;
    }

    /** A red nephew: one or two rotations, and the fixup is over. */
    method RedNephewLeft(w0: nat, xp: nat, ghost c: Ctx, ghost t: Tree) returns (x: int, ghost s: Tree)
      requires Removing(c, t) && !IsRed(t) && c.InLeft? && !IsRed(c.sib) && NephewRed(c)
      requires w0 == c.sib.idx && xp == c.idx
      modifies this`root, links
      ensures Removing(Top, s) && x == Ptr(s) && Flat(Top, s) == Flat(c, t)
    {
      var w := w0;
      ghost var d := c;
      ReadSibling(links[..], root, d, t);
      if ColorOf(links[w].right) == Black {
        TurnedOutOk(d, t);
        w := NearNephewLeft(w, xp, d, t);
        d := TurnedOut(d);
      }
      LiftedOk(d, t);
      FarNephewLeft(w, xp, d, t);
      WholeTree(links[..], root, d.up, LiftedSibling(d, t));
      s := Fill(d.up, LiftedSibling(d, t));
      x := root;
    }

    /** One pass of the loop for a black `x` that is a left child. */
    method FixStepLeft(xp: nat, ghost c: Ctx, ghost t: Tree) returns (x: int, xp': int, ghost d: Ctx, ghost s: Tree)
      requires Removing(c, t) && !IsRed(t) && c.InLeft? && xp == c.idx
      modifies this`root, links
      ensures Removing(d, s) && x == Ptr(s) && (!d.Top? ==> xp' == Above(d, NIL))
      ensures Flat(d, s) == Flat(c, t) && Unfinished(d, s) < Unfinished(c, t)
    {
      hide Zip, CtxOk, Rb, Flat;
      d := c;
      ReadSibling(links[..], root, d, t);
      var w := links[xp].right;
      if ColorOf(w) == Red {
        w, d := RedSiblingLeft(w, xp, d, t);
        ReadSibling(links[..], root, d, t);
      }
      if ColorOf(links[w].left) == Black && ColorOf(links[w].right) == Black {
        x, xp', d, s := BlackNephews(w, xp, d, t);
      } else {
        x, s := RedNephewLeft(w, xp, d, t);
        xp', d := NIL, Top;
      }
    }

    /** A red nephew: one or two rotations, and the fixup is over. */
    method RedNephewRight(w0: nat, xp: nat, ghost c: Ctx, ghost t: Tree) returns (x: int, ghost s: Tree)
      requires Removing(c, t) && !IsRed(t) && c.InRight? && !IsRed(c.sib) && NephewRed(c)
      requires w0 == c.sib.idx && xp == c.idx
      modifies this`root, links
      ensures Removing(Top, s) && x == Ptr(s) && Flat(Top, s) == Flat(c, t)
    {
      var w := w0;
      ghost var d := c;
      ReadSibling(links[..], root, d, t);
      if ColorOf(links[w].left) == Black {
        TurnedOutOk(d, t);
        w := NearNephewRight(w, xp, d, t);
        d := TurnedOut(d);
      }
      LiftedOk(d, t);
      FarNephewRight(w, xp, d, t);
      WholeTree(links[..], root, d.up, LiftedSibling(d, t));
      s := Fill(d.up, LiftedSibling(d, t));
      x := root;
    }

    /** One pass of the loop for a black `x` that is a right child. */
    method FixStepRight(xp: nat, ghost c: Ctx, ghost t: Tree) returns (x: int, xp': int, ghost d: Ctx, ghost s: Tree)
      requires Removing(c, t) && !IsRed(t) && c.InRight? && xp == c.idx
      modifies this`root, links
      ensures Removing(d, s) && x == Ptr(s) && (!d.Top? ==> xp' == Above(d, NIL))
      ensures Flat(d, s) == Flat(c, t) && Unfinished(d, s) < Unfinished(c, t)
    {
      hide Zip, CtxOk, Rb, Flat;
      d := c;
      ReadSibling(links[..], root, d, t);
      var w := links[xp].left;
      if ColorOf(w) == Red {
        w, d := RedSiblingRight(w, xp, d, t);
        ReadSibling(links[..], root, d, t);
      }
      if ColorOf(links[w].right) == Black && ColorOf(links[w].left) == Black {
        x, xp', d, s := BlackNephews(w, xp, d, t);
      } else {
        x, s := RedNephewRight(w, xp, d, t);
        xp', d := NIL, Top;
      }
    }

    method RemoveFixup(x0: int, xp0: int, ghost c0: Ctx, ghost t0: Tree)
      requires StrictWeak(less) && Removing(c0, t0) && Sorted(less, Flat(c0, t0))
      requires x0 == Ptr(t0) && xp0 == Above(c0, NIL)
      modifies this`root, this`tree, links
      ensures Valid() && InOrder(tree) == Flat(c0, t0)
    {
      var x, xp := x0, xp0;
      ghost var c, t := c0, t0;
      while x != root && ColorOf(x) == Black
        invariant Removing(c, t) && x == Ptr(t) && (!c.Top? ==> xp == Above(c, NIL))
        invariant Flat(c, t) == Flat(c0, t0)
        decreases Unfinished(c, t)
      {
        ReadSibling(links[..], root, c, t);
        if x == links[xp].left {
          x, xp, c, t := FixStepLeft(xp, c, t);
        } else {
          x, xp, c, t := FixStepRight(xp, c, t);
        }
      }
      AtRoot(links[..], root, c, t);
      if x != NIL {
        Paint(x, Black, c, t);
        t := t.(color := Black);
      }
      WholeTree(links[..], root, c, t);
      tree := Fill(c, t);
    }

    method Unhook(z: nat, y: nat)
      requires z < links.Length && y < links.Length && y != z
      requires 0 <= links[y].parent < links.Length && NIL <= links[y].right < links.Length && 0 <= links[z].right < links.Length
      requires links[y].parent !in {y, z} && links[y].right !in {y, z, links[y].parent, links[z].right} && links[z].right !in {y, z}
      modifies this`root, links
      ensures Unhooked(old(links[..]), links[..], y, old(links[z]).right) && root == old(root)
    {
      Transplant(y, links[y].right);
      links[y] := links[y].(right := links[z].right);
      links[links[y].right] := links[links[y].right].(parent := y);
    }

    method Detach(z: nat, y: nat, ghost c: Ctx, ghost t: Tree, ghost m: Ctx, ghost s: Tree) returns (xp: nat)
      requires Cut(links[..], root, c, t, m, s) && t.idx == z && s.idx == y
      modifies this`root, links
      ensures Detached(old(links[..]), links[..], t, m, s) && root == old(root)
      ensures xp == Above(m, y)
    {
      ghost var L := links[..];
      CutApart(L, root, c, t, m, s);
      TreeChild(L, Above(m, z), s);
      if links[y].parent == z {
        xp := y;
      } else {
        xp := links[y].parent;
        UnhookedDetaches(L, L, root, c, t, m, s);
        Unhook(z, y);
        UnhookedDetaches(L, links[..], root, c, t, m, s);
      }
    }

    method TakePlace(z: nat, y: nat)
      requires z < links.Length && y < links.Length && z != y
      requires 0 <= links[z].left < links.Length && NIL <= links[z].parent < links.Length
      requires links[z].left != y && links[z].left != z && links[z].parent !in {y, z, links[z].left}
      modifies this`root, links
      ensures TookPlace(old(links[..]), links[..], z, y)
      ensures root == if old(links[z]).parent == NIL then y else old(root)
    {
      Transplant(z, y);
      links[y] := links[y].(left := links[z].left);
      links[links[y].left] := links[links[y].left].(parent := y);
      links[y] := links[y].(color := links[z].color);
    }

    /** `y`, the least node of the right subtree, takes the place of `z`. */
    method Exchange(z: nat, y: nat, ghost c: Ctx, ghost t: Tree, ghost m: Ctx, ghost sy: Tree) returns (xp: nat)
      requires Cut(links[..], root, c, t, m, sy) && t.idx == z && sy.idx == y
      modifies this`root, links
      ensures Zip(links[..], root, Compose(m, InRight(c, y, t.color, t.left)), sy.right)
      ensures xp == Above(m, y)
    {
      ghost var L, rt := links[..], root;
      xp := Detach(z, y, c, t, m, sy);
      ghost var L1 := links[..];
      DetachedRest(L, L1, rt, c, t, m, sy);
      TakePlace(z, y);
      SpliceEnds(L, L1, links[..], rt, root, c, t, m, sy);
    }

    /** The two-children case of remove. */
    method Splice(z: nat, ghost c: Ctx, ghost t: Tree)
      returns (y: nat, yOrig: Color, x: int, xp: int, ghost d: Ctx, ghost s: Tree)
      requires Rb(tree) && !IsRed(tree) && Zip(links[..], root, c, t) && Fill(c, t) == tree
      requires t.Node? && t.idx == z && t.left.Node? && t.right.Node?
      modifies this`root, links
      ensures Zip(links[..], root, d, s) && x == Ptr(s) && xp == Above(d, NIL)
      ensures TakenOut(yOrig, d, s) && Removed(InOrder(tree), z, Flat(d, s))
    {
      TreeChild(links[..], Above(c, NIL), t);
      TreeChild(links[..], z, t.right);
      ghost var m, sy;
      y, m, sy := Minimum(links[z].right, z, t.right);
      SpliceRules(tree, c, t, m, sy);
      SpliceRemoves(tree, c, t, m, sy);
      TreeChild(links[..], Above(m, z), sy);
      yOrig := links[y].color;
      x := links[y].right;
      xp := Exchange(z, y, c, t, m, sy);
      d, s := Compose(m, InRight(c, y, t.color, t.left)), sy.right;
    }

    /** A node with at most one child gives its place to that child. */
    method Bypass(z: nat, x: int, ghost c: Ctx, ghost t: Tree) returns (xp: int, ghost s: Tree)
      requires Rb(tree) && !IsRed(tree) && Zip(links[..], root, c, t) && Fill(c, t) == tree
      requires t.Node? && t.idx == z && if t.left.Leaf? then x == Ptr(t.right) else t.right.Leaf? && x == Ptr(t.left)
      modifies this`root, links
      ensures Zip(links[..], root, c, s) && x == Ptr(s) && xp == Above(c, NIL)
      ensures TakenOut(t.color, c, s) && Removed(InOrder(tree), z, Flat(c, s))
    {
      hide Rb, Zip, Fill, TakenOut, Removed, InOrder;
      Bypassed(links[..], root, c, t);
      BypassRules(tree, c, t);
      BypassRemoves(tree, c, t);
      xp := links[z].parent;
      Transplant(z, x);
      s := if t.left.Leaf? then t.right else t.left;
    }

    /** The node leaves the links; what is left may be one black node short at the end of the path `d`. */
    method TakeOut(z: nat) returns (gone: Color, x: int, xp: int, ghost d: Ctx, ghost s: Tree)
      requires Valid() && z in InOrder(tree)
      modifies this`root, links
      ensures Zip(links[..], root, d, s) && x == Ptr(s) && xp == Above(d, NIL)
      ensures TakenOut(gone, d, s) && Removed(InOrder(tree), z, Flat(d, s))
    {
      hide StrictWeak, Sorted, Removed, InOrder, TakenOut, Rb;
      InOrderElems(tree);
      ghost var c, t := PathTo(tree, z), Sub(tree, z);
      Climb(links[..], root, c, t);
      TreeChild(links[..], Above(c, NIL), t);
      gone, d := links[z].color, c;
      if links[z].left == NIL {
        x := links[z].right;
        xp, s := Bypass(z, x, c, t);
      } else if links[z].right == NIL {
        x := links[z].left;
        xp, s := Bypass(z, x, c, t);
      } else {
        var y;
        y, gone, x, xp, d, s := Splice(z, c, t);
      }
    }

    method Remove(z: nat)
      requires Valid() && z in InOrder(tree)
      modifies this`root, this`tree, links
      ensures Valid()
      ensures Removed(old(InOrder(tree)), z, InOrder(tree))
    {
      hide StrictWeak, Sorted, Removed, InOrder;
      ghost var T := tree;
      var gone, x, xp;
      ghost var d, s;
      gone, x, xp, d, s := TakeOut(z);
      RemovedSorted(less, InOrder(T), z, Flat(d, s));
      if gone == Black {
        RemoveFixup(x, xp, d, s);
      } else {
        tree := Fill(d, s);
        WholeTree(links[..], root, d, s);
      }
    }

    /** Keys of nodes that are not linked may change: the tree stays valid while linked nodes compare as before. */
    method SetOrder(order: Less)
      requires Valid() && StrictWeak(order)
      requires forall a, b :: a in InOrder(tree) && b in InOrder(tree) ==> order(a, b) == less(a, b)
      modifies this`less
      ensures Valid() && less == order
    {
      less := order;
    }

    /** The key of a node changes: it is taken out, given the new order, and put back in its new place. */
    method Rekey(z: nat, order: Less)
      requires Valid() && z in InOrder(tree) && StrictWeak(order)
      requires forall a, b :: a in InOrder(tree) && b in InOrder(tree) && a != z && b != z ==> order(a, b) == less(a, b)
      modifies this`root, this`tree, this`less, links
      ensures Valid() && less == order
      ensures exists s: seq<nat> :: Removed(old(InOrder(tree)), z, s) && Inserted(order, s, z, InOrder(tree))
    {
      ghost var was := InOrder(tree);
      hide StrictWeak, Removed, Inserted;
      InLinks(z);
      Gone(z);
      Remove(z);
      ghost var s := InOrder(tree);
      RemovedFrom(was, z, s);
      SetOrder(order);
      Insert(z);
      assert Removed(was, z, s) && Inserted(order, s, z, InOrder(tree));
    }

    lemma Gone(z: nat)
      requires Valid()
      ensures forall s: seq<nat> :: Removed(InOrder(tree), z, s) ==> z !in s
    {
      RemovedGone(tree, z);
    }

    lemma InLinks(z: nat)
      requires Valid() && z in InOrder(tree)
      ensures z < links.Length
    {
      hide Rb, Sorted, StrictWeak;
      InOrderElems(tree);
      ElemsInside(links[..], NIL, tree, z);
    }

    /** The first node in order where `cmp` is false, in at most 2 * log2(n + 1) steps. */
    method LowerBound(cmp: Cmp) returns (best: int, ghost steps: nat)
      requires Valid() && HoldsOnPrefix(cmp, InOrder(tree))
      ensures best == FirstFalse(cmp, InOrder(tree))
      ensures Pow2(steps) <= (|InOrder(tree)| + 1) * (|InOrder(tree)| + 1)
    {
      var x := root;
      best, steps := NIL, 0;
      ghost var c, t, T, L := Top, tree, tree, links[..];
      FlatTop(T);
      while x != NIL
        invariant Searching(cmp, L, root, T, c, t) && x == Ptr(t) && L == links[..]
        invariant best == Head(After(c))
        invariant steps + Height(t) <= Height(T)
        decreases t
      {
        steps := steps + 1;
        if !cmp(x) {
          SearchLeft(cmp, L, root, T, c, t);
          best := x;
          x := links[x].left;
          c, t := InLeft(c, t.idx, t.color, t.right), t.left;
        } else {
          SearchRight(cmp, L, root, T, c, t);
          x := links[x].right;
          c, t := InRight(c, t.idx, t.color, t.left), t.right;
        }
      }
      SearchDone(cmp, L, root, T, c);
      StepBound(T, steps);
    }

    /** The last node in order where `cmp` is true, in at most 2 * log2(n + 1) steps. */
    method LastWhere(cmp: Cmp) returns (best: int, ghost steps: nat)
      requires Valid() && HoldsOnPrefix(cmp, InOrder(tree))
      ensures best == LastTrue(cmp, InOrder(tree))
      ensures Pow2(steps) <= (|InOrder(tree)| + 1) * (|InOrder(tree)| + 1)
    {
      var x := root;
      best, steps := NIL, 0;
      ghost var c, t, T, L := Top, tree, tree, links[..];
      FlatTop(T);
      while x != NIL
        invariant Searching(cmp, L, root, T, c, t) && x == Ptr(t) && L == links[..]
        invariant best == Last(Before(c))
        invariant steps + Height(t) <= Height(T)
        decreases t
      {
        steps := steps + 1;
        if cmp(x) {
          SearchRight(cmp, L, root, T, c, t);
          best := x;
          x := links[x].right;
          c, t := InRight(c, t.idx, t.color, t.left), t.right;
        } else {
          SearchLeft(cmp, L, root, T, c, t);
          x := links[x].left;
          c, t := InLeft(c, t.idx, t.color, t.right), t.left;
        }
      }
      SearchDone(cmp, L, root, T, c);
      StepBound(T, steps);
    }

    /** Visits the subtree at `x` in order, appending to what was visited before. */
    method InOrderFrom(x: int, visited: seq<nat>, ghost p: int, ghost t: Tree) returns (s: seq<nat>)
      requires TreeRep(links[..], p, t) && x == Ptr(t)
      ensures s == visited + InOrder(t)
      decreases t
    {
      if x == NIL {
        return visited;
      }
      s := InOrderFrom(links[x].left, visited, x, t.left);
      s := s + [x];
      s := InOrderFrom(links[x].right, s, x, t.right);
    }

    method Visit() returns (s: seq<nat>)
      requires Valid()
      ensures s == InOrder(tree) && Sorted(less, s)
    {
      s := InOrderFrom(root, [], NIL, tree);
    }
  }
}
