/** The free extents of the file system (programs/include/FileSystem/TemrixFs/FreeSpaceIndex.hpp): a pool of slots that
    are linked into two red-black trees, by starting block and by size. */
module FreeSpace {
  import opened Powers
  import opened RbLinks
  import opened RbOrder
  import opened RbShape
  import opened RbTree

  datatype Extent = Extent(start: nat, count: nat)

  type Pool = seq<Extent>

  function At(p: Pool, i: nat): Extent { if i < |p| then p[i] else Extent(0, 0) }

  /** By size, and among extents of one size by starting block. */
  predicate Smaller(a: Extent, b: Extent) { a.count < b.count || (a.count == b.count && a.start < b.start) }

  // ---- The two orders ----

  function OffsetLess(p: Pool): Less { (a: nat, b: nat) => At(p, a).start < At(p, b).start }

  function SizeLess(p: Pool): Less { (a: nat, b: nat) => Smaller(At(p, a), At(p, b)) }

  lemma OrdersWeak(p: Pool)
    ensures StrictWeak(OffsetLess(p)) && StrictWeak(SizeLess(p))
  {
  }

  /** Blocks in the extents of the slots `s`. */
  function Sum(p: Pool, s: seq<nat>): nat {
    if s == [] then 0 else Sum(p, s[1..]) + At(p, s[0]).count
  }

  lemma {:induction false} SumAppend(p: Pool, a: seq<nat>, b: seq<nat>)
    ensures Sum(p, a + b) == Sum(p, a) + Sum(p, b)
  {
    if a == [] {
      assert a + b == b;
    } else {
      assert (a + b)[1..] == a[1..] + b;
      SumAppend(p, a[1..], b);
    }
  }

  lemma {:induction false} SumOther(p: Pool, q: Pool, s: seq<nat>)
    requires forall i :: i in s ==> At(p, i) == At(q, i)
    ensures Sum(p, s) == Sum(q, s)
  {
    if s != [] { SumOther(p, q, s[1..]); }
  }

  lemma SumWith(p: Pool, a: seq<nat>, z: nat, b: seq<nat>)
    ensures Sum(p, a + [z] + b) == Sum(p, a + b) + At(p, z).count
  {
    SumAppend(p, a + [z], b);
    SumAppend(p, a, [z]);
    SumAppend(p, a, b);
  }

  lemma SumInserted(less: Less, p: Pool, s: seq<nat>, z: nat, s': seq<nat>)
    requires Inserted(less, s, z, s')
    ensures Sum(p, s') == Sum(p, s) + At(p, z).count && |s'| == |s| + 1
  {
    hide Sum, GoesAfter, GoesBefore;
    var k :| 0 <= k <= |s| && s' == s[..k] + [z] + s[k..] && GoesAfter(less, z, s[..k]) && GoesBefore(less, z, s[k..]);
    SumWith(p, s[..k], z, s[k..]);
    assert s == s[..k] + s[k..];
  }

  lemma SumRemoved(p: Pool, s: seq<nat>, z: nat, s': seq<nat>)
    requires Removed(s, z, s')
    ensures Sum(p, s) == Sum(p, s') + At(p, z).count && |s| == |s'| + 1
  {
    hide Sum;
    var k: int :| RemovedAt(s, z, s', k);
    SumWith(p, s[..k], z, s[k + 1..]);
    assert s == s[..k] + [z] + s[k + 1..];
  }

  // ---- What the searches find in a sorted sequence ----

  lemma {:induction false} FirstFalseIs(cmp: Cmp, s: seq<nat>) returns (m: nat)
    ensures m <= |s| && AllTrue(cmp, s[..m]) && FirstFalse(cmp, s) == if m == |s| then -1 else s[m]
    ensures m < |s| ==> !cmp(s[m])
  {
    if s == [] || !cmp(s[0]) {
      m := 0;
    } else {
      var k := FirstFalseIs(cmp, s[1..]);
      m := k + 1;
      assert s[..m] == [s[0]] + s[1..][..k];
    }
  }

  lemma {:induction false} LastTrueIs(cmp: Cmp, s: seq<nat>) returns (m: nat)
    ensures m <= |s| && AllFalse(cmp, s[m..]) && LastTrue(cmp, s) == if m == 0 then -1 else s[m - 1]
    ensures m > 0 ==> cmp(s[m - 1])
  {
    if s == [] || cmp(s[|s| - 1]) {
      m := |s|;
    } else {
      var n := |s| - 1;
      m := LastTrueIs(cmp, s[..n]);
      assert s[m..] == s[..n][m..] + [s[n]];
    }
  }

  /** The smallest extent of at least `want` blocks, and the first of those, or there is none. */
  ghost predicate BestFit(p: Pool, s: seq<nat>, want: nat, r: int) {
    if r == NIL then forall i :: i in s ==> At(p, i).count < want
    else
      && r >= 0 && r as nat in s && At(p, r).count >= want
      && forall i :: i in s && At(p, i).count >= want ==> !Smaller(At(p, i), At(p, r))
  }

  /** The extent that starts at `start`, or there is none. */
  ghost predicate Exact(p: Pool, s: seq<nat>, start: nat, r: int) {
    if r == NIL then forall i :: i in s ==> At(p, i).start != start
    else r >= 0 && r as nat in s && At(p, r).start == start
  }

  /** The last extent that starts before `key`, or there is none. */
  ghost predicate Predecessor(p: Pool, s: seq<nat>, key: nat, r: int) {
    if r == NIL then forall i :: i in s ==> At(p, i).start >= key
    else
      && r >= 0 && r as nat in s && At(p, r).start < key
      && forall i :: i in s && At(p, i).start < key ==> At(p, i).start <= At(p, r).start
  }

  function SmallerThan(p: Pool, want: nat): Cmp { (i: nat) => At(p, i).count < want }

  function StartsBefore(p: Pool, key: nat): Cmp { (i: nat) => At(p, i).start < key }

  lemma BestFitFound(p: Pool, s: seq<nat>, want: nat)
    requires Sorted(SizeLess(p), s)
    ensures HoldsOnPrefix(SmallerThan(p, want), s) && BestFit(p, s, want, FirstFalse(SmallerThan(p, want), s))
  {
    var m := FirstFalseIs(SmallerThan(p, want), s);
    assert forall j :: 0 <= j < m ==> s[..m][j] == s[j];
  }

  lemma ExactFound(p: Pool, s: seq<nat>, start: nat)
    requires Sorted(OffsetLess(p), s)
    ensures HoldsOnPrefix(StartsBefore(p, start), s)
    ensures var r := FirstFalse(StartsBefore(p, start), s);
            r >= NIL && Exact(p, s, start, if r != NIL && At(p, r).start == start then r else NIL)
  {
    var m := FirstFalseIs(StartsBefore(p, start), s);
    assert forall j :: 0 <= j < m ==> s[..m][j] == s[j];
  }

  lemma PredecessorFound(p: Pool, s: seq<nat>, key: nat)
    requires Sorted(OffsetLess(p), s)
    ensures HoldsOnPrefix(StartsBefore(p, key), s) && Predecessor(p, s, key, LastTrue(StartsBefore(p, key), s))
  {
    var m := LastTrueIs(StartsBefore(p, key), s);
    assert forall j :: m <= j < |s| ==> s[m..][j - m] == s[j];
  }

  lemma SameMembers(s: seq<nat>, t: seq<nat>)
    requires multiset(s) == multiset(t)
    ensures forall i :: i in s <==> i in t
  {
    assert forall i :: i in s <==> i in multiset(s);
    assert forall i :: i in t <==> i in multiset(t);
  }

  // ---- The slots ----

  /** Each of the `n` slots is either in `s` or, once, on the list of free ones. */
  ghost predicate Slots(n: nat, free: seq<nat>, s: seq<nat>) {
    && (forall i :: i in free ==> i < n && i !in s) && (forall i :: i in s ==> i < n)
    && (forall i: nat :: i < n ==> i in free || i in s)
    && (forall j, k :: 0 <= j < k < |free| ==> free[j] != free[k])
  }

  function AllSlots(n: nat): (s: seq<nat>)
    ensures |s| == n && forall i: nat :: i < n ==> s[i] == i
  {
    seq(n, i requires 0 <= i => i)
  }

  lemma AllFree(n: nat)
    ensures Slots(n, AllSlots(n), [])
  {
    hide AllSlots;
    var s := AllSlots(n);
    forall i: nat | i < n
      ensures i in s
    {
      assert s[i] == i;
    }
  }

  ghost predicate OneMoreMember(s: seq<nat>, z: nat, s': seq<nat>) {
    z !in s && forall a: nat :: a in s' <==> a in s || a == z
  }

  lemma FirstFree(n: nat, free: seq<nat>, s: seq<nat>)
    requires Slots(n, free, s)
    ensures free == [] <==> forall i: nat :: i < n ==> i in s
    ensures free != [] ==> free[0] < n && free[0] !in s
  {
    if free != [] { assert free[0] in free; }
  }

  lemma SlotTaken(n: nat, free: seq<nat>, s: seq<nat>, s': seq<nat>)
    requires Slots(n, free, s) && free != [] && OneMoreMember(s, free[0], s')
    ensures Slots(n, free[1..], s')
  {
    var rest := free[1..];
    assert free == [free[0]] + rest;
    forall i | i in rest
      ensures i != free[0] && i in free
    {
      var k :| 0 <= k < |rest| && rest[k] == i;
      assert free[k + 1] == i;
    }
    forall j, k | 0 <= j < k < |rest|
      ensures rest[j] != rest[k]
    {
      assert free[j + 1] == rest[j] && free[k + 1] == rest[k];
    }
  }

  lemma SlotFreed(n: nat, free: seq<nat>, s: seq<nat>, z: nat, s': seq<nat>)
    requires Slots(n, free, s) && OneMoreMember(s', z, s)
    ensures Slots(n, [z] + free, s')
  {
  }

  /** The extents of the slots `s`. */
  ghost function Extents(p: Pool, s: seq<nat>): map<nat, Extent> { map i | i in s :: At(p, i) }

  lemma ExtentsMore(p: Pool, s: seq<nat>, z: nat, ext: Extent, s': seq<nat>)
    requires z < |p| && OneMoreMember(s, z, s')
    ensures Extents(p[z := ext], s') == Extents(p, s)[z := ext]
  {
  }

  lemma ResizedSlots(n: nat, free: seq<nat>, s: seq<nat>, z: nat, t: seq<nat>, s': seq<nat>)
    requires Slots(n, free, s) && OneMoreMember(t, z, s) && OneMoreMember(t, z, s')
    ensures Slots(n, free, s')
  {
  }

  lemma ExtentsFewer(p: Pool, s: seq<nat>, z: nat, s': seq<nat>)
    requires OneMoreMember(s', z, s)
    ensures Extents(p, s') == Extents(p, s) - {z} && Extents(p, s) == Extents(p, s')[z := At(p, z)]
  {
  }

  lemma LinkedSum(p: Pool, s: seq<nat>, z: nat, ext: Extent, s': seq<nat>)
    requires z < |p| && z !in s && Inserted(OffsetLess(p[z := ext]), s, z, s')
    ensures Sum(p[z := ext], s') == Sum(p, s) + ext.count && |s'| == |s| + 1 && OneMoreMember(s, z, s')
  {
    hide Inserted, Sum;
    SumOther(p, p[z := ext], s);
    SumInserted(OffsetLess(p[z := ext]), p[z := ext], s, z, s');
    InsertedInto(OffsetLess(p[z := ext]), s, z, s');
  }

  lemma UnlinkedSum(p: Pool, s: seq<nat>, z: nat, s': seq<nat>)
    requires Removed(s, z, s') && z !in s'
    ensures Sum(p, s) == Sum(p, s') + At(p, z).count && |s| == |s'| + 1 && OneMoreMember(s', z, s)
  {
    hide Sum;
    SumRemoved(p, s, z, s');
    RemovedFrom(s, z, s');
    var k: int :| RemovedAt(s, z, s', k);
    assert forall a :: a in s && a != z ==> a in s[..k] || a in s[k + 1..];
  }

  /** The counter of blocks may wrap around; it is right modulo 2^64. */
  lemma TotalMore(sum: nat, ext: nat)
    ensures (sum % TWO64 + ext) % TWO64 == (sum + ext) % TWO64
  {
  }

  lemma TotalFewer(sum: nat, gone: nat, ext: nat)
    ensures ((sum + gone) % TWO64 + ext - gone) % TWO64 == (sum + ext) % TWO64
  {
  }

  class FreeSpaceIndex {
    var pool: Pool
    var free: seq<nat>            // slots not in use, the next one first
    var total: nat                // totalBlocks, modulo 2^64
    var live: nat
    const offsets: IntrusiveRbTree
    const sizes: IntrusiveRbTree

    /** The slots in use, by starting block. */
    ghost function Live(): seq<nat>
      reads offsets
    {
      InOrder(offsets.tree)
    }

    /** Both trees hold the same slots, each in its order. */
    ghost predicate Trees()
      reads `pool, offsets, offsets.links, sizes, sizes.links
    {
      && offsets != sizes && offsets.links != sizes.links
      && |pool| == offsets.links.Length == sizes.links.Length
      && offsets.Valid() && offsets.less == OffsetLess(pool)
      && sizes.Valid() && sizes.less == SizeLess(pool)
      && multiset(InOrder(sizes.tree)) == multiset(Live())
    }

    /** Every slot is in use or on the list of free ones, and the counters are right. */
    ghost predicate Counted()
      reads `pool, `free, `live, `total, offsets
    {
      Slots(|pool|, free, Live()) && live == |Live()| && total == Sum(pool, Live()) % 0x1_0000_0000_0000_0000
    }

    ghost predicate Valid()
      reads this, offsets, offsets.links, sizes, sizes.links
    {
      Trees() && Counted()
    }

    /** `n` slots, none in use. */
    constructor (n: nat)
      ensures Valid() && |pool| == n && Live() == []
      ensures fresh(offsets) && fresh(sizes) && fresh(offsets.links) && fresh(sizes.links)
    {
      hide Slots, StrictWeak, AllSlots;
      var p := seq(n, i => Extent(0, 0));
      OrdersWeak(p);
      var a := new Links[n](i => Links(NIL, NIL, NIL, Black));
      var b := new Links[n](i => Links(NIL, NIL, NIL, Black));
      offsets := new IntrusiveRbTree(a, OffsetLess(p));
      sizes := new IntrusiveRbTree(b, SizeLess(p));
      pool, free, total, live := p, AllSlots(n), 0, 0;
      new;
      AllFree(n);
    }

    /** What the index holds: the extent of every slot in use. */
    ghost function Contents(): map<nat, Extent>
      reads `pool, offsets
    {
      Extents(pool, Live())
    }

    /** Takes a slot out of both trees. */
    method Unlink(idx: nat)
      requires Trees() && idx in Live()
      modifies offsets`root, offsets`tree, offsets.links, sizes`root, sizes`tree, sizes.links
      ensures Trees() && idx !in Live() && Removed(old(Live()), idx, Live())
    {
      hide StrictWeak, Removed, IntrusiveRbTree.Valid, OffsetLess, SizeLess, InOrder;
      ghost var s, t := Live(), InOrder(sizes.tree);
      SameMembers(s, t);
      offsets.Gone(idx);
      offsets.Remove(idx);
      sizes.Remove(idx);
      RemovedFrom(s, idx, Live());
      RemovedFrom(t, idx, InOrder(sizes.tree));
    }

    /** Gives an unused slot its extent and puts it into both trees. */
    method Link(idx: nat, ext: Extent)
      requires Trees() && idx < |pool| && idx !in Live()
      modifies `pool
      modifies offsets`root, offsets`tree, offsets`less, offsets.links, sizes`root, sizes`tree, sizes`less, sizes.links
      ensures Trees() && pool == old(pool)[idx := ext]
      ensures Inserted(OffsetLess(pool), old(Live()), idx, Live())
    {
      hide StrictWeak, Inserted, IntrusiveRbTree.Valid, OffsetLess, SizeLess, InOrder;
      ghost var s, t := Live(), InOrder(sizes.tree);
      SetExtent(idx, ext);
      SameMembers(s, t);
      offsets.Insert(idx);
      sizes.Insert(idx);
      InsertedInto(OffsetLess(pool), s, idx, Live());
      InsertedInto(SizeLess(pool), t, idx, InOrder(sizes.tree));
    }

    /** The keys of an unused slot change, and with them both orders, but not for the slots in the trees. */
    method SetExtent(idx: nat, ext: Extent)
      requires Trees() && idx < |pool| && idx !in Live()
      modifies `pool, offsets`less, sizes`less
      ensures Trees() && pool == old(pool)[idx := ext]
    {
      hide StrictWeak, IntrusiveRbTree.Valid, InOrder;
      SameMembers(Live(), InOrder(sizes.tree));
      OrdersWeak(pool[idx := ext]);
      offsets.SetOrder(OffsetLess(pool[idx := ext]));
      sizes.SetOrder(SizeLess(pool[idx := ext]));
      pool := pool[idx := ext];
    }

    /** Fails exactly if every slot is in use. */
    method Insert(ext: Extent) returns (idx: int)
      requires Valid()
      modifies `pool, `free, `total, `live
      modifies offsets`root, offsets`tree, offsets`less, offsets.links, sizes`root, sizes`tree, sizes`less, sizes.links
      ensures Valid() && |pool| == old(|pool|)
      ensures idx == NIL <==> forall i: nat :: i < |pool| ==> i in old(Live())
      ensures idx >= NIL && (idx != NIL ==> idx < |pool| && idx as nat !in old(Contents()))
      ensures Contents() == if idx == NIL then old(Contents()) else old(Contents())[idx := ext]
    {
      hide Trees, Slots, Sum, OneMoreMember, Extents, Inserted, InOrder;
      FirstFree(|pool|, free, Live());
      if free == [] { return NIL; }
      idx := free[0];
      ghost var s, p, sum := Live(), pool, Sum(pool, Live());
      NotHeld(idx);
      Link(idx, ext);
      LinkedSum(p, s, idx, ext, Live());
      SlotTaken(|p|, free, s, Live());
      ExtentsMore(p, s, idx, ext, Live());
      TotalMore(sum, ext.count);
      free := free[1..];
      live := live + 1;
      total := (total + ext.count) % TWO64;
    }

    method Remove(idx: nat)
      requires Valid() && idx in Live()
      modifies `free, `total, `live, offsets`root, offsets`tree, offsets.links, sizes`root, sizes`tree, sizes.links
      ensures Valid() && Contents() == old(Contents()) - {idx}
    {
      hide Trees, Slots, Sum, OneMoreMember, Extents, Removed, InOrder;
      ghost var s := Live();
      total := (total - At(pool, idx).count) % TWO64;
      Unlink(idx);
      UnlinkedSum(pool, s, idx, Live());
      SlotFreed(|pool|, free, s, idx, Live());
      ExtentsFewer(pool, s, idx, Live());
      TotalFewer(Sum(pool, Live()), At(pool, idx).count, 0);
      free := [idx] + free;
      live := live - 1;
    }

    /** Changes the extent of a slot in use: its keys change while it is in neither tree. */
    method Resize(idx: nat, ext: Extent)
      requires Valid() && idx in Live()
      modifies `pool, `total
      modifies offsets`root, offsets`tree, offsets`less, offsets.links, sizes`root, sizes`tree, sizes`less, sizes.links
      ensures Valid() && |pool| == old(|pool|) && Contents() == old(Contents())[idx := ext]
    {
      hide Trees, Slots, Sum, OneMoreMember, Extents, Removed, Inserted, InOrder;
      ghost var s, p := Live(), pool;
      InPool();
      total := (total + ext.count - At(pool, idx).count) % TWO64;
      Unlink(idx);
      ghost var t := Live();
      UnlinkedSum(p, s, idx, t);
      Link(idx, ext);
      LinkedSum(p, t, idx, ext, Live());
      TotalFewer(Sum(p, t), At(p, idx).count, ext.count);
      ResizedSlots(|p|, free, s, idx, t, Live());
      ExtentsFewer(p, s, idx, t);
      ExtentsMore(p, t, idx, ext, Live());
    }

    method FindBestFit(want: nat) returns (r: int)
      requires Valid()
      ensures BestFit(pool, Live(), want, r)
      ensures r == NIL <==> forall i :: i in Live() ==> At(pool, i).count < want
      ensures r != NIL ==>
        && r >= 0 && r as nat in Live() && At(pool, r).count >= want
        && forall i :: i in Live() && At(pool, i).count >= want ==>
             && At(pool, r).count <= At(pool, i).count
             && (At(pool, r).count == At(pool, i).count ==> At(pool, r).start <= At(pool, i).start)
    {
      BestFitFound(pool, InOrder(sizes.tree), want);
      SameMembers(Live(), InOrder(sizes.tree));
      ghost var steps;
      r, steps := sizes.LowerBound(SmallerThan(pool, want));
    }

    method FindExact(start: nat) returns (r: int)
      requires Valid()
      ensures Exact(pool, Live(), start, r)
    {
      ExactFound(pool, Live(), start);
      ghost var steps;
      r, steps := offsets.LowerBound(StartsBefore(pool, start));
      if r != NIL && At(pool, r).start != start { r := NIL; }
    }

    method PredecessorOfKey(key: nat) returns (r: int)
      requires Valid()
      ensures Predecessor(pool, Live(), key, r)
    {
      PredecessorFound(pool, Live(), key);
      ghost var steps;
      r, steps := offsets.LastWhere(StartsBefore(pool, key));
    }

    /** The first extents, by starting block, all of them if there are no more than `max`. */
    method Enumerate(max: nat) returns (out: seq<Extent>)
      requires Valid()
      ensures |out| == if |Live()| <= max then |Live()| else max
      ensures forall k :: 0 <= k < |out| ==> out[k] == At(pool, Live()[k])
      ensures forall j, k :: 0 <= j < k < |out| ==> out[j].start <= out[k].start
    {
      hide IntrusiveRbTree.Valid, Slots, Sum, InOrder, SizeLess;
      var visited := offsets.Visit();
      if |visited| > max { visited := visited[..max]; }
      var p := pool;
      out := seq(|visited|, k requires 0 <= k < |visited| => At(p, visited[k]));
      assert forall j, k :: 0 <= j < k < |visited| ==> !OffsetLess(pool)(visited[k], visited[j]);
    }

    lemma InPool()
      requires Valid()
      ensures forall i :: i in Live() ==> i < |pool|
    {
    }

    lemma NotHeld(i: nat)
      requires i !in Live()
      ensures i !in Contents()
    {
    }
  }
}
