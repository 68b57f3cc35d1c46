/** The page allocator of src/kernel/BuddyAllocator.cpp over all its memory regions. Every
    public call holds the allocator's lock, so each method is one atomic step. */
module Buddy {
  import opened Powers
  import opened BuddyLayout
  import opened BuddyRegion

  const MAX_REGIONS := 32
  const DIRECT_MAP_BASE := 0xffff_8880_0000_0000

  function PhysToVirt(phys: nat): nat { (phys + DIRECT_MAP_BASE) % TWO64 }

  function VirtToPhys(virt: nat): nat { (virt + TWO64 - DIRECT_MAP_BASE) % TWO64 }

  /** One entry of the firmware memory map. */
  datatype Descriptor = Descriptor(kind: nat, addr: nat, pages: nat)

  /** Conventional memory with room for more than its own page_order bytes. */
  predicate Usable(d: Descriptor) { d.kind == 7 && MetaPages(d.pages) < d.pages }

  function UsableOf(mmap: seq<Descriptor>): seq<Descriptor> {
    if mmap == [] then []
    else UsableOf(mmap[..|mmap| - 1]) + if Usable(mmap[|mmap| - 1]) then [mmap[|mmap| - 1]] else []
  }

  lemma UsableNext(mmap: seq<Descriptor>, i: nat)
    requires i < |mmap|
    ensures Usable(mmap[i]) ==> UsableOf(mmap[..i + 1]) == UsableOf(mmap[..i]) + [mmap[i]]
    ensures !Usable(mmap[i]) ==> UsableOf(mmap[..i + 1]) == UsableOf(mmap[..i])
  {
    assert mmap[..i + 1][..i] == mmap[..i];
  }

  predicate DisjointMemory(a: Descriptor, b: Descriptor) {
    a.addr + a.pages * PAGE_SIZE <= b.addr || b.addr + b.pages * PAGE_SIZE <= a.addr
  }

  /** What init relies on: usable memory is direct-mapped, counted in 32 bits, and listed once. */
  predicate SaneMap(mmap: seq<Descriptor>) {
    && (forall i :: 0 <= i < |mmap| && Usable(mmap[i]) ==>
          mmap[i].pages < TWO32 && mmap[i].addr + mmap[i].pages * PAGE_SIZE <= TWO64 - DIRECT_MAP_BASE)
    && (forall i, j :: 0 <= i < j < |mmap| && Usable(mmap[i]) && Usable(mmap[j]) ==> DisjointMemory(mmap[i], mmap[j]))
  }

  /** pages_needed, in 32-bit arithmetic. */
  function PagesNeeded(size: nat): nat { (size + PAGE_SIZE - 1) % TWO32 / PAGE_SIZE }

  function LeastOrder(n: nat, k: nat): (r: nat)
    ensures r >= k && Pow2(r) >= n
    ensures forall j :: k <= j < r ==> Pow2(j) < n
    decreases n - Pow2(k)
  {
    if Pow2(k) >= n then k else LeastOrder(n, k + 1)
  }

  function OrderFor(size: nat): nat { LeastOrder(PagesNeeded(size), 0) }

  /** The block returned is large enough exactly when rounding the size up does not wrap. */
  lemma BlockCovers(size: nat)
    requires 0 < size < TWO32
    ensures Pow2(OrderFor(size)) * PAGE_SIZE >= size <==> size + PAGE_SIZE - 1 < TWO32
  {
    if size + PAGE_SIZE - 1 >= TWO32 {
      assert PagesNeeded(size) == 0;
    }
  }

  /** The order of the block for a size: the least whose block covers it, or 0 if rounding wraps. */
  lemma OrderIs(size: nat, k: nat)
    requires 0 < size < 0x1_0000_0000
    ensures OrderFor(size) <= k <==> size <= 4096 * Pow2(k) || size > 0xFFFF_F000
  {
    var n := PagesNeeded(size);
    if size <= 0xFFFF_F000 {
      assert n == (size + 4095) / 4096;
      assert n <= Pow2(k) <==> size <= 4096 * Pow2(k);
    } else {
      assert n == 0;
    }
    if OrderFor(size) <= k { Pow2Mono(OrderFor(size), k); }
  }

  /** Half of the block would not hold the size. */
  lemma TightFit(size: nat)
    requires 0 < size < 0x1_0000_0000 && OrderFor(size) > 0
    ensures Pow2(OrderFor(size) - 1) * 4096 < size
  {
    OrderIs(size, OrderFor(size) - 1);
    OrderIs(size, OrderFor(size));
  }

  lemma OrderNumbers(size: nat)
    requires 0 < size < TWO32
    ensures OrderFor(size) > MAX_ORDER <==> 0x400_0000 < size <= 0xFFFF_F000
    ensures size <= 0xFFFF_F000 ==> size <= Pow2(OrderFor(size)) * 4096
    ensures OrderFor(size) > 0 ==> Pow2(OrderFor(size) - 1) * 4096 < size
  {
    OrderIs(size, MAX_ORDER);
    OrderIs(size, OrderFor(size));
    if OrderFor(size) > 0 { TightFit(size); }
    assert Pow2(14) == 16384;
  }

  /** A size whose rounding wraps: it gets a single page. */
  lemma WrappedSize()
    ensures OrderFor(0xFFFF_F001) == 0 && Pow2(OrderFor(0xFFFF_F001)) * PAGE_SIZE < 0xFFFF_F001
  {
  }

  lemma UsableIs(d: Descriptor)
    ensures Usable(d) <==> d.kind == 7 && d.pages >= 2
  {
    MetaNumbers(d.pages);
  }

  predicate Increasing(at: seq<nat>) { forall j, k :: 0 <= j < k < |at| ==> at[j] < at[k] }

  predicate Conventional(d: Descriptor) { d.kind == 7 && d.pages >= 2 }

  /** `u` holds the usable descriptors of `mmap`, each once and in its order; `at` says where they stand. */
  predicate UsableAt(mmap: seq<Descriptor>, u: seq<Descriptor>, at: seq<nat>) {
    && |at| == |u| && Increasing(at)
    && (forall k :: 0 <= k < |at| ==> at[k] < |mmap| && u[k] == mmap[at[k]])
    && (forall i: nat :: i < |mmap| ==> (Conventional(mmap[i]) <==> i in at))
  }

  lemma {:induction false} UsableInOrder(mmap: seq<Descriptor>) returns (at: seq<nat>)
    ensures UsableAt(mmap, UsableOf(mmap), at)
  {
    hide UsableAt, Usable;
    if mmap == [] {
      at := [];
      NoneAt();
    } else {
      var n := |mmap| - 1;
      var before := UsableInOrder(mmap[..n]);
      UsableIs(mmap[n]);
      OneMoreAt(mmap[..n], UsableOf(mmap[..n]), before, mmap[n]);
      assert mmap == mmap[..n] + [mmap[n]];
      at := if Usable(mmap[n]) then before + [n] else before;
      assert UsableOf(mmap[..n]) + [] == UsableOf(mmap[..n]);
    }
  }

  lemma NoneAt()
    ensures UsableAt([], [], [])
  {
  }

  lemma OneMoreAt(mmap: seq<Descriptor>, u: seq<Descriptor>, at: seq<nat>, d: Descriptor)
    requires UsableAt(mmap, u, at)
    ensures Conventional(d) ==> UsableAt(mmap + [d], u + [d], at + [|mmap|])
    ensures !Conventional(d) ==> UsableAt(mmap + [d], u, at)
  {
    hide Conventional;
    var n := |mmap|;
    OneMoreIndex(at, n);
    forall i: nat | i < n + 1
      ensures Conventional(d) ==> (Conventional((mmap + [d])[i]) <==> i in at + [n])
      ensures !Conventional(d) ==> (Conventional((mmap + [d])[i]) <==> i in at)
    {
      assert i < n ==> (mmap + [d])[i] == mmap[i];
    }
  }

  lemma OneMoreIndex(at: seq<nat>, n: nat)
    requires Increasing(at) && forall k :: 0 <= k < |at| ==> at[k] < n
    ensures Increasing(at + [n]) && n !in at && forall i: nat :: i in at + [n] <==> i in at || i == n
  {
  }

  /** The bytes that init can hand out: all but those of the pages that hold the page_order bytes. */
  function InitialBytes(u: seq<Descriptor>): nat {
    if u == [] then 0
    else
      var d := u[|u| - 1];
      InitialBytes(u[..|u| - 1]) + if d.pages >= 2 then 4096 * (d.pages - (d.pages + 4095) / 4096) else 0
  }

  lemma NothingUsable(mmap: seq<Descriptor>)
    ensures UsableOf(mmap[..0]) == [] && InitialBytes([]) == 0
  {
  }

  lemma MoreBytes(u: seq<Descriptor>, d: Descriptor)
    requires Usable(d)
    ensures InitialBytes(u + [d]) == InitialBytes(u) + 4096 * (d.pages - (d.pages + 4095) / 4096)
  {
    UsableIs(d);
    assert (u + [d])[..|u|] == u;
  }

  lemma DirectMap(x: nat)
    requires x < 0x1_0000_0000_0000_0000
    ensures VirtToPhys(PhysToVirt(x)) == x == PhysToVirt(VirtToPhys(x)) && PhysToVirt(0) == 0xffff_8880_0000_0000
  {
  }

  lemma {:induction false} UsableFrom(mmap: seq<Descriptor>, k: nat) returns (j: nat)
    requires k < |UsableOf(mmap)|
    ensures j < |mmap| && Usable(mmap[j]) && UsableOf(mmap)[k] == mmap[j]
  {
    var n := |mmap| - 1;
    if k < |UsableOf(mmap[..n])| { j := UsableFrom(mmap[..n], k); } else { j := n; }
  }

  lemma {:induction false} UsablePrefix(mmap: seq<Descriptor>, i: nat)
    requires i <= |mmap|
    ensures UsableOf(mmap[..i]) <= UsableOf(mmap)
  {
    var n := |mmap| - 1;
    if i == |mmap| {
      assert mmap[..i] == mmap;
    } else {
      UsablePrefix(mmap[..n], i);
      assert mmap[..n][..i] == mmap[..i];
    }
  }

  predicate DirectMapped(d: Descriptor) {
    && d.pages < TWO32 && PhysToVirt(d.addr) == d.addr + DIRECT_MAP_BASE
    && d.addr + DIRECT_MAP_BASE + d.pages * PAGE_SIZE <= TWO64
  }

  lemma UsableFacts(mmap: seq<Descriptor>, i: nat)
    requires SaneMap(mmap) && i < |mmap| && Usable(mmap[i])
    ensures DirectMapped(mmap[i])
    ensures forall k :: 0 <= k < |UsableOf(mmap[..i])| ==>
      DirectMapped(UsableOf(mmap[..i])[k]) && DisjointMemory(UsableOf(mmap[..i])[k], mmap[i])
  {
    assert mmap[i].pages > 0;
    forall k | 0 <= k < |UsableOf(mmap[..i])|
      ensures DirectMapped(UsableOf(mmap[..i])[k]) && DisjointMemory(UsableOf(mmap[..i])[k], mmap[i])
    {
      var j := UsableFrom(mmap[..i], k);
      assert mmap[..i][j] == mmap[j];
    }
  }

  function SumFree(layouts: seq<Layout>): nat {
    if layouts == [] then 0 else SumFree(layouts[..|layouts| - 1]) + FreePages(layouts[|layouts| - 1])
  }

  lemma SumAppend(layouts: seq<Layout>, b: Layout)
    ensures SumFree(layouts + [b]) == SumFree(layouts) + FreePages(b)
  {
    assert (layouts + [b])[..|layouts|] == layouts;
  }

  lemma {:induction false} SumUpdate(layouts: seq<Layout>, r: nat, b: Layout)
    requires r < |layouts|
    ensures SumFree(layouts[r := b]) == SumFree(layouts) - FreePages(layouts[r]) + FreePages(b)
  {
    var n := |layouts| - 1;
    if r < n {
      SumUpdate(layouts[..n], r, b);
      assert layouts[r := b][..n] == layouts[..n][r := b];
    } else {
      assert layouts[r := b][..n] == layouts[..n];
    }
  }

  /** `ptr` lies in page `page` of a region that starts at `start`. */
  predicate InPage(start: nat, page: nat, ptr: nat) {
    start + page * PAGE_SIZE <= ptr < start + (page + 1) * PAGE_SIZE
  }

  predicate InRegion(start: nat, total: nat, ptr: nat) { start <= ptr < start + total * PAGE_SIZE }

  predicate NowhereAsLarge(layouts: seq<Layout>, k: nat) {
    forall i :: 0 <= i < |layouts| ==> NoneAsLarge(layouts[i], k)
  }

  lemma InitialKept(d: Layout, b: Layout, c: Layout, h: nat, k: nat)
    requires InitialFor(d, b) && (Allocated(b, c, h, k) || Allocated(c, b, h, k))
    ensures InitialFor(d, c)
  {
  }

  class BuddyAllocator {
    var regions: seq<Region>
    var freeMemory: nat
    ghost var layouts: seq<Layout>
    ghost var initial: seq<Layout>
    ghost var repr: set<object>   // the regions and their arrays

    ghost predicate Placed(r: Region) {
      r.start >= DIRECT_MAP_BASE && r.start + r.total * PAGE_SIZE <= TWO64 && r.total < TWO32
    }

    ghost predicate Apart(r: Region, s: Region) {
      && r.own !! s.own && r != s
      && (r.start + r.total * PAGE_SIZE <= s.start || s.start + s.total * PAGE_SIZE <= r.start)
    }

    ghost predicate Valid()
      reads this, repr
    {
      && |regions| <= MAX_REGIONS && |layouts| == |initial| == |regions|
      && this !in repr && (forall i :: 0 <= i < |regions| ==> regions[i] in repr && regions[i].own <= repr)
      && (forall i :: 0 <= i < |regions| ==> regions[i].Valid() && regions[i].layout == layouts[i])
      && (forall i :: 0 <= i < |regions| ==> Placed(regions[i]) && regions[i] in regions[i].own)
      && (forall i, j :: 0 <= i < |regions| && 0 <= j < |regions| && i != j ==> Apart(regions[i], regions[j]))
      && (forall i :: 0 <= i < |regions| ==> InitialFor(initial[i], layouts[i]))
      && freeMemory == PAGE_SIZE * SumFree(layouts)
    }

    constructor ()
      ensures Valid() && regions == [] && repr == {}
    {
      regions, layouts, initial, repr := [], [], [], {};
      freeMemory := 0;
    }

    static method MakeRegion(d: Descriptor) returns (region: Region, bytes: nat)
      requires Usable(d)
      ensures region.Valid() && fresh(region.own) && region in region.own && InitialFor(region.layout, region.layout)
      ensures region.start == PhysToVirt(d.addr) && region.total == d.pages
      ensures bytes == PAGE_SIZE * FreePages(region.layout) == 4096 * (d.pages - (d.pages + 4095) / 4096)
    {
      hide Region.Valid, Region.Ok, InitialFor, FreePages, Raw;
      region := new Region(PhysToVirt(d.addr), d.pages);
      bytes := region.Divide();
    }

    /** One usable descriptor becomes the next region. */
    method AddRegion(d: Descriptor)
      requires Valid() && |regions| < MAX_REGIONS && Usable(d) && DirectMapped(d)
      requires forall i :: 0 <= i < |regions| ==> Clear(regions[i], d)
      modifies this
      ensures Valid() && |regions| == |old(regions)| + 1 && regions[..|old(regions)|] == old(regions)
      ensures var r := regions[|old(regions)|]; fresh(r.own) && r.start == PhysToVirt(d.addr) && r.total == d.pages
      ensures old(layouts) == old(initial) ==> layouts == initial
      ensures freeMemory == old(freeMemory) + 4096 * (d.pages - (d.pages + 4095) / 4096)
      ensures fresh(repr - old(repr))
    {
      hide Region.Valid, InitialFor, SumFree, FreePages, Usable;
      var region, bytes := MakeRegion(d);
      assert region.own !! repr;
      ghost var b := region.layout;
      SumAppend(layouts, b);
      freeMemory := freeMemory + bytes;
      regions := regions + [region];
      layouts := layouts + [b];
      initial := initial + [b];
      repr := repr + region.own;
    }

    ghost predicate Clear(r: Region, d: Descriptor) {
      var start := d.addr + DIRECT_MAP_BASE;
      r.start + r.total * PAGE_SIZE <= start || start + d.pages * PAGE_SIZE <= r.start
    }

    ghost predicate Built(u: seq<Descriptor>)
      reads this
    {
      && |regions| == |u|
      && forall k :: 0 <= k < |u| ==> regions[k].start == PhysToVirt(u[k].addr) && regions[k].total == u[k].pages
    }

    lemma AllClear(u: seq<Descriptor>, d: Descriptor)
      requires Built(u) && DirectMapped(d)
      requires forall k :: 0 <= k < |u| ==> DirectMapped(u[k]) && DisjointMemory(u[k], d)
      ensures forall i :: 0 <= i < |regions| ==> Clear(regions[i], d)
    {
      forall i | 0 <= i < |regions| ensures Clear(regions[i], d) {
        assert DirectMapped(u[i]);
      }
    }

    /** What init has built from the usable descriptors `u`. */
    ghost predicate Fresh(u: seq<Descriptor>)
      reads this, repr
    {
      Valid() && layouts == initial && Built(u) && freeMemory == InitialBytes(u)
    }

    /** init, one usable descriptor. */
    method AddUsable(mmap: seq<Descriptor>, i: nat)
      requires SaneMap(mmap) && i < |mmap| && Usable(mmap[i]) && |regions| < MAX_REGIONS
      requires Fresh(UsableOf(mmap[..i]))
      modifies this
      ensures Fresh(UsableOf(mmap[..i]) + [mmap[i]]) && fresh(repr - old(repr))
    {
      hide Region.Valid, InitialFor, SaneMap, DirectMapped, DisjointMemory, InitialBytes, Usable, UsableOf, SumFree;
      ghost var u, rs := UsableOf(mmap[..i]), regions;
      MoreBytes(u, mmap[i]);
      UsableFacts(mmap, i);
      AllClear(u, mmap[i]);
      AddRegion(mmap[i]);
      assert forall k :: 0 <= k < |rs| ==> regions[k] == rs[k];
    }

    /** init: the first MAX_REGIONS usable descriptors become regions, wholly free. */
    method Init(mmap: seq<Descriptor>)
      requires SaneMap(mmap)
      modifies this
      ensures Valid() && layouts == initial
      ensures fresh(repr)
      ensures Built(UsableOf(mmap)[..Min(MAX_REGIONS, |UsableOf(mmap)|)])
      ensures |regions| == if |UsableOf(mmap)| < 32 then |UsableOf(mmap)| else 32
      ensures freeMemory == InitialBytes(UsableOf(mmap)[..|regions|])
    {
      hide Region.Valid, InitialFor, SaneMap, DirectMapped, DisjointMemory, Usable, UsableOf, InitialBytes;
      regions, layouts, initial, repr := [], [], [], {};
      freeMemory := 0;
      var i := 0;
      NothingUsable(mmap);
      while i < |mmap| && |regions| < MAX_REGIONS
        invariant 0 <= i <= |mmap| && Fresh(UsableOf(mmap[..i])) && fresh(repr)
      {
        var d := mmap[i];
        UsableNext(mmap, i);
        i := i + 1;
        if !Usable(d) {
          continue;
        }
        AddUsable(mmap, i - 1);
      }
      UsablePrefix(mmap, i);
      assert UsableOf(mmap[..i]) == UsableOf(mmap)[..|regions|];
      if i == |mmap| { assert mmap[..i] == mmap; }
    }

    method FindRegionByPhys(phys: nat) returns (r: int, page: nat)
      requires Valid()
      ensures r == NIL || 0 <= r < |regions|
      ensures r != NIL ==> page < regions[r].total && InPage(regions[r].start, page, phys + DIRECT_MAP_BASE)
      ensures r == NIL ==> forall i :: 0 <= i < |regions| ==> !InRegion(regions[i].start, regions[i].total, phys + DIRECT_MAP_BASE)
    {
      r := 0;
      while r < |regions|
        invariant 0 <= r <= |regions|
        invariant forall i :: 0 <= i < r ==> !InRegion(regions[i].start, regions[i].total, phys + DIRECT_MAP_BASE)
      {
        assert Placed(regions[r]);
        var startPhys := VirtToPhys(regions[r].start);
        var endPhys := startPhys + regions[r].total * PAGE_SIZE;
        if !(phys < startPhys || phys >= endPhys) {
          page := (phys - startPhys) / PAGE_SIZE;
          return;
        }
        r := r + 1;
      }
      return NIL, 0;
    }

    /** The accounting around an operation on region `i`. */
    ghost predicate Untouched(i: nat, other: seq<Layout>)
      reads this
    {
      |other| == |layouts| && i < |layouts| && layouts == other[i := layouts[i]]
    }

    /** malloc in region `i`. */
    method AllocIn(i: nat, order: nat) returns (page: int)
      requires Valid() && i < |regions| && order <= MAX_ORDER
      modifies this`freeMemory, this`layouts, regions[i].own
      ensures Valid() && Untouched(i, old(layouts))
      ensures page == NIL <==> NoneAsLarge(old(layouts)[i], order)
      ensures page == NIL ==> layouts == old(layouts) && freeMemory == old(freeMemory)
      ensures page != NIL ==> 0 <= page && Allocated(old(layouts)[i], layouts[i], page, order)
      ensures page != NIL ==> SmallestFit(old(layouts)[i], page, order)
      ensures page != NIL ==> freeMemory == old(freeMemory) - Pow2(order) * PAGE_SIZE
    {
      hide Region.Valid, InitialFor, Allocated, NoneAsLarge, SumFree, FreePages;
      ghost var b, L := layouts[i], layouts;
      assert regions[i].Valid() && regions[i].layout == b;
      assert forall j :: 0 <= j < |regions| && j != i ==> Apart(regions[i], regions[j]);
      page := regions[i].Alloc(order);
      ghost var c := regions[i].layout;
      layouts := L[i := c];
      SumUpdate(L, i, c);
      if page == NIL {
        assert layouts == L;
      } else {
        AllocatedCount(b, c, page, order);
        InitialKept(initial[i], b, c, page, order);
        freeMemory := freeMemory - Pow2(order) * PAGE_SIZE;
      }
    }

    /** malloc: `r` and `h` name the region and the first page of the block. */
    method Malloc(size: nat) returns (ptr: nat, ghost r: nat, ghost h: nat)
      requires Valid() && size < TWO32
      modifies this`freeMemory, this`layouts, repr
      ensures Valid()
      ensures ptr == 0 <==>
        size == 0 || 0x400_0000 < size <= 0xFFFF_F000 || NowhereAsLarge(old(layouts), OrderFor(size))
      ensures ptr == 0 ==> layouts == old(layouts) && freeMemory == old(freeMemory)
      ensures ptr != 0 ==>
        && Untouched(r, old(layouts)) && ptr == regions[r].start + h * PAGE_SIZE
        && NowhereAsLarge(old(layouts)[..r], OrderFor(size))
        && Allocated(old(layouts)[r], layouts[r], h, OrderFor(size))
        && SmallestFit(old(layouts)[r], h, OrderFor(size))
        && freeMemory == old(freeMemory) - Pow2(OrderFor(size)) * PAGE_SIZE
      ensures ptr != 0 && size <= 0xFFFF_F000 ==> size <= Pow2(OrderFor(size)) * 4096
      ensures ptr != 0 && OrderFor(size) > 0 ==> Pow2(OrderFor(size) - 1) * 4096 < size
    {
      hide Region.Valid, SmallestFit, WellLaid, NoBuddies, Allocated, InitialFor, NoneAsLarge;
      r, h := 0, 0;
      if size == 0 {
        return 0, 0, 0;
      }
      var pagesNeeded := (size + PAGE_SIZE - 1) % TWO32 / PAGE_SIZE;
      OrderNumbers(size);
      var order := 0;
      while Pow2(order) < pagesNeeded
        invariant LeastOrder(pagesNeeded, order) == OrderFor(size)
        decreases pagesNeeded - Pow2(order)
      {
        order := order + 1;
      }
      if order > MAX_ORDER {
        return 0, 0, 0;
      }
      var i := 0;
      while i < |regions|
        invariant 0 <= i <= |regions| && Valid() && layouts == old(layouts) && freeMemory == old(freeMemory)
        invariant NowhereAsLarge(layouts[..i], order)
      {
        ghost var L := layouts;
        var page := AllocIn(i, order);
        if page != NIL {
          assert Placed(regions[i]);
          return regions[i].start + page * PAGE_SIZE, i, page;
        }
        assert L[..i + 1] == L[..i] + [L[i]];
        i := i + 1;
      }
      assert layouts[..i] == layouts;
      return 0, 0, 0;
    }

    lemma SameTotal(i: nat)
      requires Valid() && i < |regions|
      ensures |layouts[i]| == regions[i].total
    {
      assert regions[i].Valid();
    }

    /** Only one page of one region holds a pointer. */
    lemma OnePage(i: nat, p: nat, j: nat, q: nat, ptr: nat)
      requires Valid() && i < |regions| && j < |regions| && p < regions[i].total && q < regions[j].total
      requires InPage(regions[i].start, p, ptr)
      ensures InPage(regions[j].start, q, ptr) ==> i == j && p == q
    {
      hide Region.Valid, InitialFor, SumFree;
      if i != j { assert Apart(regions[i], regions[j]); }
    }

    /** A pointer in no region is in no page. */
    lemma NoPage(ptr: nat)
      requires Valid() && ptr < TWO64
      requires ptr == 0 || forall i :: 0 <= i < |regions| ==> !InRegion(regions[i].start, regions[i].total, VirtToPhys(ptr) + DIRECT_MAP_BASE)
      ensures forall i, p :: 0 <= i < |regions| && 0 <= p < |layouts[i]| ==> !InPage(regions[i].start, p, ptr)
    {
      hide Region.Valid, InitialFor, SumFree;
      forall i, p | 0 <= i < |regions| && 0 <= p < |layouts[i]| ensures !InPage(regions[i].start, p, ptr) {
        SameTotal(i);
        assert Placed(regions[i]);
      }
    }

    /** free in region `i`. */
    method ReleaseIn(i: nat, page: nat) returns (freed: bool)
      requires Valid() && i < |regions| && page < regions[i].total
      modifies this`freeMemory, this`layouts, regions[i].own
      ensures Valid() && Untouched(i, old(layouts))
      ensures page < |old(layouts)[i]|
      ensures freed <==> old(layouts)[i][page].kind == Live && old(layouts)[i][page].head == page
      ensures !freed ==> layouts == old(layouts) && freeMemory == old(freeMemory)
      ensures freed ==> Allocated(layouts[i], old(layouts)[i], page, old(layouts)[i][page].order)
      ensures freed ==> freeMemory == old(freeMemory) + Pow2(old(layouts)[i][page].order) * PAGE_SIZE
    {
      hide Region.Valid, InitialFor, Allocated, SumFree, FreePages;
      SameTotal(i);
      ghost var b, L := layouts[i], layouts;
      assert forall j :: 0 <= j < |regions| && j != i ==> Apart(regions[i], regions[j]);
      var order;
      freed, order := regions[i].Release(page);
      ghost var c := regions[i].layout;
      layouts := L[i := c];
      SumUpdate(L, i, c);
      if freed {
        AllocatedCount(c, b, page, order);
        InitialKept(initial[i], b, c, page, order);
        freeMemory := freeMemory + Pow2(order) * PAGE_SIZE;
      } else {
        assert layouts == L;
      }
    }

    /** free: the live block whose first page holds `ptr` becomes free again; any other
        pointer changes nothing. */
    method Free(ptr: nat) returns (ghost freed: bool, ghost r: nat, ghost page: nat)
      requires Valid() && ptr < TWO64
      modifies this`freeMemory, this`layouts, repr
      ensures Valid()
      ensures freed ==>
        && Untouched(r, old(layouts)) && page < |old(layouts)[r]| && InPage(regions[r].start, page, ptr)
        && old(layouts)[r][page].kind == Live && old(layouts)[r][page].head == page
        && Allocated(layouts[r], old(layouts)[r], page, old(layouts)[r][page].order)
        && freeMemory == old(freeMemory) + Pow2(old(layouts)[r][page].order) * PAGE_SIZE
      ensures !freed ==>
        && layouts == old(layouts) && freeMemory == old(freeMemory)
        && forall i, p :: 0 <= i < |regions| && 0 <= p < |layouts[i]| && layouts[i][p].kind == Live && layouts[i][p].head == p
             ==> !InPage(regions[i].start, p, ptr)
    {
      hide Region.Valid, InitialFor, Allocated, SumFree;
      freed, r, page := false, 0, 0;
      if ptr == 0 {
        NoPage(ptr);
        return;
      }
      var i, p := FindRegionByPhys(VirtToPhys(ptr));
      if i == NIL {
        NoPage(ptr);
        return;
      }
      assert Placed(regions[i]);
      var done := ReleaseIn(i, p);
      if !done {
        forall j, q | 0 <= j < |regions| && 0 <= q < |layouts[j]| && layouts[j][q].kind == Live && layouts[j][q].head == q
          ensures !InPage(regions[j].start, q, ptr)
        {
          SameTotal(j);
          OnePage(i, p, j, q, ptr);
        }
      }
      freed, r, page := done, i, p;
    }

    /** However it got here, an allocator with nothing allocated is divided as init divided it. */
    lemma AllFreed()
      requires Valid()
      requires forall i, p :: 0 <= i < |layouts| && 0 <= p < |layouts[i]| ==> layouts[i][p].kind != Live
      ensures layouts == initial
    {
      forall i | 0 <= i < |layouts| ensures layouts[i] == initial[i] {
        assert regions[i].Valid();
        LayoutDetermined(initial[i], layouts[i]);
      }
    }
  }
}
