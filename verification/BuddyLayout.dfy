/** How the pages of one memory region of src/kernel/BuddyAllocator.cpp are divided into
    blocks, and what the page_order bytes and the free lists say about the division. */
module BuddyLayout {
  import opened Powers

  const MAX_ORDER := 14
  const PAGE_SIZE := 4096
  const NIL := -1

  /** Taken: a block that an operation has unlinked and not yet handed on. */
  datatype Kind = Meta | Free | Live | Taken

  datatype Block = Block(head: nat, order: nat, kind: Kind)

  /** For every page of the region, the block it lies in. */
  type Layout = seq<Block>

  predicate Holds(B: Block, p: int) { B.head <= p < B.head + Pow2(B.order) }

  /** The block of page `p` is aligned to its size, inside the region, and it is the
      block of every page it covers. */
  predicate BlockOk(b: Layout, p: nat)
    requires p < |b|
  {
    var B := b[p];
    && B.order <= MAX_ORDER && Aligned(B.head, B.order)
    && Holds(B, p) && B.head + Pow2(B.order) <= |b|
    && forall q :: 0 <= q < |b| && Holds(B, q) ==> b[q] == B
  }

  predicate WellLaid(b: Layout) { forall p :: 0 <= p < |b| ==> BlockOk(b, p) }

  /** Two blocks of a layout are the same or share no page. */
  lemma Partition(b: Layout, p: nat, q: nat, x: nat)
    requires WellLaid(b) && p < |b| && q < |b| && Holds(b[p], x) && Holds(b[q], x)
    ensures x < |b| && b[p] == b[q] == b[x]
  {
    assert BlockOk(b, p) && BlockOk(b, q);
  }

  /** getBuddyPage */
  function Buddy(p: nat, k: nat): nat { FlipBit(p, k) }

  function Min(x: nat, y: nat): nat { if x < y then x else y }

  function Paint(b: Layout, h: nat, n: nat, B: Block): (b': Layout)
    ensures |b'| == |b|
    ensures forall i :: 0 <= i < |b| ==> b'[i] == if h <= i < h + n then B else b[i]
  {
    seq(|b|, i requires 0 <= i < |b| => if h <= i < h + n then B else b[i])
  }

  /** The block at `h` changes hands. */
  function SetKind(b: Layout, h: nat, kind: Kind): (b': Layout)
    requires h < |b|
    ensures |b'| == |b|
  {
    Paint(b, h, Pow2(b[h].order), Block(h, b[h].order, kind))
  }

  /** The lower and the upper half of a block. */
  function Lower(B: Block): Block
    requires B.order > 0
  {
    Block(B.head, B.order - 1, B.kind)
  }

  function Upper(B: Block): Block
    requires B.order > 0
  {
    Block(B.head + Pow2(B.order - 1), B.order - 1, B.kind)
  }

  /** The block at `h` is cut into its two halves. */
  function SplitAt(b: Layout, h: nat): (b': Layout)
    requires h < |b| && b[h].order > 0
    ensures |b'| == |b|
    ensures forall i :: 0 <= i < |b| ==>
      b'[i] == if Holds(Lower(b[h]), i) then Lower(b[h]) else if Holds(Upper(b[h]), i) then Upper(b[h]) else b[i]
  {
    var B := b[h];
    seq(|b|, i requires 0 <= i < |b| => if Holds(Lower(B), i) then Lower(B) else if Holds(Upper(B), i) then Upper(B) else b[i])
  }

  /** The block at `h` and its buddy become one. */
  function MergeAt(b: Layout, h: nat): (b': Layout)
    requires h < |b|
    ensures |b'| == |b|
  {
    var k := b[h].order;
    var m := Min(h, Buddy(h, k));
    Paint(b, m, Pow2(k + 1), Block(m, k + 1, b[h].kind))
  }

  /** Whole blocks may be painted over with one aligned block of the same extent. */
  lemma PaintLaid(b: Layout, h: nat, k: nat, kind: Kind)
    requires WellLaid(b) && k <= MAX_ORDER && Aligned(h, k) && h + Pow2(k) <= |b|
    requires forall p :: h <= p < h + Pow2(k) ==> h <= b[p].head && b[p].head + Pow2(b[p].order) <= h + Pow2(k)
    ensures WellLaid(Paint(b, h, Pow2(k), Block(h, k, kind)))
  {
    var b' := Paint(b, h, Pow2(k), Block(h, k, kind));
    forall p | 0 <= p < |b| ensures BlockOk(b', p) {
      assert BlockOk(b, p);
      if !(h <= p < h + Pow2(k)) {
        var B := b[p];
        forall q | 0 <= q < |b| && Holds(B, q) ensures b'[q] == B {
          assert b[q] == B;
        }
      }
    }
  }

  lemma SetKindLaid(b: Layout, h: nat, kind: Kind)
    requires WellLaid(b) && h < |b| && b[h].head == h
    ensures WellLaid(SetKind(b, h, kind))
  {
    assert BlockOk(b, h);
    PaintLaid(b, h, b[h].order, kind);
  }

  lemma SplitBlockOk(b: Layout, h: nat, p: nat)
    requires h < |b| && p < |b| && BlockOk(b, h) && BlockOk(b, p)
    requires b[h].head == h && b[h].order > 0
    ensures BlockOk(SplitAt(b, h), p)
  {
    var k := b[h].order - 1;
    var lo, hi, c := Lower(b[h]), Upper(b[h]), SplitAt(b, h);
    assert Pow2(b[h].order) == 2 * Pow2(k);
    HalvesAligned(h, k);
    if Holds(lo, p) {
      assert c[p] == lo;
    } else if Holds(hi, p) {
      assert c[p] == hi;
      assert forall q :: 0 <= q < |b| && Holds(hi, q) ==> c[q] == hi;
    } else {
      assert c[p] == b[p];
      forall q | 0 <= q < |b| && Holds(b[p], q) ensures c[q] == b[p] {
        assert b[q] == b[p];
      }
    }
  }

  lemma SplitLaid(b: Layout, h: nat)
    requires WellLaid(b) && h < |b| && b[h].head == h && b[h].order > 0
    ensures WellLaid(SplitAt(b, h))
  {
    forall p | 0 <= p < |b| ensures BlockOk(SplitAt(b, h), p) {
      assert BlockOk(b, h) && BlockOk(b, p);
      SplitBlockOk(b, h, p);
    }
  }

  lemma MergeLaid(b: Layout, h: nat)
    requires WellLaid(b) && h < |b| && b[h].head == h && b[h].order < MAX_ORDER
    requires var q := Buddy(h, b[h].order); q < |b| && b[q] == Block(q, b[h].order, b[h].kind)
    ensures WellLaid(MergeAt(b, h))
  {
    var k := b[h].order;
    var q := Buddy(h, k);
    assert BlockOk(b, h) && BlockOk(b, q);
    FlipFacts(h, k);
    PaintLaid(b, Min(h, q), k + 1, b[h].kind);
  }

  // ---- What page_order says ----

  /** A byte that does not mark an allocated block. */
  predicate Stale(e: int) { e == 0xFF || 0 <= e <= MAX_ORDER }

  predicate ByteOk(e: int, B: Block, p: nat) {
    if B.head != p then Stale(e)
    else match B.kind
      case Meta => e == 0xFF
      case Free => e == B.order
      case Live => e == B.order + 0x80
      case Taken => Stale(e)
  }

  predicate BytesOk(order: seq<int>, b: Layout) {
    |order| == |b| && forall p :: 0 <= p < |b| ==> ByteOk(order[p], b[p], p)
  }

  /** The block at `h` changes hands and its byte is rewritten to match. */
  lemma BytesSet(order: seq<int>, b: Layout, h: nat, kind: Kind, v: int)
    requires BytesOk(order, b) && WellLaid(b) && h < |b| && b[h].head == h
    requires ByteOk(v, Block(h, b[h].order, kind), h)
    ensures BytesOk(order[h := v], SetKind(b, h, kind))
  {
    var c := SetKind(b, h, kind);
    assert BlockOk(b, h);
    forall p | 0 <= p < |c| ensures ByteOk(order[h := v][p], c[p], p) {
      assert ByteOk(order[p], b[p], p);
      assert Holds(b[h], p) ==> b[p] == b[h];
    }
  }

  /** The byte of a free block is stale enough for the block to be taken. */
  lemma BytesTaken(order: seq<int>, b: Layout, h: nat)
    requires BytesOk(order, b) && WellLaid(b) && h < |b| && b[h].head == h && b[h].kind == Free
    ensures BytesOk(order, SetKind(b, h, Taken))
  {
    assert BlockOk(b, h) && ByteOk(order[h], b[h], h);
    BytesSet(order, b, h, Taken, order[h]);
    assert order[h := order[h]] == order;
  }

  lemma SplitTakenOnly(b: Layout, h: nat)
    requires WellLaid(b) && h < |b| && b[h].head == h && b[h].kind == Taken && b[h].order > 0
    ensures forall p :: 0 <= p < |b| ==> SplitAt(b, h)[p] == b[p] || (b[p] == b[h] && SplitAt(b, h)[p].kind == Taken)
  {
    var lo, hi := Lower(b[h]), Upper(b[h]);
    assert BlockOk(b, h);
    assert Pow2(b[h].order) == 2 * Pow2(b[h].order - 1);
    forall p | 0 <= p < |b|
      ensures SplitAt(b, h)[p] == b[p] || (b[p] == b[h] && SplitAt(b, h)[p].kind == Taken)
    {
      if Holds(lo, p) || Holds(hi, p) { assert Holds(b[h], p); }
    }
  }

  /** Cutting a taken block changes no byte that matters. */
  lemma BytesSplit(order: seq<int>, b: Layout, h: nat)
    requires BytesOk(order, b) && WellLaid(b) && h < |b| && b[h].head == h && b[h].kind == Taken && b[h].order > 0
    ensures BytesOk(order, SplitAt(b, h))
  {
    SplitTakenOnly(b, h);
    hide SplitAt, WellLaid;
    forall p | 0 <= p < |b| ensures ByteOk(order[p], SplitAt(b, h)[p], p) {
      assert ByteOk(order[p], b[p], p);
    }
  }

  /** Joining two taken blocks changes no byte that matters. */
  lemma BytesMerged(order: seq<int>, b: Layout, h: nat)
    requires BytesOk(order, b) && WellLaid(b) && h < |b| && b[h].head == h && b[h].kind == Taken
    requires var q := Buddy(h, b[h].order); q < |b| && b[q] == Block(q, b[h].order, Taken)
    ensures BytesOk(order, MergeAt(b, h))
  {
    var k := b[h].order;
    var q := Buddy(h, k);
    assert BlockOk(b, h) && BlockOk(b, q);
    FlipFacts(h, k);
    forall p | 0 <= p < |b| ensures ByteOk(order[p], MergeAt(b, h)[p], p) {
      assert ByteOk(order[p], b[p], p);
      assert Holds(b[h], p) ==> b[p] == b[h];
      assert Holds(b[q], p) ==> b[p] == b[q];
    }
  }

  predicate NoneTaken(b: Layout) { forall p :: 0 <= p < |b| ==> b[p].kind != Taken }

  lemma MergedTaken(b: Layout, h: nat)
    requires WellLaid(b) && h < |b| && b[h].head == h && b[h].kind == Taken
    requires var q := Buddy(h, b[h].order); q < |b| && b[q] == Block(q, b[h].order, Taken)
    ensures forall p :: 0 <= p < |b| ==>
      MergeAt(b, h)[p] == b[p] || (b[p].kind == MergeAt(b, h)[p].kind == Taken)
  {
    assert BlockOk(b, h) && BlockOk(b, Buddy(h, b[h].order));
    FlipFacts(h, b[h].order);
    assert forall p :: 0 <= p < |b| && Holds(b[h], p) ==> b[p] == b[h];
    assert forall p :: 0 <= p < |b| && Holds(b[Buddy(h, b[h].order)], p) ==> b[p] == b[Buddy(h, b[h].order)];
  }

  predicate OnlyTaken(b: Layout, h: nat) {
    forall p :: 0 <= p < |b| && b[p].kind == Taken ==> b[p].head == h
  }

  /** The buddy of a block is always the head of a block no larger than it. */
  lemma BuddyHead(b: Layout, h: nat)
    requires WellLaid(b) && h < |b| && b[h].head == h
    requires var q := Buddy(h, b[h].order); q < |b|
    ensures var q := Buddy(h, b[h].order); b[q].head == q && b[q].order <= b[h].order
  {
    var k := b[h].order;
    var q := Buddy(h, k);
    var B := b[q];
    assert BlockOk(b, h) && BlockOk(b, q);
    FlipFacts(h, k);
    if B.order <= k {
      Nested(B.head, B.order, q, k, q);
      assert B.head == q;
    } else {
      var m := Min(h, q);
      Nested(m, k + 1, B.head, B.order, q);
      Partition(b, h, q, h);
      assert false;
    }
  }

  /** Stale bytes never mislead the merge test. */
  lemma MergeTest(order: seq<int>, b: Layout, h: nat)
    requires WellLaid(b) && BytesOk(order, b) && OnlyTaken(b, h)
    requires h < |b| && b[h].head == h && b[h].kind == Taken
    ensures var k, q := b[h].order, Buddy(h, b[h].order);
      && Aligned(Min(h, q), k + 1)
      && (q < |b| ==> (order[q] == k <==> b[q] == Block(q, k, Free)))
  {
    var k := b[h].order;
    var q := Buddy(h, k);
    assert BlockOk(b, h);
    FlipFacts(h, k);
    if q < |b| {
      BuddyHead(b, h);
      assert ByteOk(order[q], b[q], q);
    }
  }

  // ---- No two free buddies, and what follows ----

  predicate Mergeable(b: Layout, p: nat)
    requires p < |b|
  {
    var q := Buddy(b[p].head, b[p].order);
    b[p].kind == Free && b[p].order < MAX_ORDER && q < |b| && b[q] == Block(q, b[p].order, Free)
  }

  predicate NoBuddies(b: Layout) { forall p :: 0 <= p < |b| ==> !Mergeable(b, p) }

  predicate AllFree(b: Layout, h: nat, n: nat) {
    h + n <= |b| && forall p :: h <= p < h + n ==> b[p].kind == Free
  }

  lemma HalfMerges(b: Layout, here: nat, k: nat, p: nat)
    requires WellLaid(b) && k < MAX_ORDER && Aligned(here, k)
    requires here <= p < here + Pow2(k) && p < |b| && b[p].kind == Free && b[p].order == k
    requires Buddy(here, k) < |b| && b[Buddy(here, k)].kind == Free && b[Buddy(here, k)].order >= k
    ensures Mergeable(b, p)
  {
    assert BlockOk(b, p);
    SameBlock(b[p].head, here, k, p);
    assert b[here] == b[p];
    BuddyHead(b, here);
  }

  lemma HalvesFree(b: Layout, h: nat, k: nat) returns (hi: nat)
    requires Aligned(h, k + 1) && AllFree(b, h, Pow2(k + 1))
    ensures hi == h + Pow2(k) && Aligned(h, k) && Aligned(hi, k)
    ensures Buddy(h, k) == hi && Buddy(hi, k) == h
    ensures AllFree(b, h, Pow2(k)) && AllFree(b, hi, Pow2(k)) && hi + Pow2(k) == h + Pow2(k + 1)
  {
    HalvesAligned(h, k);
    FlipFacts(h, k);
    hi := h + Pow2(k);
  }

  /** Free pages that could form one block do: the block of each is at least as large. */
  lemma {:induction false} Coalesced(b: Layout, h: nat, k: nat, p: nat)
    requires WellLaid(b) && NoBuddies(b) && k <= MAX_ORDER && Aligned(h, k)
    requires AllFree(b, h, Pow2(k)) && h <= p < h + Pow2(k)
    ensures b[p].order >= k
    decreases k
  {
    if k > 0 {
      var hi := HalvesFree(b, h, k - 1);
      if p < hi {
        Coalesced(b, h, k - 1, p);
        Coalesced(b, hi, k - 1, hi);
        if b[p].order == k - 1 { HalfMerges(b, h, k - 1, p); }
      } else {
        Coalesced(b, hi, k - 1, p);
        Coalesced(b, h, k - 1, h);
        if b[p].order == k - 1 { HalfMerges(b, hi, k - 1, p); }
      }
    }
  }

  /** Which blocks are free is determined by which pages are: the history of splits and
      merges leaves no trace. */
  lemma LayoutDetermined(b: Layout, c: Layout)
    requires WellLaid(b) && WellLaid(c) && NoBuddies(b) && NoBuddies(c) && |b| == |c|
    requires forall p :: 0 <= p < |b| ==> (b[p].kind == Free <==> c[p].kind == Free)
    requires forall p :: 0 <= p < |b| && b[p].kind != Free ==> b[p] == c[p]
    ensures b == c
  {
    forall p | 0 <= p < |b| ensures b[p] == c[p] {
      if b[p].kind == Free {
        assert BlockOk(b, p) && BlockOk(c, p);
        Coalesced(c, b[p].head, b[p].order, p);
        Coalesced(b, c[p].head, c[p].order, p);
        SameBlock(b[p].head, c[p].head, b[p].order, p);
      }
    }
  }

  /** Blocks that stop being free create no free buddies. */
  lemma FewerFree(b: Layout, c: Layout)
    requires NoBuddies(b) && |b| == |c|
    requires forall p :: 0 <= p < |b| && c[p].kind == Free ==> c[p] == b[p]
    ensures NoBuddies(c)
  {
    forall p | 0 <= p < |c| ensures !Mergeable(c, p) {
      assert !Mergeable(b, p);
    }
  }

  /** A block whose buddy is not a free block of its order may become free. */
  lemma OneMoreFree(b: Layout, h: nat)
    requires WellLaid(b) && NoBuddies(b) && h < |b| && b[h].head == h && b[h].kind != Free
    requires var k := b[h].order; var q := Buddy(h, k); k < MAX_ORDER && q < |b| ==> b[q] != Block(q, k, Free)
    ensures NoBuddies(SetKind(b, h, Free))
  {
    hide Mergeable, SetKind, BlockOk, Buddy;
    forall p | 0 <= p < |b| ensures !Mergeable(SetKind(b, h, Free), p) {
      assert !Mergeable(b, p) && BlockOk(b, p) && BlockOk(b, h);
      NotMergeable(b, h, p);
    }
  }

  lemma NotMergeable(b: Layout, h: nat, p: nat)
    requires h < |b| && p < |b| && BlockOk(b, h) && BlockOk(b, p) && b[h].head == h && b[h].kind != Free
    requires var k := b[h].order; var q := Buddy(h, k); k < MAX_ORDER && q < |b| ==> b[q] != Block(q, k, Free)
    requires !Mergeable(b, p)
    ensures !Mergeable(SetKind(b, h, Free), p)
  {
    hide Aligned, FlipBit;
    var k, c := b[h].order, SetKind(b, h, Free);
    if Holds(b[h], p) {
      FlipFacts(h, k);
      assert c[p] == Block(h, k, Free);
    } else {
      assert c[p] == b[p];
      FlipFacts(b[p].head, b[p].order);
      var q := Buddy(b[p].head, b[p].order);
      if q < |b| && Holds(b[h], q) {
        assert c[q] == Block(h, k, Free) && b[b[p].head] == b[p];
      }
    }
  }

  /** A division in which every page outside the metadata is free. */
  predicate InitialFor(b: Layout, now: Layout) {
    && |b| == |now| && WellLaid(b) && NoBuddies(b)
    && forall p :: 0 <= p < |b| ==> if now[p].kind == Meta then b[p] == now[p] else b[p].kind == Free
  }

  // ---- Counting free pages ----

  function Range(h: nat, n: nat): (s: set<nat>)
    ensures forall i :: i in s <==> h <= i < h + n
  {
    if n == 0 then {} else Range(h, n - 1) + {h + n - 1}
  }

  lemma {:induction false} RangeSize(h: nat, n: nat)
    ensures |Range(h, n)| == n
  {
    if n > 0 { RangeSize(h, n - 1); }
  }

  function FreeSet(b: Layout): (s: set<nat>) { set p | 0 <= p < |b| && b[p].kind == Free }

  function FreePages(b: Layout): nat { |FreeSet(b)| }

  /** No free block of order `k` or more. */
  predicate NoneAsLarge(b: Layout, k: nat) {
    forall p :: 0 <= p < |b| && b[p].kind == Free ==> b[p].order < k
  }

  /** The free block that starts at `page` is as large as asked for, and no free block that is, is smaller. */
  predicate SmallestFit(b: Layout, page: nat, order: nat) {
    && page < |b| && b[page].kind == Free && b[page].head == page && b[page].order >= order
    && forall p :: 0 <= p < |b| && b[p].kind == Free && b[p].order >= order ==> b[page].order <= b[p].order
  }

  /** `c` is `b` with the free pages of the block at `h` made the live block at `h`. */
  predicate Allocated(b: Layout, c: Layout, h: nat, k: nat) {
    && |b| == |c| && h + Pow2(k) <= |b|
    && forall p :: 0 <= p < |b| ==>
        if h <= p < h + Pow2(k) then b[p].kind == Free && c[p] == Block(h, k, Live)
        else if b[p].kind == Free then c[p].kind == Free
        else c[p] == b[p]
  }

  /** `c` is `b` with some of its free blocks cut, joined or taken. */
  predicate CarvedFrom(b: Layout, c: Layout) {
    && |b| == |c|
    && forall p :: 0 <= p < |b| ==>
        if b[p].kind == Free then c[p].kind == Free || c[p].kind == Taken else c[p] == b[p]
  }

  /** Blocks that are neither free nor taken are the same in both. */
  predicate Widened(b: Layout, c: Layout) {
    && |b| == |c|
    && forall p :: 0 <= p < |b| ==>
        if b[p].kind == Free || b[p].kind == Taken then c[p].kind == Free || c[p].kind == Taken else c[p] == b[p]
  }

  lemma AllFreeCount(b: Layout, meta: nat)
    requires meta <= |b| && forall p :: 0 <= p < |b| ==> (b[p].kind == Free <==> meta <= p)
    ensures FreePages(b) == |b| - meta
  {
    assert FreeSet(b) == Range(meta, |b| - meta);
    RangeSize(meta, |b| - meta);
  }

  /** Freeing the taken block at `h`. */
  lemma FreedCount(b: Layout, h: nat)
    requires WellLaid(b) && h < |b| && b[h].head == h && b[h].kind == Taken
    ensures FreePages(SetKind(b, h, Free)) == FreePages(b) + Pow2(b[h].order)
  {
    var c, n := SetKind(b, h, Free), Pow2(b[h].order);
    assert BlockOk(b, h);
    forall p | h <= p < h + n ensures b[p] == b[h] {
      assert Holds(b[h], p);
    }
    assert FreeSet(c) == FreeSet(b) + Range(h, n);
    assert FreeSet(b) * Range(h, n) == {};
    RangeSize(h, n);
  }

  lemma AllocatedCount(b: Layout, c: Layout, h: nat, k: nat)
    requires Allocated(b, c, h, k)
    ensures FreePages(c) == FreePages(b) - Pow2(k)
  {
    assert FreeSet(b) == FreeSet(c) + Range(h, Pow2(k));
    assert FreeSet(c) * Range(h, Pow2(k)) == {};
    RangeSize(h, Pow2(k));
  }

  /** With no other taken block around, the pages of the taken block are the taken ones. */
  lemma TakenPages(c: Layout, h: nat)
    requires WellLaid(c) && OnlyTaken(c, h) && h < |c| && c[h].head == h && c[h].kind == Taken
    ensures h + Pow2(c[h].order) <= |c|
    ensures forall p :: 0 <= p < |c| ==> (c[p].kind == Taken <==> h <= p < h + Pow2(c[h].order))
  {
    assert BlockOk(c, h);
    forall p | 0 <= p < |c| ensures c[p].kind == Taken <==> h <= p < h + Pow2(c[h].order) {
      assert BlockOk(c, p);
      assert Holds(c[h], p) ==> c[p] == c[h];
      if c[p].kind == Taken { assert Holds(c[p], h); }
    }
  }

  lemma CutPlaces(c: Layout, h: nat)
    requires WellLaid(c) && h < |c| && c[h].head == h && c[h].order > 0
    ensures var k := c[h].order - 1; var u := h + Pow2(k);
      u + Pow2(k) <= |c| && Pow2(c[h].order) == 2 * Pow2(k) && Buddy(u, k) == h
  {
    var k := c[h].order - 1;
    assert BlockOk(c, h);
    HalvesAligned(h, k);
    FlipFacts(h, k);
  }

  /** Cutting the taken block at `h` and freeing its upper half. */
  lemma CutFacts(c: Layout, h: nat)
    requires WellLaid(c) && h < |c| && c[h].head == h && c[h].order > 0
    ensures var d, k := SplitAt(c, h), c[h].order - 1; var u := h + Pow2(k);
      && u + Pow2(k) <= |c| && Pow2(c[h].order) == 2 * Pow2(k)
      && d[u] == Block(u, k, c[h].kind) && d[h] == Block(h, k, c[h].kind) && Buddy(u, k) == h
      && (forall p :: 0 <= p < |c| && (p < h || p >= h + Pow2(c[h].order)) ==> d[p] == c[p])
      && forall p :: h <= p < h + Pow2(k) ==> d[p] == Block(h, k, c[h].kind)
  {
    hide WellLaid, Buddy;
    CutPlaces(c, h);
  }

  lemma CarveStep(b: Layout, c: Layout, h: nat)
    requires WellLaid(c) && CarvedFrom(b, c) && OnlyTaken(c, h) && NoneTaken(b)
    requires h < |c| && c[h].head == h && c[h].kind == Taken && c[h].order > 0
    ensures var d, k := SplitAt(c, h), c[h].order - 1; var u := h + Pow2(k);
      && u + Pow2(k) <= |c|
      && d[u] == Block(u, k, Taken) && d[h] == Block(h, k, Taken) && Buddy(u, k) == h
      && var e := SetKind(d, u, Free);
         e[h] == Block(h, k, Taken) && OnlyTaken(e, h) && CarvedFrom(b, e)
  {
    CutFacts(c, h);
    TakenPages(c, h);
  }

  lemma CarveDone(b: Layout, c: Layout, h: nat)
    requires WellLaid(c) && CarvedFrom(b, c) && OnlyTaken(c, h) && NoneTaken(b)
    requires h < |c| && c[h].head == h && c[h].kind == Taken
    ensures Allocated(b, SetKind(c, h, Live), h, c[h].order)
    ensures NoneTaken(SetKind(c, h, Live))
  {
    TakenPages(c, h);
  }

  /** Joining the taken block at `h` with its buddy, once that is taken too. */
  lemma JoinStep(b: Layout, c: Layout, h: nat)
    requires WellLaid(c) && Widened(b, c) && OnlyTaken(c, h)
    requires h < |c| && c[h].head == h && c[h].kind == Taken && c[h].order < MAX_ORDER
    requires var q := Buddy(h, c[h].order); q < |c| && c[q] == Block(q, c[h].order, Free)
    ensures var k := c[h].order; var q := Buddy(h, k); var m := Min(h, q);
      var d := SetKind(c, q, Taken);
      && d[h] == c[h] && d[q] == Block(q, k, Taken) && m < |c|
      && var e := MergeAt(d, h);
         e[m] == Block(m, k + 1, Taken) && OnlyTaken(e, m) && Widened(b, e)
  {
    var k := c[h].order;
    var q := Buddy(h, k);
    var m := Min(h, q);
    assert BlockOk(c, h) && BlockOk(c, q);
    FlipFacts(h, k);
    var d := SetKind(c, q, Taken);
    var e := MergeAt(d, h);
    assert forall p :: 0 <= p < |c| && (h <= p < h + Pow2(k)) ==> Holds(c[h], p);
    assert forall p :: 0 <= p < |c| && (q <= p < q + Pow2(k)) ==> Holds(c[q], p);
    forall p | 0 <= p < |e| && e[p].kind == Taken ensures e[p].head == m {
      if c[p].kind == Taken { assert BlockOk(c, p); }
    }
    forall p | 0 <= p < |e|
      ensures if b[p].kind == Free || b[p].kind == Taken then e[p].kind == Free || e[p].kind == Taken else e[p] == b[p]
    {
      if m <= p < m + Pow2(k + 1) { assert c[p].kind == Free || c[p].kind == Taken; }
    }
  }

  lemma JoinDone(b: Layout, h0: nat, c: Layout, h: nat)
    requires WellLaid(b) && h0 < |b| && b[h0].head == h0 && b[h0].kind == Live && NoneTaken(b)
    requires WellLaid(c) && Widened(SetKind(b, h0, Taken), c) && OnlyTaken(c, h)
    requires h < |c| && c[h].head == h && c[h].kind == Taken
    ensures Allocated(SetKind(c, h, Free), b, h0, b[h0].order)
    ensures NoneTaken(SetKind(c, h, Free))
  {
    assert BlockOk(b, h0);
    TakenPages(c, h);
    assert forall p :: h0 <= p < h0 + Pow2(b[h0].order) ==> Holds(b[h0], p);
  }

  // ---- The free lists ----

  predicate NoDup(s: seq<nat>) { forall i, j :: 0 <= i < j < |s| ==> s[i] != s[j] }

  /** The list of order `k` holds the heads of the free blocks of order `k`, once each. */
  predicate ListOk(s: seq<nat>, k: nat, b: Layout) {
    && NoDup(s)
    && (forall p :: p in s ==> p < |b| && b[p] == Block(p, k, Free))
    && (forall p :: 0 <= p < |b| && b[p] == Block(p, k, Free) ==> p in s)
  }

  predicate ListsOk(lists: seq<seq<nat>>, b: Layout) {
    |lists| == MAX_ORDER + 1 && forall k :: 0 <= k <= MAX_ORDER ==> ListOk(lists[k], k, b)
  }

  function At(s: seq<nat>, i: nat): int { if i < |s| then s[i] else NIL }

  predicate Linked(next: seq<int>, s: seq<nat>, i: nat)
    requires i < |s|
  {
    s[i] < |next| && next[s[i]] == At(s, i + 1)
  }

  /** The blocks of `s`, linked through `next` from `head`. */
  predicate Chain(head: int, next: seq<int>, s: seq<nat>) {
    && head == At(s, 0)
    && forall i :: 0 <= i < |s| ==> Linked(next, s, i)
  }

  predicate ChainsOk(heads: seq<int>, next: seq<int>, lists: seq<seq<nat>>) {
    |heads| == |lists| && forall k :: 0 <= k < |lists| ==> Chain(heads[k], next, lists[k])
  }

  function Without(s: seq<nat>, i: nat): seq<nat>
    requires i < |s|
  {
    s[..i] + s[i + 1..]
  }

  /** `page` stood at position `i` of list `k` and was taken out of it. */
  predicate UnlinkedAt(was: seq<seq<nat>>, now: seq<seq<nat>>, k: nat, i: nat, page: nat) {
    k < |was| && i < |was[k]| && was[k][i] == page && now == was[k := Without(was[k], i)]
  }

  /** A block of order `from` at the head of its list was taken and cut down to order `order`: its upper halves were
      pushed onto the lists of their orders. */
  predicate CutLists(was: seq<seq<nat>>, now: seq<seq<nat>>, page: nat, order: nat, from: nat) {
    && |was| == |now| && order <= from < |was| && |was[from]| > 0 && was[from][0] == page
    && forall j: nat :: j < |was| ==>
         now[j] == if j == from then was[j][1..] else if order <= j < from then [page + Pow2(j)] + was[j] else was[j]
  }

  /** The buddies of a freed block of order `order` were taken out of their lists, up to order `upto`, and the block at
      `page` they make up was pushed onto the list of that order. */
  ghost predicate JoinedLists(was: seq<seq<nat>>, now: seq<seq<nat>>, page: nat, order: nat, upto: nat) {
    && |was| == |now| && order <= upto < |was|
    && forall j: nat :: j < |was| ==>
         if order <= j < upto then OneLess(was[j], now[j]) else now[j] == if j == upto then [page] + was[j] else was[j]
  }

  /** Before the joined block is pushed. */
  ghost predicate Unjoined(was: seq<seq<nat>>, now: seq<seq<nat>>, order: nat, upto: nat) {
    && |was| == |now|
    && forall j: nat :: j < |was| ==> if order <= j < upto then OneLess(was[j], now[j]) else now[j] == was[j]
  }

  ghost predicate OneLess(s: seq<nat>, t: seq<nat>) { exists i: nat :: i < |s| && t == Without(s, i) }

  /** The upper halves of the blocks of the orders from `low` to below `from` that start at `page` were pushed. */
  predicate Halves(was: seq<seq<nat>>, now: seq<seq<nat>>, page: nat, low: nat, from: nat) {
    && |was| == |now|
    && forall j: nat :: j < |was| ==> now[j] == if low <= j < from then [page + Pow2(j)] + was[j] else was[j]
  }

  lemma HalvesStart(was: seq<seq<nat>>, page: nat, from: nat)
    ensures Halves(was, was, page, from, from)
  {
  }

  lemma HalvesStep(was: seq<seq<nat>>, now: seq<seq<nat>>, now': seq<seq<nat>>, page: nat, low: nat, from: nat)
    requires Halves(was, now, page, low + 1, from) && low < from && low < |now|
    requires now' == now[low := [page + Pow2(low)] + now[low]]
    ensures Halves(was, now', page, low, from)
  {
    hide Pow2;
  }

  lemma CutDone(was: seq<seq<nat>>, mid: seq<seq<nat>>, now: seq<seq<nat>>, page: nat, order: nat, from: nat)
    requires UnlinkedAt(was, mid, from, 0, page) && Halves(mid, now, page, order, from) && order <= from
    ensures CutLists(was, now, page, order, from)
  {
    hide Pow2;
    assert Without(was[from], 0) == was[from][1..];
  }

  lemma UnjoinedStart(was: seq<seq<nat>>, order: nat)
    ensures Unjoined(was, was, order, order)
  {
  }

  lemma UnjoinedStep(was: seq<seq<nat>>, now: seq<seq<nat>>, now': seq<seq<nat>>, order: nat, upto: nat, page: nat)
    requires Unjoined(was, now, order, upto) && order <= upto && exists i: nat :: UnlinkedAt(now, now', upto, i, page)
    ensures Unjoined(was, now', order, upto + 1)
  {
    var i: nat :| UnlinkedAt(now, now', upto, i, page);
    assert now[upto] == was[upto];
    assert OneLess(was[upto], now'[upto]);
  }

  lemma JoinedDone(was: seq<seq<nat>>, now: seq<seq<nat>>, now': seq<seq<nat>>, page: nat, order: nat, upto: nat)
    requires Unjoined(was, now, order, upto) && order <= upto < |now| && now' == now[upto := [page] + now[upto]]
    ensures JoinedLists(was, now', page, order, upto)
  {
    hide OneLess;
  }

  lemma FoundSmallest(b: Layout, page: nat, from: nat, order: nat)
    requires page < |b| && b[page] == Block(page, from, Free) && order <= from
    requires forall p :: 0 <= p < |b| && b[p].kind == Free ==> b[p].order < order || b[p].order >= from
    ensures SmallestFit(b, page, order)
  {
  }

  /** The joined block holds every page that its lower part held. */
  lemma StillHolds(c: Layout, page: nat, order: nat)
    requires WellLaid(c) && page < |c| && c[page] == Block(page, order, Taken)
    ensures var m := Min(page, Buddy(page, order));
      forall p: nat :: Holds(c[page], p) ==> Holds(Block(m, order + 1, Taken), p)
  {
    assert BlockOk(c, page);
    FlipFacts(page, order);
  }

  /** A live block that was just taken is the only one. */
  lemma UnsettledStart(b: Layout, h: nat)
    requires WellLaid(b) && NoneTaken(b) && h < |b| && b[h].head == h
    ensures var c := SetKind(b, h, Taken); OnlyTaken(c, h) && Widened(c, c) && c[h] == Block(h, b[h].order, Taken)
    ensures b[h].order <= MAX_ORDER && Holds(b[h], h)
  {
    assert BlockOk(b, h);
  }

  lemma InFreed(b: Layout, page: nat, p: nat)
    requires page < |b| && b[page].head == page && p < |b| && Holds(b[page], p)
    ensures SetKind(b, page, Free)[p] == Block(page, b[page].order, Free)
  {
  }

  lemma PushLists(lists: seq<seq<nat>>, b: Layout, h: nat)
    requires ListsOk(lists, b) && WellLaid(b) && h < |b| && b[h].head == h && b[h].kind != Free
    ensures b[h].order <= MAX_ORDER
    ensures ListsOk(lists[b[h].order := [h] + lists[b[h].order]], SetKind(b, h, Free))
  {
    var o := b[h].order;
    assert BlockOk(b, h);
    var lists', c := lists[o := [h] + lists[o]], SetKind(b, h, Free);
    forall k | 0 <= k <= MAX_ORDER ensures ListOk(lists'[k], k, c) {
      assert ListOk(lists[k], k, b);
    }
  }

  lemma UnlinkLists(lists: seq<seq<nat>>, b: Layout, k: nat, i: nat)
    requires ListsOk(lists, b) && WellLaid(b) && k <= MAX_ORDER && i < |lists[k]|
    ensures var h := lists[k][i]; h < |b| && b[h] == Block(h, k, Free)
    ensures ListsOk(lists[k := Without(lists[k], i)], SetKind(b, lists[k][i], Taken))
  {
    var s, h := lists[k], lists[k][i];
    assert ListOk(s, k, b);
    assert h in s;
    assert BlockOk(b, h);
    var lists', c := lists[k := Without(s, i)], SetKind(b, h, Taken);
    forall j | 0 <= j <= MAX_ORDER ensures ListOk(lists'[j], j, c) {
      assert ListOk(lists[j], j, b);
      if j == k {
        forall p | p in Without(s, i) ensures p in s && p != h {
          var x :| 0 <= x < |s| - 1 && Without(s, i)[x] == p;
          assert p == s[if x < i then x else x + 1];
        }
        forall p | 0 <= p < |c| && c[p] == Block(p, k, Free) ensures p in Without(s, i) {
          assert p in s;
          var x :| 0 <= x < |s| && s[x] == p;
          assert x != i;
          assert Without(s, i)[if x < i then x else x - 1] == p;
        }
      }
    }
  }

  /** Blocks that are not free may be cut, joined or handed over without touching a list. */
  lemma SameLists(lists: seq<seq<nat>>, b: Layout, c: Layout)
    requires ListsOk(lists, b) && |b| == |c|
    requires forall p :: 0 <= p < |b| ==> c[p] == b[p] || (b[p].kind != Free && c[p].kind != Free)
    ensures ListsOk(lists, c)
  {
    forall k | 0 <= k <= MAX_ORDER ensures ListOk(lists[k], k, c) {
      assert ListOk(lists[k], k, b);
    }
  }

  // ---- The division init builds ----

  /** Metadata pages first, then single pages still to be handed out. */
  function Raw(total: nat, meta: nat): (b: Layout)
    ensures |b| == total
  {
    seq(total, p requires p >= 0 => Block(p, 0, if p < meta then Meta else Taken))
  }

  /** Of the pages from `meta` up, those below `upto` are free and the rest single taken pages;
      each free block is the largest that fits between its head and the end of the region. */
  predicate Greedy(b: Layout, meta: nat, upto: nat) {
    forall p :: 0 <= p < |b| ==>
      if p < meta then b[p] == Block(p, 0, Meta)
      else if p >= upto then b[p] == Block(p, 0, Taken)
      else b[p].kind == Free && (b[p].order < MAX_ORDER ==> b[p].head + Pow2(b[p].order + 1) > |b| || !Aligned(b[p].head, b[p].order + 1))
  }

  lemma RawLaid(total: nat, meta: nat)
    requires meta <= total
    ensures WellLaid(Raw(total, meta)) && NoBuddies(Raw(total, meta)) && Greedy(Raw(total, meta), meta, meta)
  {
    var b := Raw(total, meta);
    forall p | 0 <= p < |b| ensures BlockOk(b, p) {
    }
  }

  lemma GreedyGather(b: Layout, meta: nat, h: nat, k: nat)
    requires WellLaid(b) && NoBuddies(b) && meta <= h && Greedy(b, meta, h)
    requires k <= MAX_ORDER && Aligned(h, k) && h + Pow2(k) <= |b|
    ensures var c := Paint(b, h, Pow2(k), Block(h, k, Taken)); WellLaid(c) && NoBuddies(c) && FreeSet(c) == FreeSet(b)
  {
    PaintLaid(b, h, k, Taken);
    FewerFree(b, Paint(b, h, Pow2(k), Block(h, k, Taken)));
  }

  lemma GreedyBuddy(b: Layout, meta: nat, h: nat, k: nat)
    requires meta <= h && Greedy(b, meta, h) && k <= MAX_ORDER && Aligned(h, k) && h + Pow2(k) <= |b|
    ensures var c, q := Paint(b, h, Pow2(k), Block(h, k, Taken)), Buddy(h, k);
      k < MAX_ORDER && q < |c| ==> c[q] != Block(q, k, Free)
  {
    FlipFacts(h, k);
    assert Buddy(h, k) == if Aligned(h, k + 1) then h + Pow2(k) else h - Pow2(k);
  }

  lemma GreedyStep(b: Layout, meta: nat, h: nat, k: nat)
    requires meta <= h && Greedy(b, meta, h)
    requires k <= MAX_ORDER && h + Pow2(k) <= |b|
    requires k < MAX_ORDER ==> h + Pow2(k + 1) > |b| || !Aligned(h, k + 1)
    ensures var c := Paint(b, h, Pow2(k), Block(h, k, Taken));
      Greedy(SetKind(c, h, Free), meta, h + Pow2(k))
  {
  }
}
