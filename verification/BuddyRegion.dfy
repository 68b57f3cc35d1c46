/** One memory region of src/kernel/BuddyAllocator.cpp: its page_order bytes and its free
    lists, linked through the first word of each free page. */
module BuddyRegion {
  import opened Powers
  import opened BuddyLayout

  /** Writing the link of a page that is not in the list leaves the list alone. */
  lemma ChainFrame(head: int, next: seq<int>, s: seq<nat>, h: nat, v: int)
    requires Chain(head, next, s) && h < |next| && h !in s
    ensures Chain(head, next[h := v], s)
  {
    var next' := next[h := v];
    forall i | 0 <= i < |s| ensures Linked(next', s, i) {
      assert Linked(next, s, i) && s[i] in s;
    }
  }

  lemma ChainPush(head: int, next: seq<int>, s: seq<nat>, h: nat)
    requires Chain(head, next, s) && h < |next| && h !in s
    ensures Chain(h, next[h := head], [h] + s)
  {
    var next', t := next[h := head], [h] + s;
    forall i | 0 <= i < |t| ensures Linked(next', t, i) {
      if i > 0 { assert Linked(next, s, i - 1) && t[i] == s[i - 1] && s[i - 1] in s && At(t, i + 1) == At(s, i); }
      else { assert At(t, 1) == At(s, 0); }
    }
  }

  lemma ChainWithout(head: int, next: seq<int>, s: seq<nat>, i: nat)
    requires Chain(head, next, s) && NoDup(s) && i < |s|
    ensures Linked(next, s, i) && (i > 0 ==> Linked(next, s, i - 1))
    ensures i == 0 ==> Chain(next[s[0]], next, Without(s, 0))
    ensures i > 0 ==> Chain(head, next[s[i - 1] := next[s[i]]], Without(s, i))
  {
    var t := Without(s, i);
    assert Linked(next, s, i) && (i > 0 ==> Linked(next, s, i - 1));
    var next' := if i == 0 then next else next[s[i - 1] := next[s[i]]];
    forall x | 0 <= x < |t| ensures Linked(next', t, x) {
      var y := if x < i then x else x + 1;
      assert t[x] == s[y] && Linked(next, s, y);
      if x == i - 1 {
        assert At(t, x + 1) == At(s, i + 1);
      } else {
        assert At(t, x + 1) == At(s, y + 1);
        assert i > 0 ==> s[y] != s[i - 1];
      }
    }
  }

  lemma PushChain(heads: seq<int>, next: seq<int>, lists: seq<seq<nat>>, k: nat, h: nat)
    requires ChainsOk(heads, next, lists) && k < |lists| && h < |next|
    requires forall j :: 0 <= j < |lists| ==> h !in lists[j]
    ensures ChainsOk(heads[k := h], next[h := heads[k]], lists[k := [h] + lists[k]])
  {
    var heads', next', lists' := heads[k := h], next[h := heads[k]], lists[k := [h] + lists[k]];
    forall j | 0 <= j < |lists| ensures Chain(heads'[j], next', lists'[j]) {
      if j == k { ChainPush(heads[j], next, lists[j], h); }
      else { ChainFrame(heads[j], next, lists[j], h, heads[k]); }
    }
  }

  /** Taking the block at position `i` of list `k` out: its predecessor, or the list
      head, now points to its successor. */
  lemma UnlinkChain(heads: seq<int>, next: seq<int>, lists: seq<seq<nat>>, b: Layout, k: nat, i: nat)
    requires ListsOk(lists, b) && ChainsOk(heads, next, lists) && k < |lists| && i < |lists[k]|
    ensures lists[k][i] < |next| && (i > 0 ==> lists[k][i - 1] < |next|)
    ensures var s := lists[k]; var after := next[s[i]];
      ChainsOk(if i == 0 then heads[k := after] else heads,
               if i == 0 then next else next[s[i - 1] := after],
               lists[k := Without(s, i)])
  {
    var s := lists[k];
    assert Chain(heads[k], next, s) && ListOk(s, k, b);
    ChainWithout(heads[k], next, s, i);
    var after := next[s[i]];
    var heads' := if i == 0 then heads[k := after] else heads;
    var next' := if i == 0 then next else next[s[i - 1] := after];
    var lists' := lists[k := Without(s, i)];
    forall j | 0 <= j < |lists| ensures Chain(heads'[j], next', lists'[j]) {
      assert Chain(heads[j], next, lists[j]) && ListOk(lists[j], j, b);
      if j != k && i > 0 {
        assert s[i - 1] in s;
        ChainFrame(heads[j], next, lists[j], s[i - 1], after);
      }
    }
  }

  function MetaPages(pages: nat): nat { (pages + PAGE_SIZE - 1) / PAGE_SIZE }

  /** As many pages as the bytes of page_order need, one for every page, and no more. */
  lemma MetaNumbers(pages: nat)
    ensures pages <= 4096 * MetaPages(pages) < pages + 4096
    ensures MetaPages(pages) < pages <==> pages >= 2
  {
  }

  /** The largest order of an aligned block at `page` that ends by `total`. */
  method LargestFit(page: nat, total: nat) returns (order: nat)
    requires page < total
    ensures order <= MAX_ORDER && Aligned(page, order) && page + Pow2(order) <= total
    ensures order < MAX_ORDER ==> page + Pow2(order + 1) > total || !Aligned(page, order + 1)
  {
    order := MAX_ORDER;
    while order > 0 && (Pow2(order) > total - page || page % Pow2(order) != 0)
      invariant order <= MAX_ORDER
      invariant order < MAX_ORDER ==> page + Pow2(order + 1) > total || !Aligned(page, order + 1)
    {
      AlignedMod(page, order);
      order := order - 1;
    }
    AlignedMod(page, order);
  }

  class Region {
    const start: nat          // virtual address of the first page
    const total: nat          // total_pages
    const pageOrder: array<int>
    const next: array<int>    // FreeBlock::next of every page, as a page number
    const heads: array<int>   // free_lists
    ghost const meta: nat     // pages that hold page_order itself
    ghost var layout: Layout
    ghost var lists: seq<seq<nat>>

    ghost const own: set<object>  // this object and its arrays

    ghost predicate Shape() {
      && own == {this, pageOrder, next, heads}
      && pageOrder != next && pageOrder != heads && next != heads
      && pageOrder.Length == next.Length == total && heads.Length == MAX_ORDER + 1
    }

    /** Everything but the absence of taken blocks, which exist inside the operations. */
    ghost predicate Ok()
      reads this, own
    {
      && Shape() && |layout| == total
      && WellLaid(layout) && NoBuddies(layout)
      && meta == MetaPages(total) && (forall p :: 0 <= p < total ==> (layout[p].kind == Meta <==> p < meta))
      && BytesOk(pageOrder[..], layout)
      && ListsOk(lists, layout)
      && ChainsOk(heads[..], next[..], lists)
    }

    ghost predicate Valid()
      reads this, own
    {
      Ok() && NoneTaken(layout)
    }

    /** The byte of every page lies in a page that is never handed out, and no more pages than needed are kept back. */
    lemma BytesKept()
      requires Valid()
      ensures forall p: nat :: p < total ==> p / 4096 < total && layout[p / 4096].kind == Meta
      ensures forall p: nat :: p < total && layout[p].kind == Meta ==> 4096 * p < total
    {
      MetaNumbers(total);
    }

    /** init for one descriptor, up to the division into blocks. */
    constructor (addr: nat, pages: nat)
      requires MetaPages(pages) < pages
      ensures Ok() && fresh(own) && this in own && start == addr && total == pages && meta == MetaPages(pages)
      ensures layout == Raw(total, meta)
    {
      start, total := addr, pages;
      pageOrder, next, heads := new int[pages], new int[pages], new int[MAX_ORDER + 1];
      own := {this, pageOrder, next, heads};
      meta := MetaPages(pages);
      layout := Raw(pages, MetaPages(pages));
      lists := seq(MAX_ORDER + 1, k => []);
      new;
      ghost var b, L := layout, lists;
      for j := 0 to pages
        invariant forall p :: 0 <= p < j ==> pageOrder[p] == 0xFF
        invariant layout == b && lists == L
      {
        pageOrder[j] := 0xFF;
      }
      for j := 0 to MAX_ORDER + 1
        invariant forall k :: 0 <= k < j ==> heads[k] == NIL
        invariant forall p :: 0 <= p < pages ==> pageOrder[p] == 0xFF
        invariant layout == b && lists == L
      {
        heads[j] := NIL;
      }
      for j := 0 to MetaPages(pages)
        invariant forall k :: 0 <= k <= MAX_ORDER ==> heads[k] == NIL
        invariant forall p :: 0 <= p < pages ==> pageOrder[p] == 0xFF
        invariant layout == b && lists == L
      {
        pageOrder[j] := 0xFF;
      }
      RawLaid(pages, meta);
    }

    /** init, one block of the division. */
    method PlaceBlock(page: nat) returns (order: nat)
      requires Ok() && meta <= page < total && Greedy(layout, meta, page)
      modifies own
      ensures Ok() && page + Pow2(order) <= total && Greedy(layout, meta, page + Pow2(order))
      ensures FreePages(layout) == FreePages(old(layout)) + Pow2(order)
    {
      order := LargestFit(page, total);
      GreedyGather(layout, meta, page, order);
      GreedyBuddy(layout, meta, page, order);
      GreedyStep(layout, meta, page, order);
      Gather(page, order);
      FreedCount(layout, page);
      PushFreeBlock(order, page);
    }

    /** init, the division: at each page the largest aligned block that still fits. */
    method Divide() returns (bytes: nat)
      requires Ok() && meta == MetaPages(total) <= total && layout == Raw(total, meta)
      modifies own
      ensures Valid() && bytes == PAGE_SIZE * FreePages(layout) == 4096 * (total - (total + 4095) / 4096)
      ensures InitialFor(layout, layout)
    {
      RawLaid(total, meta);
      var page := MetaPages(total);
      bytes := 0;
      assert FreeSet(layout) == {};
      while page < total
        invariant meta <= page <= total && Ok() && Greedy(layout, meta, page)
        invariant bytes == PAGE_SIZE * FreePages(layout)
      {
        var order := PlaceBlock(page);
        bytes := bytes + Pow2(order) * PAGE_SIZE;
        page := page + Pow2(order);
      }
      AllFreeCount(layout, meta);
    }

    /** The single taken pages from `page` on become one taken block. */
    ghost method Gather(page: nat, order: nat)
      requires Ok() && order <= MAX_ORDER && page + Pow2(order) <= total
      requires forall p :: page <= p < total ==> layout[p] == Block(p, 0, Taken)
      requires var c := Paint(layout, page, Pow2(order), Block(page, order, Taken)); WellLaid(c) && NoBuddies(c)
      modifies this`layout
      ensures Ok() && layout == Paint(old(layout), page, Pow2(order), Block(page, order, Taken))
    {
      var b := layout;
      layout := Paint(b, page, Pow2(order), Block(page, order, Taken));
      SameLists(lists, b, layout);
      forall p | 0 <= p < total ensures ByteOk(pageOrder[p], layout[p], p) {
        assert ByteOk(pageOrder[..][p], b[p], p);
      }
    }

    method PushFreeBlock(order: nat, page: nat)
      requires Ok() && page < total && layout[page] == Block(page, order, Taken)
      requires var q := Buddy(page, order); order < MAX_ORDER && q < total ==> layout[q] != Block(q, order, Free)
      modifies own
      ensures Ok() && layout == SetKind(old(layout), page, Free)
      ensures order < |old(lists)| && lists == old(lists)[order := [page] + old(lists)[order]]
    {
      ghost var b, L := layout, lists;
      PushLists(L, b, page);
      SetKindLaid(b, page, Free);
      OneMoreFree(b, page);
      assert forall k :: 0 <= k < |L| ==> page !in L[k] by {
        assert forall k :: 0 <= k <= MAX_ORDER ==> ListOk(L[k], k, b);
      }
      PushChain(heads[..], next[..], L, order, page);
      next[page] := heads[order];
      heads[order] := page;
      pageOrder[page] := order;
      layout := SetKind(b, page, Free);
      lists := L[order := [page] + L[order]];
      BytesSet(old(pageOrder[..]), b, page, Free, order);
      assert pageOrder[..] == old(pageOrder[..])[page := order];
      assert next[..] == old(next[..])[page := old(heads[order])];
      assert heads[..] == old(heads[..])[order := page];
    }

    method UnlinkBlock(order: nat, page: nat) returns (found: bool)
      requires Ok() && order <= MAX_ORDER
      modifies own
      ensures Ok()
      ensures found <==> page < total && old(layout)[page] == Block(page, order, Free)
      ensures layout == if found then SetKind(old(layout), page, Taken) else old(layout)
      ensures if found then exists i: nat :: UnlinkedAt(old(lists), lists, order, i, page) else lists == old(lists)
      ensures pageOrder[..] == old(pageOrder[..])
    {
      ghost var b, L := layout, lists;
      ghost var s := L[order];
      assert ListOk(s, order, b) && Chain(heads[order], next[..], s);
      var prev, cur := NIL, heads[order];
      ghost var i := 0;
      while cur != NIL
        invariant 0 <= i <= |s|
        invariant cur == At(s, i) && prev == (if i > 0 then s[i - 1] else NIL)
        invariant page !in s[..i]
        invariant next[..] == old(next[..]) && heads[..] == old(heads[..]) && pageOrder[..] == old(pageOrder[..])
        invariant layout == b && lists == L
        decreases |s| - i
      {
        assert Linked(next[..], s, i) by { assert Chain(heads[..][order], next[..], s); }
        if cur == page {
          UnlinkLists(L, b, order, i);
          UnlinkChain(heads[..], next[..], L, b, order, i);
          SetKindLaid(b, page, Taken);
          var after := next[cur];
          if prev == NIL {
            heads[order] := after;
            assert heads[..] == old(heads[..])[order := after];
          } else {
            next[prev] := after;
            assert next[..] == old(next[..])[prev := after];
          }
          layout := SetKind(b, page, Taken);
          lists := L[order := Without(s, i)];
          assert UnlinkedAt(L, lists, order, i, page);
          assert BlockOk(b, page);
          FewerFree(b, layout);
          BytesTaken(pageOrder[..], b, page);
          return true;
        }
        prev := cur;
        cur := next[cur];
        i := i + 1;
      }
      return false;
    }

    lemma NoneOfOrder(k: nat)
      requires Ok() && k <= MAX_ORDER && heads[k] == NIL
      ensures forall p :: 0 <= p < total && layout[p].kind == Free ==> layout[p].order != k
    {
      assert Chain(heads[..][k], next[..], lists[k]) && ListOk(lists[k], k, layout);
      forall p | 0 <= p < total && layout[p].kind == Free ensures layout[p].order != k {
        assert BlockOk(layout, p);
        assert layout[layout[p].head] == layout[p];
      }
    }

    /** The head of a non-empty free list is unlinked. */
    method PopFreeBlock(order: nat) returns (page: nat)
      requires Ok() && order <= MAX_ORDER && heads[order] != NIL
      modifies own
      ensures Ok() && page < total && old(layout)[page] == Block(page, order, Free)
      ensures layout == SetKind(old(layout), page, Taken) && UnlinkedAt(old(lists), lists, order, 0, page)
    {
      ghost var b, L := layout, lists;
      ghost var s := L[order];
      assert Chain(heads[..][order], next[..], s) && ListOk(s, order, b);
      page := heads[order];
      UnlinkLists(L, b, order, 0);
      UnlinkChain(heads[..], next[..], L, b, order, 0);
      SetKindLaid(b, page, Taken);
      heads[order] := next[page];
      assert heads[..] == old(heads[..])[order := old(next[..])[page]];
      layout := SetKind(b, page, Taken);
      lists := L[order := Without(s, 0)];
      assert BlockOk(b, page);
      FewerFree(b, layout);
      BytesTaken(pageOrder[..], b, page);
    }

    ghost method SplitTaken(page: nat)
      requires Ok() && page < total && layout[page].head == page && layout[page].kind == Taken && layout[page].order > 0
      modifies this`layout
      ensures Ok() && layout == SplitAt(old(layout), page)
    {
      var b := layout;
      layout := SplitAt(b, page);
      SplitLaid(b, page);
      BytesSplit(pageOrder[..], b, page);
      SplitTakenOnly(b, page);
      hide SplitAt, BytesOk, BlockOk, Mergeable;
      FewerFree(b, layout);
      SameLists(lists, b, layout);
    }

    ghost method MergeTaken(page: nat)
      requires Ok() && page < total && layout[page].head == page && layout[page].kind == Taken && layout[page].order < MAX_ORDER
      requires var q := Buddy(page, layout[page].order); q < total && layout[q] == Block(q, layout[page].order, Taken)
      modifies this`layout
      ensures Ok() && layout == MergeAt(old(layout), page)
    {
      var b := layout;
      var q := Buddy(page, b[page].order);
      layout := MergeAt(b, page);
      MergeLaid(b, page);
      BytesMerged(pageOrder[..], b, page);
      MergedTaken(b, page);
      hide MergeAt, BytesOk, BlockOk, Mergeable;
      FewerFree(b, layout);
      SameLists(lists, b, layout);
    }

    /** page_order[page] = order | 0x80 */
    method SettleLive(page: nat, order: nat)
      requires Ok() && page < total && layout[page] == Block(page, order, Taken)
      modifies this`layout, pageOrder
      ensures Ok() && layout == SetKind(old(layout), page, Live)
    {
      ghost var b := layout;
      SetKindLaid(b, page, Live);
      pageOrder[page] := order + 0x80;
      layout := SetKind(b, page, Live);
      assert BlockOk(b, page);
      FewerFree(b, layout);
      SameLists(lists, b, layout);
      BytesSet(old(pageOrder[..]), b, page, Live, order + 0x80);
      assert pageOrder[..] == old(pageOrder[..])[page := order + 0x80];
    }

    /** The smallest order from `order` up with a free block, MAX_ORDER + 1 if none has one. */
    method FindOrder(order: nat) returns (current: nat)
      requires Ok() && order <= MAX_ORDER
      ensures order <= current <= MAX_ORDER + 1
      ensures current <= MAX_ORDER ==> heads[current] != NIL
      ensures forall p :: 0 <= p < total && layout[p].kind == Free ==> layout[p].order < order || layout[p].order >= current
    {
      current := order;
      while current <= MAX_ORDER && heads[current] == NIL
        invariant order <= current <= MAX_ORDER + 1
        invariant forall p :: 0 <= p < total && layout[p].kind == Free ==> layout[p].order < order || layout[p].order >= current
      {
        NoneOfOrder(current);
        current := current + 1;
      }
    }

    /** Frees the upper half of the taken block at `page`. */
    method Halve(page: nat, order: nat, ghost b: Layout)
      requires Ok() && page < total && layout[page] == Block(page, order + 1, Taken) && OnlyTaken(layout, page)
      requires CarvedFrom(b, layout) && NoneTaken(b)
      modifies own
      ensures Ok() && layout[page] == Block(page, order, Taken) && OnlyTaken(layout, page)
      ensures CarvedFrom(b, layout) && order < |old(lists)|
      ensures lists == old(lists)[order := [page + Pow2(order)] + old(lists)[order]]
    {
      hide CarvedFrom, OnlyTaken, WellLaid, NoBuddies, ListsOk, ChainsOk, BytesOk, NoneTaken, SetKind, SplitAt, Buddy;
      CarveStep(b, layout, page);
      SplitTaken(page);
      PushFreeBlock(order, page + Pow2(order));
    }

    /** Cuts the taken block at `page` down to `order`, freeing the upper halves. */
    method Carve(page: nat, from: nat, order: nat, ghost b: Layout)
      requires Ok() && page < total && layout[page] == Block(page, from, Taken) && OnlyTaken(layout, page)
      requires order <= from && CarvedFrom(b, layout) && NoneTaken(b)
      modifies own
      ensures Ok() && layout[page] == Block(page, order, Taken) && OnlyTaken(layout, page)
      ensures CarvedFrom(b, layout)
      ensures Halves(old(lists), lists, page, order, from)
    {
      hide Halves, CarvedFrom, OnlyTaken, WellLaid, NoBuddies, ListsOk, ChainsOk, BytesOk, NoneTaken;
      var current := from;
      HalvesStart(lists, page, from);
      while current > order
        invariant order <= current <= from && Ok() && CarvedFrom(b, layout)
        invariant layout[page] == Block(page, current, Taken) && OnlyTaken(layout, page)
        invariant Halves(old(lists), lists, page, current, from)
      {
        ghost var L := lists;
        current := current - 1;
        Halve(page, current, b);
        HalvesStep(old(lists), L, lists, page, current, from);
      }
    }

    /** mallocImplementation for this region: the first block of the smallest sufficient
        order is cut down to `order`; NIL when no free block is large enough. */
    method Alloc(order: nat) returns (page: int)
      requires Valid() && order <= MAX_ORDER
      modifies own
      ensures Valid()
      ensures page == NIL <==> NoneAsLarge(old(layout), order)
      ensures page == NIL ==> layout == old(layout) && lists == old(lists)
      ensures page != NIL ==> 0 <= page && Allocated(old(layout), layout, page, order)
      ensures page != NIL ==>
        && SmallestFit(old(layout), page, order)
        && CutLists(old(lists), lists, page, order, old(layout)[page].order)
    {
      hide Halves, CutLists, UnlinkedAt, SmallestFit;
      ghost var b, L := layout, lists;
      var current := FindOrder(order);
      if current > MAX_ORDER {
        forall p | 0 <= p < total && b[p].kind == Free ensures b[p].order < order {
          assert BlockOk(b, p);
        }
        return NIL;
      }
      page := PopFreeBlock(current);
      assert BlockOk(b, page);
      ghost var M := lists;
      FoundSmallest(b, page, current, order);
      Carve(page, current, order, b);
      CarveDone(b, layout, page);
      CutDone(L, M, lists, page, order, current);
      SettleLive(page, order);
    }

    /** page_order[page] = order: a live block is on its way to the free lists. */
    method Unsettle(page: nat, order: nat)
      requires Ok() && page < total && layout[page] == Block(page, order, Live)
      modifies this`layout, pageOrder
      ensures Ok() && layout == SetKind(old(layout), page, Taken)
    {
      ghost var b := layout;
      SetKindLaid(b, page, Taken);
      pageOrder[page] := order;
      layout := SetKind(b, page, Taken);
      assert BlockOk(b, page);
      FewerFree(b, layout);
      SameLists(lists, b, layout);
      BytesSet(old(pageOrder[..]), b, page, Taken, order);
      assert pageOrder[..] == old(pageOrder[..])[page := order];
    }

    /** Takes the free buddy of the taken block at `page` and makes one block of both. */
    method JoinBuddy(page: nat, order: nat, ghost b: Layout) returns (joined: nat)
      requires Ok() && page < total && layout[page] == Block(page, order, Taken) && OnlyTaken(layout, page)
      requires order < MAX_ORDER && Widened(b, layout)
      requires var q := Buddy(page, order); q < total && layout[q] == Block(q, order, Free)
      modifies own
      ensures Ok() && joined < total && layout[joined] == Block(joined, order + 1, Taken) && OnlyTaken(layout, joined)
      ensures Widened(b, layout) && exists i: nat :: UnlinkedAt(old(lists), lists, order, i, Buddy(page, order))
      ensures forall p: nat :: Holds(old(layout)[page], p) ==> Holds(layout[joined], p)
    {
      ghost var c := layout;
      JoinStep(b, layout, page);
      var buddy := Buddy(page, order);
      var found := UnlinkBlock(order, buddy);
      MergeTaken(page);
      joined := Min(page, buddy);
      StillHolds(c, page, order);
    }

    /** The byte of a page says whether a live block starts there, and of which order. */
    lemma LiveByte(page: nat)
      requires Ok() && NoneTaken(layout) && page < total
      ensures pageOrder[page] >= 0x80 && pageOrder[page] != 0xFF <==> layout[page].kind == Live && layout[page].head == page
      ensures pageOrder[page] >= 0x80 && pageOrder[page] != 0xFF ==> pageOrder[page] == layout[page].order + 0x80
    {
      assert ByteOk(pageOrder[..][page], layout[page], page) && BlockOk(layout, page);
    }

    /** freeImplementation for a page of this region: frees the live block that starts at
        `page`, and does nothing on any other page. */
    method Release(page0: nat) returns (freed: bool, original: nat)
      requires Valid() && page0 < total
      modifies own
      ensures Valid()
      ensures freed <==> old(layout)[page0].kind == Live && old(layout)[page0].head == page0
      ensures !freed ==> layout == old(layout) && lists == old(lists)
      ensures freed ==> original == old(layout)[page0].order && Allocated(layout, old(layout), page0, original)
      ensures freed ==>
        JoinedLists(old(lists), lists, layout[page0].head, original, layout[page0].order) && layout[page0].kind == Free
    {
      hide Unjoined, JoinedLists, UnlinkedAt, WellLaid, NoBuddies, ListsOk, ChainsOk, BytesOk, NoneTaken, OnlyTaken,
        Widened, Allocated, Aligned, Buddy;
      ghost var b := layout;
      LiveByte(page0);
      var page: nat := page0;
      var entry := pageOrder[page];
      if entry == 0xFF || entry < 0x80 {
        return false, 0;
      }
      freed := true;
      var order := entry - 0x80;
      original := order;
      Unsettle(page, order);
      ghost var b1 := layout;
      UnsettledStart(b, page0);
      UnjoinedStart(lists, order);
      while order < MAX_ORDER
        invariant 0 <= order <= MAX_ORDER && Ok() && page < total
        invariant layout[page] == Block(page, order, Taken) && OnlyTaken(layout, page)
        invariant Widened(b1, layout)
        invariant original <= order && Holds(layout[page], page0)
        invariant Unjoined(old(lists), lists, original, order)
        decreases MAX_ORDER - order
      {
        MergeTest(pageOrder[..], layout, page);
        var buddy := Buddy(page, order);
        if buddy >= total || pageOrder[buddy] != order || !Aligned(Min(page, buddy), order + 1) {
          break;
        }
        ghost var L := lists;
        page := JoinBuddy(page, order, b1);
        UnjoinedStep(old(lists), L, lists, original, order, buddy);
        order := order + 1;
      }
      MergeTest(pageOrder[..], layout, page);
      JoinDone(b, page0, layout, page);
      ghost var c, L := layout, lists;
      InFreed(c, page, page0);
      PushFreeBlock(order, page);
      JoinedDone(old(lists), L, lists, page, original, order);
    }
  }
}
