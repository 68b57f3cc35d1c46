/**
 * How many bits of a block the decoder can read. The input is fetched byte by byte, with zero bytes past its end, and
 * once, when the input is used up, sixteen more zero bits are counted without being fetched. A symbol or an
 * end of block beyond the bits that were fetched is refused.
 */
module Supply {
  import opened Bits
  import opened Deflate
  import opened HuffmanCode
  import opened Options
  import opened Powers

  datatype Supply = Supply(fetched: nat, padded: bool) {
    function Loaded(): nat { fetched + if padded then 16 else 0 }
  }

  /** The bits loaded after bytes have been added until more than 24 are left from bit `pos` on. */
  function Filled(loaded: nat, pos: nat): (l: nat)
    ensures l > pos + 24 && l >= loaded && (l == loaded || l <= pos + 32)
    decreases pos + 25 - loaded
  {
    if loaded > pos + 24 then loaded else Filled(loaded + 8, pos)
  }

  /** Before a symbol at bit `pos`, for an input of `size` bytes. */
  function Prep(size: nat, s: Supply, pos: nat): Option<Supply> {
    if s.Loaded() >= pos + 16 then Some(s)
    else if s.fetched < 8 * size then Some(Supply(Filled(s.Loaded(), pos), s.padded))
    else if !s.padded then Some(Supply(s.fetched, true))
    else None
  }

  /** Before `n` extra bits at bit `pos`. */
  function Recv(s: Supply, pos: nat, n: nat): Supply {
    if s.Loaded() >= pos + n then s
    else Supply(s.fetched + Filled(s.Loaded(), pos) - s.Loaded(), s.padded)
  }

  /** Reading the item at bit `pos`. */
  function SupplyItem(size: nat, s: Supply, ll: Lengths, dl: Lengths, pos: nat, it: Item): Option<Supply> {
    match it
    case Literal(b) => Prep(size, s, pos)
    case Copy(lc, _, dc, _) =>
      if !it.Legal() || 257 + lc >= |ll| || dc >= |dl| then None
      else
        var p1 := pos + ll[257 + lc];
        var p2 := p1 + LengthExtra(lc);
        match Prep(size, s, pos)
        case None => None
        case Some(s1) =>
          match Prep(size, Recv(s1, p1, LengthExtra(lc)), p2)
          case None => None
          case Some(s3) => Some(Recv(s3, p2 + dl[dc], DistExtra(dc)))
  }

  /** The end-of-block symbol at bit `pos` is read, and it ends within the bits that were fetched. */
  predicate SupplyEnd(size: nat, s: Supply, pos: nat, to: nat) {
    match Prep(size, s, pos)
    case None => false
    case Some(t) => to <= t.fetched
  }

  /** Reading the items one after the other. */
  function SupplyItems(size: nat, s: Supply, ll: Lengths, dl: Lengths, items: seq<Item>, marks: seq<nat>): Option<Supply>
    requires |marks| == |items| + 1
  {
    if items == [] then Some(s)
    else
      var n := |items| - 1;
      match SupplyItems(size, s, ll, dl, items[..n], marks[..n + 1])
      case None => None
      case Some(t) => SupplyItem(size, t, ll, dl, marks[n], items[n])
  }

  /** The whole block can be read, up to its end at bit `to`. */
  predicate Lasts(size: nat, s: Supply, ll: Lengths, dl: Lengths, items: seq<Item>, marks: seq<nat>, to: nat)
    requires |marks| == |items| + 1
  {
    match SupplyItems(size, s, ll, dl, items, marks)
    case None => false
    case Some(t) => SupplyEnd(size, t, marks[|items|], to)
  }

  /** Nothing at bit `pos` can be read: no item or end of block is there, or the supply runs out within it. */
  ghost predicate Unreadable(size: nat, s: Supply, n: nat, ll: Lengths, dl: Lengths, pos: nat) {
    && (forall it: Item, to: nat :: ItemAt(n, ll, dl, pos, it, to) ==> SupplyItem(size, s, ll, dl, pos, it).None?)
    && (forall to: nat :: EndAt(n, ll, pos, to) ==> Prep(size, s, pos).None?)
  }

  /** The sixteen bits are counted only after the whole input was fetched. */
  predicate SupplyOk(size: nat, s: Supply) { s.padded ==> s.fetched >= 8 * size }

  lemma PrepFacts(size: nat, s: Supply, pos: nat)
    requires SupplyOk(size, s) && pos <= s.Loaded()
    ensures Prep(size, s, pos).None? ==> pos > s.fetched >= 8 * size
    ensures Prep(size, s, pos).Some? ==>
      var t := Prep(size, s, pos).value;
      SupplyOk(size, t) && t.fetched >= s.fetched && t.Loaded() >= pos + 16
  {
  }

  lemma RecvFacts(size: nat, s: Supply, pos: nat, n: nat)
    requires SupplyOk(size, s) && pos <= s.Loaded() && n <= 24
    ensures var t := Recv(s, pos, n); SupplyOk(size, t) && t.fetched >= s.fetched && t.Loaded() >= pos + n
  {
  }

  lemma {:induction false} ItemsStuck(size: nat, s: Supply, ll: Lengths, dl: Lengths, items: seq<Item>, marks: seq<nat>, k: nat)
    requires |marks| == |items| + 1 && k <= |items| && SupplyItems(size, s, ll, dl, items[..k], marks[..k + 1]).None?
    ensures SupplyItems(size, s, ll, dl, items, marks).None?
    decreases |items|
  {
    hide SupplyItem;
    var n := |items| - 1;
    if k == |items| {
      assert items[..k] == items && marks[..k + 1] == marks;
    } else {
      assert items[..n][..k] == items[..k] && marks[..n + 1][..k + 1] == marks[..k + 1];
      ItemsStuck(size, s, ll, dl, items[..n], marks[..n + 1], k);
    }
  }

  lemma SupplyNext(size: nat, s: Supply, ll: Lengths, dl: Lengths, items: seq<Item>, marks: seq<nat>, it: Item, to: nat)
    requires |marks| == |items| + 1 && SupplyItems(size, s, ll, dl, items, marks).Some?
    ensures SupplyItems(size, s, ll, dl, items + [it], marks + [to])
         == SupplyItem(size, SupplyItems(size, s, ll, dl, items, marks).value, ll, dl, marks[|items|], it)
  {
    hide SupplyItem;
    assert (items + [it])[..|items|] == items && (marks + [to])[..|items| + 1] == marks;
  }

  // ---- Blocks that lie in their input ----

  /** A place reached within the input can always be read from. */
  lemma ItemInside(size: nat, s: Supply, n: nat, ll: Lengths, dl: Lengths, pos: nat, it: Item, to: nat)
    requires SupplyOk(size, s) && pos <= s.Loaded() && ItemAt(n, ll, dl, pos, it, to) && to <= 8 * size
    ensures SupplyItem(size, s, ll, dl, pos, it).Some?
    ensures var t := SupplyItem(size, s, ll, dl, pos, it).value; SupplyOk(size, t) && to <= t.Loaded()
  {
    hide Matches, Window, Take, Drop, Filled, LengthExtra, DistExtra, LengthBase, DistBase;
    PrepFacts(size, s, pos);
    if it.Copy? {
      var lc, dc := it.lengthCode, it.distCode;
      var p1 := pos + ll[257 + lc];
      var p2 := p1 + LengthExtra(lc);
      var s1 := Prep(size, s, pos).value;
      RecvFacts(size, s1, p1, LengthExtra(lc));
      var s2 := Recv(s1, p1, LengthExtra(lc));
      PrepFacts(size, s2, p2);
      RecvFacts(size, Prep(size, s2, p2).value, p2 + dl[dc], DistExtra(dc));
    }
  }

  lemma {:induction false} ItemsInside(size: nat, s: Supply, n: nat, ll: Lengths, dl: Lengths, from: nat,
                                       items: seq<Item>, marks: seq<nat>)
    requires SupplyOk(size, s) && from <= s.Loaded()
    requires Parse(n, ll, dl, from, items, marks) && marks[|items|] <= 8 * size
    ensures SupplyItems(size, s, ll, dl, items, marks).Some?
    ensures var t := SupplyItems(size, s, ll, dl, items, marks).value; SupplyOk(size, t) && marks[|items|] <= t.Loaded()
    decreases |items|
  {
    hide ItemAt, SupplyItem;
    if items != [] {
      var k := |items| - 1;
      MarksRise(n, ll, dl, from, items, marks, k);
      assert Parse(n, ll, dl, from, items[..k], marks[..k + 1]);
      ItemsInside(size, s, n, ll, dl, from, items[..k], marks[..k + 1]);
      var t := SupplyItems(size, s, ll, dl, items[..k], marks[..k + 1]).value;
      ItemPresent(n, ll, dl, from, items, marks, k);
      ItemInside(size, t, n, ll, dl, marks[k], items[k], marks[k + 1]);
    }
  }

  /** A block that ends within its input is never refused. */
  lemma InsideLasts(size: nat, s: Supply, n: nat, ll: Lengths, dl: Lengths, from: nat,
                    items: seq<Item>, marks: seq<nat>, to: nat)
    requires SupplyOk(size, s) && from <= s.Loaded()
    requires Parse(n, ll, dl, from, items, marks) && EndAt(n, ll, marks[|items|], to) && to <= 8 * size
    ensures Lasts(size, s, ll, dl, items, marks, to)
  {
    hide SupplyItems, Matches, Filled;
    SymbolUnique(n, ll, marks[|items|], END_OF_BLOCK, to, END_OF_BLOCK, to);
    ItemsInside(size, s, n, ll, dl, from, items, marks);
    PrepFacts(size, SupplyItems(size, s, ll, dl, items, marks).value, marks[|items|]);
  }

  // ---- Blocks that run past their input ----

  lemma ZeroWindow(input: seq<byte>, pos: nat)
    requires pos >= 8 * |input|
    ensures Window(Stream(input), pos) == 0
  {
    hide Rev;
    StreamEnd(input, pos);
    DropZero(16);
  }

  /** Past the end of the input the only code that can be read is the one of zero bits, and it can be read anywhere. */
  lemma PastEndIsZero(input: seq<byte>, lens: Lengths, pos: nat, sym: nat, to: nat, p: nat)
    requires SymbolAt(Stream(input), lens, pos, sym, to) && pos >= 8 * |input| && p >= 8 * |input|
    ensures Code(lens, sym) == 0
    ensures SymbolAt(Stream(input), lens, p, sym, p + lens[sym])
  {
    hide Window, Code, Stream;
    ZeroWindow(input, pos);
    ZeroWindow(input, p);
    DivModIs(0, Pow2(16 - lens[sym]), 0, 0);
  }

  /** No item takes more than 48 bits. */
  lemma ItemBits(n: nat, ll: Lengths, dl: Lengths, pos: nat, it: Item, to: nat)
    requires ItemAt(n, ll, dl, pos, it, to)
    ensures to <= pos + 48
  {
    hide Matches, Window, Take, Drop, LengthExtra, DistExtra, LengthBase, DistBase;
  }

  /**
   * A block that runs past its input either has its end-of-block symbol begin within the input, and then ends at most
   * 14 bits past it, or ends with the code of zero bits, at most 62 bits past the input.
   */
  lemma Truncated(input: seq<byte>, ll: Lengths, dl: Lengths, from: nat, items: seq<Item>, marks: seq<nat>, to: nat)
    requires Parse(Stream(input), ll, dl, from, items, marks) && EndAt(Stream(input), ll, marks[|items|], to)
    requires from <= 8 * |input| < to
    ensures LengthsOk(ll) && END_OF_BLOCK < |ll| && to == marks[|items|] + ll[END_OF_BLOCK]
    ensures marks[|items|] < 8 * |input| ==> to <= 8 * |input| + 14
    ensures marks[|items|] >= 8 * |input| ==> Code(ll, END_OF_BLOCK) == 0 && to <= 8 * |input| + 62
  {
    hide ItemAt, Matches, Code, Stream;
    var n, k := Stream(input), |items|;
    if marks[k] >= 8 * |input| {
      PastEndIsZero(input, ll, marks[k], END_OF_BLOCK, to, marks[k]);
      if k > 0 {
        ItemPresent(n, ll, dl, from, items, marks, k - 1);
        ItemBits(n, ll, dl, marks[k - 1], items[k - 1], marks[k]);
        if marks[k - 1] >= 8 * |input| {
          PastEndIsZero(input, ll, marks[k], END_OF_BLOCK, to, marks[k - 1]);
          EndIsNoItem(n, ll, dl, marks[k - 1], items[k - 1], marks[k - 1] + ll[END_OF_BLOCK], marks[k]);
        }
      }
    }
  }

  /** Past the input the block can end exactly if the end-of-block symbol has the code of zero bits. */
  lemma EndsPastInput(input: seq<byte>, ll: Lengths, pos: nat)
    requires LengthsOk(ll) && END_OF_BLOCK < |ll| && pos >= 8 * |input|
    ensures EndAt(Stream(input), ll, pos, pos + ll[END_OF_BLOCK]) <==>
            ll[END_OF_BLOCK] > 0 && Code(ll, END_OF_BLOCK) == 0
  {
    hide Window, Code, Stream;
    ZeroWindow(input, pos);
    DivModIs(0, Pow2(16 - ll[END_OF_BLOCK]), 0, 0);
  }

  /** The end of the block is accepted exactly if a byte of the input is still to be fetched, or the bits fetched reach it. */
  lemma EndAccepted(size: nat, s: Supply, n: nat, ll: Lengths, pos: nat, to: nat)
    requires SupplyOk(size, s) && pos <= s.Loaded() && EndAt(n, ll, pos, to)
    ensures SupplyEnd(size, s, pos, to) <==> s.fetched < 8 * size || to <= s.fetched
  {
    hide Matches;
    SymbolUnique(n, ll, pos, END_OF_BLOCK, to, END_OF_BLOCK, to);
  }
}
