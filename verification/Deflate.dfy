/** What a compressed block of RFC 1951 means: its bit stream, its items and the bytes they produce. */
module Deflate {
  import opened Bits
  import opened HuffmanCode
  import opened Powers

  // ---- The bit stream ----

  /** The input as one number, first byte lowest; past its end there are only zero bits. */
  function Stream(input: seq<byte>): nat {
    if input == [] then 0 else input[0] + Stream(input[1..]) * Pow2(8)
  }

  lemma {:induction false} StreamByte(input: seq<byte>, i: nat)
    ensures i < |input| ==> Take(Drop(Stream(input), 8 * i), 8) == input[i]
    ensures i >= |input| ==> Drop(Stream(input), 8 * i) == 0
  {
    if input == [] {
      DropZero(8 * i);
    } else {
      Join(input[0], Stream(input[1..]), 8);
      if i > 0 {
        DropDrop(Stream(input), 8, 8 * (i - 1));
        StreamByte(input[1..], i - 1);
      }
    }
  }

  lemma StreamEnd(input: seq<byte>, k: nat)
    requires k >= 8 * |input|
    ensures Drop(Stream(input), k) == 0
  {
    StreamByte(input, |input|);
    DropDrop(Stream(input), 8 * |input|, k - 8 * |input|);
    DropZero(k - 8 * |input|);
  }

  /** The next 16 bits, first bit most significant. */
  function Window(n: nat, pos: nat): nat { Rev(Drop(n, pos), 16) }

  // ---- Symbols and items ----

  predicate SymbolAt(n: nat, lens: Lengths, pos: nat, sym: nat, to: nat) {
    && LengthsOk(lens) && sym < |lens| && Matches(lens, sym, Window(n, pos))
    && to == pos + lens[sym]
  }

  ghost predicate NoSymbol(n: nat, lens: Lengths, pos: nat)
    requires LengthsOk(lens)
  {
    forall i: nat :: i < |lens| ==> !Matches(lens, i, Window(n, pos))
  }

  function LengthBase(c: nat): (b: nat)
    requires c < 31
    ensures c < 29 ==> b >= 3
  {
    [3, 4, 5, 6, 7, 8, 9, 10, 11, 13, 15, 17, 19, 23, 27, 31, 35, 43, 51, 59,
     67, 83, 99, 115, 131, 163, 195, 227, 258, 0, 0][c]
  }

  function LengthExtra(c: nat): (e: nat)
    requires c < 31
    ensures e <= 5
  {
    [0, 0, 0, 0, 0, 0, 0, 0, 1, 1, 1, 1, 2, 2, 2, 2, 3, 3, 3, 3, 4, 4, 4, 4, 5, 5, 5, 5, 0, 0, 0][c]
  }

  function DistBase(c: nat): (b: nat)
    requires c < 32
    ensures c < 30 ==> b >= 1
  {
    [1, 2, 3, 4, 5, 7, 9, 13, 17, 25, 33, 49, 65, 97, 129, 193, 257, 385, 513, 769,
     1025, 1537, 2049, 3073, 4097, 6145, 8193, 12289, 16385, 24577, 0, 0][c]
  }

  function DistExtra(c: nat): (e: nat)
    requires c < 32
    ensures e <= 13
  {
    [0, 0, 0, 0, 1, 1, 2, 2, 3, 3, 4, 4, 5, 5, 6, 6, 7, 7, 8, 8, 9, 9, 10, 10, 11, 11, 12, 12, 13, 13, 0, 0][c]
  }

  const END_OF_BLOCK := 256

  /** A literal byte, or a length code (less 257) and a distance code, each with the value of its extra bits. */
  datatype Item = Literal(b: byte) | Copy(lengthCode: nat, lengthExtra: nat, distCode: nat, distExtra: nat) {
    predicate Legal() { Copy? ==> lengthCode < 29 && distCode < 30 }

    function Length(): nat
      requires Copy? && Legal()
    {
      LengthBase(lengthCode) + lengthExtra
    }

    function Distance(): (d: nat)
      requires Copy? && Legal()
      ensures d >= 1
    {
      DistBase(distCode) + distExtra
    }
  }

  /** The item encoded from bit `pos` to bit `to` with the given literal/length and distance codes. */
  predicate ItemAt(n: nat, ll: Lengths, dl: Lengths, pos: nat, it: Item, to: nat) {
    match it
    case Literal(b) => SymbolAt(n, ll, pos, b, to)
    case Copy(lc, le, dc, de) =>
      && it.Legal() && LengthsOk(ll) && LengthsOk(dl) && 257 + lc < |ll| && dc < |dl|
      && var p1 := pos + ll[257 + lc];
      && var p2 := p1 + LengthExtra(lc);
      && var p3 := p2 + dl[dc];
      && SymbolAt(n, ll, pos, 257 + lc, p1)
      && le == Take(Drop(n, p1), LengthExtra(lc))
      && SymbolAt(n, dl, p2, dc, p3)
      && de == Take(Drop(n, p3), DistExtra(dc))
      && to == p3 + DistExtra(dc)
  }

  predicate EndAt(n: nat, ll: Lengths, pos: nat, to: nat) { SymbolAt(n, ll, pos, END_OF_BLOCK, to) }

  /** Neither an item nor the end of the block can be read at `pos`. */
  ghost predicate NoItem(n: nat, ll: Lengths, dl: Lengths, pos: nat) {
    && (forall it: Item, to: nat :: !ItemAt(n, ll, dl, pos, it, to))
    && (forall to: nat :: !EndAt(n, ll, pos, to))
  }

  /** `items` are encoded one after the other, item `i` from bit `marks[i]`. */
  predicate Parse(n: nat, ll: Lengths, dl: Lengths, from: nat, items: seq<Item>, marks: seq<nat>) {
    && |marks| == |items| + 1 && marks[0] == from
    && forall i {:trigger items[i]} :: 0 <= i < |items| ==> ItemAt(n, ll, dl, marks[i], items[i], marks[i + 1])
  }

  lemma SymbolUnique(n: nat, lens: Lengths, pos: nat, s: nat, t: nat, s': nat, t': nat)
    requires SymbolAt(n, lens, pos, s, t) && SymbolAt(n, lens, pos, s', t')
    ensures s == s' && t == t' && t > pos
  {
    PrefixFree(lens, s, s', Window(n, pos));
  }

  /** The literal/length symbol that an item starts with. */
  function Head(it: Item): nat {
    match it
    case Literal(b) => b
    case Copy(lc, _, _, _) => 257 + lc
  }

  lemma ItemHead(n: nat, ll: Lengths, dl: Lengths, pos: nat, it: Item, to: nat)
    requires ItemAt(n, ll, dl, pos, it, to)
    ensures Head(it) < |ll| && SymbolAt(n, ll, pos, Head(it), pos + ll[Head(it)]) && Head(it) != END_OF_BLOCK
  {
  }

  lemma ItemUnique(n: nat, ll: Lengths, dl: Lengths, pos: nat, a: Item, to: nat, b: Item, to': nat)
    requires ItemAt(n, ll, dl, pos, a, to) && ItemAt(n, ll, dl, pos, b, to')
    ensures a == b && to == to' && to > pos
  {
    hide Matches, Take, Drop, LengthExtra, DistExtra, Window;
    var s, s' := Head(a), Head(b);
    ItemHead(n, ll, dl, pos, a, to);
    ItemHead(n, ll, dl, pos, b, to');
    SymbolUnique(n, ll, pos, s, pos + ll[s], s', pos + ll[s']);
    if a.Copy? {
      var p := pos + ll[s] + LengthExtra(a.lengthCode);
      SymbolUnique(n, dl, p, a.distCode, p + dl[a.distCode], b.distCode, p + dl[b.distCode]);
    }
  }

  lemma EndIsNoItem(n: nat, ll: Lengths, dl: Lengths, pos: nat, it: Item, to: nat, to': nat)
    requires EndAt(n, ll, pos, to)
    ensures !ItemAt(n, ll, dl, pos, it, to')
  {
    if ItemAt(n, ll, dl, pos, it, to') {
      ItemHead(n, ll, dl, pos, it, to');
      SymbolUnique(n, ll, pos, END_OF_BLOCK, to, Head(it), pos + ll[Head(it)]);
    }
  }

  /** Two readings from one place agree as far as both go. */
  lemma {:induction false} ParseAgree(n: nat, ll: Lengths, dl: Lengths, from: nat,
                                      a: seq<Item>, ma: seq<nat>, b: seq<Item>, mb: seq<nat>, k: nat)
    requires Parse(n, ll, dl, from, a, ma) && Parse(n, ll, dl, from, b, mb)
    requires k <= |a| && k <= |b|
    ensures forall i :: 0 <= i < k ==> a[i] == b[i]
    ensures forall i :: 0 <= i <= k ==> ma[i] == mb[i]
  {
    hide ItemAt;
    if k > 0 {
      ParseAgree(n, ll, dl, from, a, ma, b, mb, k - 1);
      ItemUnique(n, ll, dl, ma[k - 1], a[k - 1], ma[k], b[k - 1], mb[k]);
    }
  }

  /** A reading that has come to a stop at a place without an item contains no less than any other reading. */
  lemma StuckIsLongest(n: nat, ll: Lengths, dl: Lengths, from: nat,
                       a: seq<Item>, ma: seq<nat>, b: seq<Item>, mb: seq<nat>)
    requires Parse(n, ll, dl, from, a, ma) && Parse(n, ll, dl, from, b, mb)
    requires forall it: Item, to: nat :: !ItemAt(n, ll, dl, ma[|a|], it, to)
    ensures |b| <= |a| && b == a[..|b|] && mb == ma[..|b| + 1]
  {
    var k := if |a| < |b| then |a| else |b|;
    ParseAgree(n, ll, dl, from, a, ma, b, mb, k);
    if k < |b| { ItemPresent(n, ll, dl, from, b, mb, k); }
  }

  lemma ItemPresent(n: nat, ll: Lengths, dl: Lengths, from: nat, a: seq<Item>, ma: seq<nat>, k: nat)
    requires Parse(n, ll, dl, from, a, ma) && k < |a|
    ensures ItemAt(n, ll, dl, ma[k], a[k], ma[k + 1])
  {
  }

  /** A block has at most one complete reading, and a complete reading never gets stuck. */
  lemma BlockUnique(n: nat, ll: Lengths, dl: Lengths, from: nat,
                    a: seq<Item>, ma: seq<nat>, to: nat, b: seq<Item>, mb: seq<nat>, to': nat)
    requires Parse(n, ll, dl, from, a, ma) && EndAt(n, ll, ma[|a|], to)
    requires Parse(n, ll, dl, from, b, mb)
    ensures EndAt(n, ll, mb[|b|], to') ==> a == b && ma == mb && to == to'
    ensures !NoItem(n, ll, dl, mb[|b|]) && mb[|b|] < to
  {
    forall it: Item, t: nat
      ensures !ItemAt(n, ll, dl, ma[|a|], it, t)
    {
      EndIsNoItem(n, ll, dl, ma[|a|], it, to, t);
    }
    StuckIsLongest(n, ll, dl, from, a, ma, b, mb);
    MarksRise(n, ll, dl, from, a, ma, |b|);
    SymbolUnique(n, ll, ma[|a|], END_OF_BLOCK, to, END_OF_BLOCK, to);
    if |b| < |a| {
      ItemPresent(n, ll, dl, from, a, ma, |b|);
      if EndAt(n, ll, mb[|b|], to') {
        EndIsNoItem(n, ll, dl, mb[|b|], a[|b|], to', ma[|b| + 1]);
      }
    } else if EndAt(n, ll, mb[|b|], to') {
      SymbolUnique(n, ll, ma[|a|], END_OF_BLOCK, to, END_OF_BLOCK, to');
    }
  }

  lemma {:induction false} MarksRise(n: nat, ll: Lengths, dl: Lengths, from: nat, a: seq<Item>, ma: seq<nat>, k: nat)
    requires Parse(n, ll, dl, from, a, ma) && k <= |a|
    ensures ma[k] <= ma[|a|]
    decreases |a| - k
  {
    if k < |a| {
      ItemUnique(n, ll, dl, ma[k], a[k], ma[k + 1], a[k], ma[k + 1]);
      MarksRise(n, ll, dl, from, a, ma, k + 1);
    }
  }

  // ---- What items produce ----

  /** `n` bytes copied one at a time from `dist` bytes back, each copy visible to the next. */
  function CopyBytes(h: seq<byte>, dist: nat, n: nat): (r: seq<byte>)
    requires 1 <= dist <= |h|
    ensures |r| == |h| + n && r[..|h|] == h
  {
    if n == 0 then h
    else
      var g := CopyBytes(h, dist, n - 1);
      g + [g[|g| - dist]]
  }

  lemma LessPeriod(i: nat, dist: nat)
    requires dist > 0
    ensures i % dist == if i < dist then i else (i - dist) % dist
  {
    if i < dist { DivModIs(i, dist, 0, i); }
    else { DivModIs(i, dist, (i - dist) / dist + 1, (i - dist) % dist); }
  }

  lemma CopyNone(h: seq<byte>, dist: nat)
    requires 1 <= dist <= |h|
    ensures CopyBytes(h, dist, 0) == h
  {
  }

  lemma CopyOneMore(h: seq<byte>, dist: nat, n: nat)
    requires 1 <= dist <= |h|
    ensures var g := CopyBytes(h, dist, n); CopyBytes(h, dist, n + 1) == g + [g[|g| - dist]]
  {
  }

  /** Every copied byte equals the one `dist` places before it. */
  lemma {:induction false} CopyEchoes(h: seq<byte>, dist: nat, n: nat, i: nat)
    requires 1 <= dist <= |h| && i < n
    ensures CopyBytes(h, dist, n)[|h| + i] == CopyBytes(h, dist, n)[|h| + i - dist]
  {
    var g := CopyBytes(h, dist, n - 1);
    assert CopyBytes(h, dist, n) == g + [g[|g| - dist]];
    if i < n - 1 { CopyEchoes(h, dist, n - 1, i); }
  }

  /** Copying byte by byte repeats the last `dist` bytes with period `dist`. */
  lemma {:induction false} CopyIsPeriodic(h: seq<byte>, dist: nat, n: nat, i: nat)
    requires 1 <= dist <= |h| && i < n
    ensures CopyBytes(h, dist, n)[|h| + i] == h[|h| - dist + i % dist]
    decreases i
  {
    hide CopyBytes;
    var r := CopyBytes(h, dist, n);
    CopyEchoes(h, dist, n, i);
    LessPeriod(i, dist);
    if i < dist {
      assert r[|h| + i - dist] == r[..|h|][|h| + i - dist];
    } else {
      CopyIsPeriodic(h, dist, n, i - dist);
    }
  }

  predicate Reaches(out: seq<byte>, it: Item) { it.Legal() && (it.Copy? ==> it.Distance() <= |out|) }

  function Emit(out: seq<byte>, it: Item): (r: seq<byte>)
    ensures |r| >= |out| && r[..|out|] == out
  {
    if !Reaches(out, it) then out
    else
      match it
      case Literal(b) => out + [b]
      case Copy(_, _, _, _) => CopyBytes(out, it.Distance(), it.Length())
  }

  /** The output after the items, starting from what earlier blocks produced. */
  function Expand(out: seq<byte>, items: seq<Item>): seq<byte> {
    if items == [] then out
    else Emit(Expand(out, items[..|items| - 1]), items[|items| - 1])
  }

  /** Every distance stays within the bytes produced before it. */
  predicate Reachable(out: seq<byte>, items: seq<Item>) {
    items == [] || (
      && Reachable(out, items[..|items| - 1])
      && Reaches(Expand(out, items[..|items| - 1]), items[|items| - 1]))
  }

  lemma {:induction false} ReachableAt(out: seq<byte>, items: seq<Item>, k: nat)
    requires Reachable(out, items) && k < |items|
    ensures Reaches(Expand(out, items[..k]), items[k])
  {
    var n := |items| - 1;
    if k < n {
      ReachableAt(out, items[..n], k);
      assert items[..n][..k] == items[..k];
    }
  }
}
