/** The fixed code of section 3.2.6 of RFC 1951, and blocks in it whose input ends too early. */
module FixedCode {
  import opened Bits
  import opened Deflate
  import opened HuffmanCode
  import opened Options
  import opened Powers
  import opened Supply

  function Repeat(v: nat, n: nat): (s: Lengths)
    ensures |s| == n && forall i :: 0 <= i < n ==> s[i] == v
  {
    if n == 0 then [] else Repeat(v, n - 1) + [v]
  }

  /** Lengths of the literal and length codes. */
  function FixedLengths(): Lengths { Repeat(8, 144) + Repeat(9, 112) + Repeat(7, 24) + Repeat(8, 8) }

  /** Lengths of the distance codes. */
  function FixedDistances(): Lengths { Repeat(5, 32) }

  lemma {:induction false} CountRepeat(lens: Lengths, v: nat, n: nat, s: nat)
    ensures Count(lens + Repeat(v, n), s) == Count(lens, s) + if v == s then n else 0
  {
    if n == 0 {
      assert lens + Repeat(v, 0) == lens;
    } else {
      CountRepeat(lens, v, n - 1, s);
      assert (lens + Repeat(v, n))[..|lens| + n - 1] == lens + Repeat(v, n - 1);
    }
  }

  lemma FixedCounts(s: nat)
    ensures Count(FixedLengths(), s) == if s == 8 then 152 else if s == 9 then 112 else if s == 7 then 24 else 0
    ensures Count(FixedLengths()[..256], s) == if s == 8 then 144 else if s == 9 then 112 else 0
  {
    hide Count, Repeat;
    CountNone(s);
    var a, b, c := Repeat(8, 144), Repeat(9, 112), Repeat(7, 24);
    CountRepeat([], 8, 144, s);
    CountRepeat(a, 9, 112, s);
    CountRepeat(a + b, 7, 24, s);
    CountRepeat(a + b + c, 8, 8, s);
    assert [] + a == a;
    assert FixedLengths()[..256] == a + b;
  }

  lemma CountNone(s: nat)
    ensures Count([], s) == 0
  {
  }

  lemma FixedShape()
    ensures LengthsOk(FixedLengths()) && |FixedLengths()| == 288
    ensures FixedLengths()[0] == 8 && FixedLengths()[END_OF_BLOCK] == 7
    ensures LengthsOk(FixedDistances()) && |FixedDistances()| == 32
  {
    hide Repeat;
  }

  lemma {:induction false} FixedFirst(s: nat)
    ensures s <= 7 ==> FirstCode(FixedLengths(), s) == 0
    ensures s == 8 ==> FirstCode(FixedLengths(), s) == 48
    ensures s >= 9 ==> EndCode(FixedLengths(), s) == Pow2(s)
  {
    hide Count, FixedLengths;
    if s > 1 {
      FixedFirst(s - 1);
      FixedCounts(s - 1);
      FixedCounts(s);
      assert Pow2(9) == 512;
    }
  }

  lemma DistanceCounts(s: nat)
    ensures Count(FixedDistances(), s) == if s == 5 then 32 else 0
  {
    hide Count, Repeat;
    CountNone(s);
    CountRepeat([], 5, 32, s);
    assert [] + Repeat(5, 32) == Repeat(5, 32);
  }

  lemma {:induction false} DistanceFirst(s: nat)
    ensures s <= 5 ==> FirstCode(FixedDistances(), s) == 0
    ensures s >= 5 ==> EndCode(FixedDistances(), s) == Pow2(s)
  {
    hide Count, FixedDistances;
    DistanceCounts(s);
    if s > 1 {
      DistanceFirst(s - 1);
      DistanceCounts(s - 1);
      assert Pow2(5) == 32;
    }
  }

  /** Tables can be built for the fixed code. */
  lemma FixedAccepted()
    ensures Accepted(FixedLengths()) && Accepted(FixedDistances())
  {
    hide FixedLengths, FixedDistances, FirstCode, Count;
    forall s | 1 <= s <= MAXBITS
      ensures EndCode(FixedLengths(), s) <= Pow2(s) && EndCode(FixedDistances(), s) <= Pow2(s)
    {
      FixedFirst(s);
      FixedCounts(s);
      if s < 9 { assert Pow2(7) == 128 && Pow2(8) == 256; }
      DistanceFirst(s);
      DistanceCounts(s);
    }
  }

  /** The code lengths of section 3.2.6. */
  lemma FixedLengthIs(i: nat)
    requires i < 288
    ensures |FixedLengths()| == 288
    ensures FixedLengths()[i] == if i <= 143 then 8 else if i <= 255 then 9 else if i <= 279 then 7 else 8
  {
    hide Repeat;
  }

  lemma FixedPrefix(i: nat)
    requires i <= 288
    ensures FixedLengths()[..i] ==
      if i <= 144 then Repeat(8, i)
      else if i <= 256 then Repeat(8, 144) + Repeat(9, i - 144)
      else if i <= 280 then Repeat(8, 144) + Repeat(9, 112) + Repeat(7, i - 256)
      else Repeat(8, 144) + Repeat(9, 112) + Repeat(7, 24) + Repeat(8, i - 280)
  {
    hide Repeat;
  }

  lemma PrefixCounts(i: nat, s: nat)
    requires i < 288 && s == FixedLengths()[i]
    ensures Count(FixedLengths()[..i], s) ==
      if i <= 143 then i else if i <= 255 then i - 144 else if i <= 279 then i - 256 else i - 136
  {
    FixedLengthIs(i);
    hide Count, FixedLengths;
    if i <= 143 { FirstEights(i); } else if i <= 255 { Nines(i); } else if i <= 279 { Sevens(i); } else { LastEights(i); }
  }

  lemma FirstEights(i: nat)
    requires i <= 143
    ensures Count(FixedLengths()[..i], 8) == i
  {
    hide Count, Repeat, FixedLengths;
    FixedPrefix(i);
    CountNone(8);
    CountRepeat([], 8, i, 8);
    assert [] + Repeat(8, i) == Repeat(8, i);
  }

  lemma Nines(i: nat)
    requires 144 <= i <= 255
    ensures Count(FixedLengths()[..i], 9) == i - 144
  {
    hide Count, Repeat, FixedLengths;
    FixedPrefix(i);
    CountNone(9);
    CountRepeat([], 8, 144, 9);
    assert [] + Repeat(8, 144) == Repeat(8, 144);
    CountRepeat(Repeat(8, 144), 9, i - 144, 9);
    if i == 144 { assert Repeat(8, 144) + Repeat(9, 0) == Repeat(8, 144); }
  }

  lemma Sevens(i: nat)
    requires 256 <= i <= 279
    ensures Count(FixedLengths()[..i], 7) == i - 256
  {
    hide Count, Repeat, FixedLengths;
    FixedPrefix(i);
    CountNone(7);
    CountRepeat([], 8, 144, 7);
    assert [] + Repeat(8, 144) == Repeat(8, 144);
    CountRepeat(Repeat(8, 144), 9, 112, 7);
    var ab := Repeat(8, 144) + Repeat(9, 112);
    CountRepeat(ab, 7, i - 256, 7);
    if i == 256 { assert ab + Repeat(7, 0) == ab; }
  }

  lemma LastEights(i: nat)
    requires 280 <= i <= 287
    ensures Count(FixedLengths()[..i], 8) == i - 136
  {
    hide Count, Repeat, FixedLengths;
    FixedPrefix(i);
    CountNone(8);
    CountRepeat([], 8, 144, 8);
    assert [] + Repeat(8, 144) == Repeat(8, 144);
    CountRepeat(Repeat(8, 144), 9, 112, 8);
    var ab := Repeat(8, 144) + Repeat(9, 112);
    CountRepeat(ab, 7, 24, 8);
    var abc := ab + Repeat(7, 24);
    CountRepeat(abc, 8, i - 280, 8);
    if i == 280 { assert abc + Repeat(8, 0) == abc; }
  }

  /** The codes of section 3.2.6: 00110000 to 10111111, 110010000 to 111111111, 0000000 to 0010111, 11000000 to 11000111. */
  lemma FixedCodes(i: nat)
    requires i < 288
    ensures |FixedLengths()| == 288
    ensures Code(FixedLengths(), i) ==
      if i <= 143 then 0x30 + i else if i <= 255 then 0x190 + (i - 144) else if i <= 279 then i - 256 else 0xC0 + (i - 280)
  {
    FixedLengthIs(i);
    hide Count, FirstCode, FixedLengths, Pow2;
    PrefixCounts(i, FixedLengths()[i]);
    FirstCodes();
  }

  /** The first codes of seven, eight and nine bits. */
  lemma FirstCodes()
    ensures FirstCode(FixedLengths(), 7) == 0 && FirstCode(FixedLengths(), 8) == 0x30
    ensures FirstCode(FixedLengths(), 9) == 0x190
  {
    hide Count, FixedLengths;
    FixedFirst(7);
    FixedFirst(8);
    FixedFirst(9);
    FixedCounts(9);
    assert Pow2(9) == 512;
  }

  /** Distance codes are the numbers of their symbols, in five bits. */
  lemma FixedDistanceCodes(d: nat)
    requires d < 32
    ensures |FixedDistances()| == 32 && FixedDistances()[d] == 5 && Code(FixedDistances(), d) == d
  {
    hide Count, Repeat, FirstCode;
    DistanceFirst(5);
    CountNone(5);
    assert FixedDistances()[..d] == Repeat(5, d) && [] + Repeat(5, d) == Repeat(5, d);
    CountRepeat([], 5, d, 5);
  }

  /** A symbol stands where its code does, reversed as a number. */
  lemma SymbolHere(n: nat, lens: Lengths, pos: nat, sym: nat, k: nat)
    requires LengthsOk(lens) && sym < |lens| && lens[sym] == k > 0 && Rev(Take(Drop(n, pos), k), k) == Code(lens, sym)
    ensures SymbolAt(n, lens, pos, sym, pos + k)
  {
    hide Take, Drop, Rev, Code;
    var x := Drop(n, pos);
    RevTake(x, k, 0);
    RevSplit(x, k, 16 - k);
    DropTake(Rev(x, 16), 16 - k);
  }

  /** The bits 00110000, first bit first, are the code of literal 0. */
  lemma LiteralZero(n: nat, pos: nat)
    requires Take(Drop(n, pos), 8) == 12
    ensures SymbolAt(n, FixedLengths(), pos, 0, pos + 8)
  {
    hide FixedLengths, Take, Drop, Rev, Code;
    FixedShape();
    FixedCodes(0);
    SmallReversed();
    SymbolHere(n, FixedLengths(), pos, 0, 8);
  }

  /** Four bits reversed. */
  lemma RevFour(n: nat)
    ensures Rev(n, 4) == n % 2 * 8 + n / 2 % 2 * 4 + n / 4 % 2 * 2 + n / 8 % 2
  {
    hide Rev;
    RevTwo(n, 3);
    RevTwo(n / 2, 2);
    RevTwo(n / 4, 1);
    RevTwo(n / 8, 0);
    DropZero(0);
    NoneReversed(n / 16);
    assert Pow2(3) == 8;
    assert n / 2 / 2 == n / 4 && n / 4 / 2 == n / 8 && n / 8 / 2 == n / 16;
  }

  lemma NoneReversed(n: nat)
    ensures Rev(n, 0) == 0
  {
  }

  lemma RevEight(n: nat)
    ensures Rev(n, 8) == 16 * Rev(n, 4) + Rev(n / 16, 4)
  {
    hide Rev;
    RevSplitSum(n, 4, 4);
    assert Pow2(4) == 16;
    DropTake(n, 4);
  }

  lemma SmallReversed()
    ensures Rev(12, 8) == 48 && Rev(137, 8) == 0x91 && Rev(73, 8) == 0x92 && Rev(201, 8) == 0x93
  {
    hide Rev;
    RevEight(12);
    RevFour(12);
    RevFour(0);
    RevEight(137);
    RevFour(137);
    RevFour(8);
    RevEight(73);
    RevFour(73);
    RevFour(4);
    RevEight(201);
    RevFour(201);
  }

  lemma ShortReversed()
    ensures Rev(64, 7) == 1 && Rev(8, 5) == 2
  {
    hide Rev;
    RevTwo(64, 6);
    RevTwo(32, 5);
    RevTwo(16, 4);
    RevFour(8);
    RevTwo(8, 4);
    RevFour(4);
  }

  /** Zero bits are the code of the end of the block. */
  lemma EndIsZeroBits(n: nat, pos: nat)
    requires Drop(n, pos) == 0
    ensures EndAt(n, FixedLengths(), pos, pos + 7)
  {
    hide FixedLengths, FirstCode, Count, Drop, Rev;
    FixedShape();
    FixedFirst(7);
    FixedCounts(7);
    DropZero(16);
    DivModIs(0, Pow2(9), 0, 0);
  }

  /** The three header bits before the first block leave 32 bits fetched, whatever the input is. */
  lemma FirstBlock()
    ensures Recv(Recv(Supply(0, false), 0, 1), 1, 2) == Supply(32, false)
  {
    assert Filled(24, 0) == 32 && Filled(16, 0) == 32 && Filled(8, 0) == 32;
  }

  /** The number that one byte stands for, and four bytes. */
  lemma StreamIs(a: byte, b: byte, c: byte)
    ensures Stream([a]) == a && Stream([a, b, c, 0]) == a + 256 * b + 65536 * c
  {
    hide Stream;
    FirstByte(a, []);
    FirstByte(0, []);
    FirstByte(c, [0]);
    FirstByte(b, [c, 0]);
    FirstByte(a, [b, c, 0]);
    assert [a] + [] == [a] && [0] + [] == [0] && [c] + [0] == [c, 0];
    assert [b] + [c, 0] == [b, c, 0] && [a] + [b, c, 0] == [a, b, c, 0];
  }

  lemma FirstByte(a: byte, rest: seq<byte>)
    ensures Stream([a] + rest) == a + 256 * Stream(rest) && Stream([]) == 0
  {
    assert ([a] + rest)[1..] == rest && Pow2(8) == 256;
  }

  /** Bits of a number by division. */
  lemma BitsAt(n: nat, pos: nat, p: nat, k: nat, q: nat)
    requires Pow2(pos) == p && Pow2(k) == q
    ensures Drop(n, pos) == n / p && Take(Drop(n, pos), k) == n / p % q
  {
    hide Take, Drop, Pow2;
    DropTake(n, pos);
    DropTake(n / p, k);
  }

  lemma PowersOfTwo()
    ensures Pow2(0) == 1 && Pow2(1) == 2 && Pow2(2) == 4 && Pow2(3) == 8 && Pow2(8) == 256
    ensures Pow2(11) == 2048 && Pow2(19) == 524288 && Pow2(27) == 134217728
  {
    assert Pow2(3) == 8 && Pow2(8) == 256;
    Pow2Add(3, 8);
    Pow2Add(11, 8);
    Pow2Add(19, 8);
  }

  /** The header of a last block in the fixed code. */
  predicate FixedHeader(n: nat) { Take(Drop(n, 0), 1) == 1 && Take(Drop(n, 1), 2) == 1 }

  /**
   * A block that is cut off before its end and still accepted: a single byte, holding the header and five bits of a
   * literal. The rest of the literal and the end-of-block symbol are the zero bits fetched behind it.
   */
  lemma TruncatedAccepted()
    ensures var n, ll, dl := Stream([0x63]), FixedLengths(), FixedDistances();
            && FixedHeader(n) && Parse(n, ll, dl, 3, [Literal(0)], [3, 11]) && EndAt(n, ll, 11, 18) && 18 > 8 * |[0x63]|
            && Lasts(1, Supply(32, false), ll, dl, [Literal(0)], [3, 11], 18)
  {
    hide FixedLengths, Stream, Matches, Take, Drop, Pow2, Rev;
    StreamIs(0x63, 0, 0);
    PowersOfTwo();
    BitsAt(99, 0, 1, 1, 2);
    BitsAt(99, 1, 2, 2, 4);
    BitsAt(99, 3, 8, 8, 256);
    BitsAt(99, 11, 2048, 8, 256);
    LiteralZero(99, 3);
    EndIsZeroBits(99, 11);
    assert [Literal(0)][..0] == [] && [3, 11][..1] == [3];
  }

  /** A block in the fixed code: the literals a, b and c, and a copy of length 3 from distance 3. */
  const ABC_ABC := 75 + 256 * 76 + 65536 * 74 + 16777216 * 6 + 4294967296 * 34

  lemma StreamAbcAbc()
    ensures Stream([75, 76, 74, 6, 34, 0]) == ABC_ABC
  {
    hide Stream;
    FirstByte(0, []);
    FirstByte(34, [0]);
    FirstByte(6, [34, 0]);
    FirstByte(74, [6, 34, 0]);
    FirstByte(76, [74, 6, 34, 0]);
    FirstByte(75, [76, 74, 6, 34, 0]);
    assert [0] + [] == [0] && [34] + [0] == [34, 0] && [6] + [34, 0] == [6, 34, 0];
    assert [74] + [6, 34, 0] == [74, 6, 34, 0] && [76] + [74, 6, 34, 0] == [76, 74, 6, 34, 0];
    assert [75] + [76, 74, 6, 34, 0] == [75, 76, 74, 6, 34, 0];
  }

  lemma Letter(n: nat, pos: nat, p: nat, b: byte)
    requires Pow2(pos) == p && b <= 143 && Rev(n / p % 256, 8) == 0x30 + b
    ensures SymbolAt(n, FixedLengths(), pos, b, pos + 8)
  {
    hide FixedLengths, Take, Drop, Rev, Code, Pow2;
    PowersOfTwo();
    FixedShape();
    BitsAt(n, pos, p, 8, 256);
    FixedLengthIs(b);
    FixedCodes(b);
    SymbolHere(n, FixedLengths(), pos, b, 8);
  }

  lemma LettersAbc()
    ensures SymbolAt(ABC_ABC, FixedLengths(), 3, 97, 11) && SymbolAt(ABC_ABC, FixedLengths(), 11, 98, 19)
    ensures SymbolAt(ABC_ABC, FixedLengths(), 19, 99, 27)
  {
    hide SymbolAt, Rev, Pow2;
    PowersOfTwo();
    SmallReversed();
    Letter(ABC_ABC, 3, 8, 97);
    Letter(ABC_ABC, 11, 2048, 98);
    Letter(ABC_ABC, 19, 524288, 99);
  }

  lemma CopyAbc()
    ensures ItemAt(ABC_ABC, FixedLengths(), FixedDistances(), 27, Copy(0, 0, 2, 0), 39)
  {
    hide FixedLengths, FixedDistances, Take, Drop, Rev, Code, Pow2, SymbolAt;
    FixedShape();
    ShortReversed();
    MorePowers();
    BitsAt(ABC_ABC, 27, 134217728, 7, 128);
    BitsAt(ABC_ABC, 34, 17179869184, 5, 32);
    FixedLengthIs(257);
    FixedCodes(257);
    FixedDistanceCodes(2);
    SymbolHere(ABC_ABC, FixedLengths(), 27, 257, 7);
    SymbolHere(ABC_ABC, FixedDistances(), 34, 2, 5);
    CopyHere(ABC_ABC, FixedLengths(), FixedDistances(), 27);
  }

  /** Length 3 at distance 3 takes no extra bits. */
  lemma CopyHere(n: nat, ll: Lengths, dl: Lengths, pos: nat)
    requires LengthsOk(ll) && LengthsOk(dl) && |ll| > 257 && |dl| > 2
    requires SymbolAt(n, ll, pos, 257, pos + ll[257]) && SymbolAt(n, dl, pos + ll[257], 2, pos + ll[257] + dl[2])
    ensures ItemAt(n, ll, dl, pos, Copy(0, 0, 2, 0), pos + ll[257] + dl[2])
  {
    hide SymbolAt, Take, Drop;
    NoExtra(n, pos + ll[257]);
    NoExtra(n, pos + ll[257] + dl[2]);
  }

  lemma EndAbc()
    ensures EndAt(ABC_ABC, FixedLengths(), 39, 46)
  {
    hide FixedLengths, Take, Drop, Pow2, SymbolAt;
    MorePowers();
    BitsAt(ABC_ABC, 39, 549755813888, 7, 128);
    EndIsZeroBits(ABC_ABC, 39);
  }

  lemma NoExtra(n: nat, pos: nat)
    ensures Take(Drop(n, pos), 0) == 0
  {
  }

  lemma MorePowers()
    ensures Pow2(5) == 32 && Pow2(7) == 128 && Pow2(27) == 134217728
    ensures Pow2(34) == 17179869184 && Pow2(39) == 549755813888
  {
    hide Pow2;
    PowersOfTwo();
    Pow2Five();
    Pow2Add(27, 7);
    Pow2Add(34, 5);
  }

  lemma Pow2Five()
    ensures Pow2(5) == 32 && Pow2(7) == 128
  {
  }

  /** It produces abcabc. */
  lemma AbcAbc()
    ensures var n, ll, dl := Stream([75, 76, 74, 6, 34, 0]), FixedLengths(), FixedDistances();
            var items := [Literal(97), Literal(98), Literal(99), Copy(0, 0, 2, 0)];
            && Parse(n, ll, dl, 3, items, [3, 11, 19, 27, 39]) && EndAt(n, ll, 39, 46)
            && Reachable([], items) && Expand([], items) == [97, 98, 99, 97, 98, 99]
  {
    hide FixedLengths, FixedDistances, SymbolAt, Stream;
    StreamAbcAbc();
    LettersAbc();
    CopyAbc();
    EndAbc();
    ThreeThenCopy();
  }

  lemma ThreeThenCopy()
    ensures var items := [Literal(97), Literal(98), Literal(99), Copy(0, 0, 2, 0)];
            Reachable([], items) && Expand([], items) == [97, 98, 99, 97, 98, 99]
  {
    hide CopyBytes, LengthBase, DistBase, Expand, Reachable;
    var a, b, c, x := Literal(97), Literal(98), Literal(99), Copy(0, 0, 2, 0);
    FirstSizes();
    ThreeBack();
    NoItems([]);
    OneMoreItem([], [], a);
    assert [] + [a] == [a] && Expand([], [a]) == [97];
    OneMoreItem([], [a], b);
    assert [a] + [b] == [a, b] && Expand([], [a, b]) == [97, 98];
    OneMoreItem([], [a, b], c);
    assert [a, b] + [c] == [a, b, c] && Expand([], [a, b, c]) == [97, 98, 99];
    OneMoreItem([], [a, b, c], x);
    assert [a, b, c] + [x] == [a, b, c, x];
  }

  lemma NoItems(out: seq<byte>)
    ensures Reachable(out, []) && Expand(out, []) == out
  {
  }

  lemma FirstSizes()
    ensures Copy(0, 0, 2, 0).Length() == 3 && Copy(0, 0, 2, 0).Distance() == 3
  {
  }

  lemma OneMoreItem(out: seq<byte>, items: seq<Item>, it: Item)
    requires Reachable(out, items) && Reaches(Expand(out, items), it)
    ensures Reachable(out, items + [it]) && Expand(out, items + [it]) == Emit(Expand(out, items), it)
  {
    hide Emit, Reaches;
    assert (items + [it])[..|items|] == items;
  }

  lemma ThreeBack()
    ensures CopyBytes([97, 98, 99], 3, 3) == [97, 98, 99, 97, 98, 99]
  {
    assert CopyBytes([97, 98, 99], 3, 1) == [97, 98, 99, 97];
    assert CopyBytes([97, 98, 99], 3, 2) == [97, 98, 99, 97, 98];
  }

  /** The four bytes of a refused block, as a number. */
  const THREE_ZEROS := 0x63 + 256 * 0x60 + 65536 * 0x60

  lemma ThreeLiterals()
    ensures Stream([0x63, 0x60, 0x60, 0x00]) == THREE_ZEROS && FixedHeader(THREE_ZEROS)
    ensures Parse(THREE_ZEROS, FixedLengths(), FixedDistances(), 3, [Literal(0), Literal(0), Literal(0)], [3, 11, 19, 27])
    ensures EndAt(THREE_ZEROS, FixedLengths(), 27, 34)
  {
    hide FixedLengths, Stream, Matches, Take, Drop, Pow2, Rev;
    var n := THREE_ZEROS;
    StreamIs(0x63, 0x60, 0x60);
    PowersOfTwo();
    BitsAt(n, 0, 1, 1, 2);
    BitsAt(n, 1, 2, 2, 4);
    BitsAt(n, 3, 8, 8, 256);
    BitsAt(n, 11, 2048, 8, 256);
    BitsAt(n, 19, 524288, 8, 256);
    BitsAt(n, 27, 134217728, 8, 256);
    LiteralZero(n, 3);
    LiteralZero(n, 11);
    LiteralZero(n, 19);
    EndIsZeroBits(n, 27);
  }

  /** The same header with three literals: the input is used up before the end-of-block symbol, and the block is refused. */
  lemma TruncatedRefused()
    ensures var input := [0x63, 0x60, 0x60, 0x00];
            var n, ll, dl, items, marks :=
              Stream(input), FixedLengths(), FixedDistances(), [Literal(0), Literal(0), Literal(0)], [3, 11, 19, 27];
            && FixedHeader(n) && Parse(n, ll, dl, 3, items, marks) && EndAt(n, ll, 27, 34) && 34 > 8 * |input|
            && !Lasts(4, Supply(32, false), ll, dl, items, marks, 34)
  {
    hide FixedLengths, FixedDistances, Stream, EndAt, Parse, FixedHeader, SupplyItems;
    ThreeLiterals();
    ThreeSupplied(FixedLengths(), FixedDistances());
  }

  lemma ThreeSupplied(ll: Lengths, dl: Lengths)
    ensures SupplyItems(4, Supply(32, false), ll, dl, [Literal(0), Literal(0), Literal(0)], [3, 11, 19, 27])
         == Some(Supply(32, true))
  {
    var z, s := Literal(0), Supply(32, false);
    assert SupplyItems(4, s, ll, dl, [], [3]) == Some(s);
    hide SupplyItems;
    SupplyNext(4, s, ll, dl, [], [3], z, 11);
    assert [] + [z] == [z] && [3] + [11] == [3, 11];
    SupplyNext(4, s, ll, dl, [z], [3, 11], z, 19);
    assert [z] + [z] == [z, z] && [3, 11] + [19] == [3, 11, 19];
    SupplyNext(4, s, ll, dl, [z, z], [3, 11, 19], z, 27);
    assert [z, z] + [z] == [z, z, z] && [3, 11, 19] + [27] == [3, 11, 19, 27];
  }
}
