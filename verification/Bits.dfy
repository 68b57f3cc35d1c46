/** Numbers as bit strings, lowest bit first: shifting, masking and reversing. */
module Bits {
  import opened Powers

  type byte = x: int | 0 <= x < 256

  /** `n` without its `k` low bits. */
  function Drop(n: nat, k: nat): nat { if k == 0 then n else Drop(n / 2, k - 1) }

  /** The `k` low bits of `n`. */
  function Take(n: nat, k: nat): nat { if k == 0 then 0 else n % 2 + 2 * Take(n / 2, k - 1) }

  /** The `k` low bits of `n`, lowest bit first. */
  function Rev(n: nat, k: nat): nat {
    if k == 0 then 0 else (if n % 2 == 1 then Pow2(k - 1) else 0) + Rev(n / 2, k - 1)
  }

  lemma {:induction false} DropTake(n: nat, k: nat)
    ensures n == Drop(n, k) * Pow2(k) + Take(n, k) && Take(n, k) < Pow2(k)
    ensures Drop(n, k) == n / Pow2(k) && Take(n, k) == n % Pow2(k)
  {
    if k > 0 {
      DropTake(n / 2, k - 1);
      assert Drop(n, k) * Pow2(k) == 2 * (Drop(n / 2, k - 1) * Pow2(k - 1));
    }
    DivModIs(n, Pow2(k), Drop(n, k), Take(n, k));
  }

  /** A number put together from its low and high bits. */
  lemma {:induction false} Join(lo: nat, hi: nat, k: nat)
    requires lo < Pow2(k)
    ensures Take(lo + hi * Pow2(k), k) == lo && Drop(lo + hi * Pow2(k), k) == hi
  {
    DropTake(lo + hi * Pow2(k), k);
    DivModIs(lo + hi * Pow2(k), Pow2(k), hi, lo);
  }

  lemma {:induction false} DropDrop(n: nat, a: nat, b: nat)
    ensures Drop(Drop(n, a), b) == Drop(n, a + b)
  {
    if a > 0 { DropDrop(n / 2, a - 1, b); }
  }

  lemma {:induction false} TakeTake(n: nat, a: nat, b: nat)
    ensures Take(Take(n, a + b), a) == Take(n, a)
    ensures Drop(Take(n, a + b), a) == Take(Drop(n, a), b)
  {
    if a > 0 { TakeTake(n / 2, a - 1, b); }
  }

  lemma TakeSplit(n: nat, a: nat, b: nat)
    ensures Take(n, a + b) == Take(n, a) + Take(Drop(n, a), b) * Pow2(a)
  {
    TakeTake(n, a, b);
    DropTake(Take(n, a + b), a);
  }

  lemma {:induction false} DropZero(k: nat)
    ensures Drop(0, k) == 0 && Take(0, k) == 0 && Rev(0, k) == 0
  {
    if k > 0 { DropZero(k - 1); }
  }

  lemma {:induction false} RevBound(n: nat, k: nat)
    ensures Rev(n, k) < Pow2(k)
  {
    if k > 0 {
      RevBound(n / 2, k - 1);
    }
  }

  lemma {:induction false} RevSplit(n: nat, a: nat, b: nat)
    ensures Rev(n, a + b) == Rev(n, a) * Pow2(b) + Rev(Drop(n, a), b)
    ensures Drop(Rev(n, a + b), b) == Rev(n, a)
  {
    RevSplitSum(n, a, b);
    RevBound(Drop(n, a), b);
    Join(Rev(Drop(n, a), b), Rev(n, a), b);
  }

  lemma {:induction false} RevSplitSum(n: nat, a: nat, b: nat)
    ensures Rev(n, a + b) == Rev(n, a) * Pow2(b) + Rev(Drop(n, a), b)
  {
    if a > 0 {
      RevSplitSum(n / 2, a - 1, b);
      Pow2Add(a - 1, b);
      assert (Pow2(a - 1) + Rev(n / 2, a - 1)) * Pow2(b) == Pow2(a - 1) * Pow2(b) + Rev(n / 2, a - 1) * Pow2(b);
    }
  }

  lemma {:induction false} RevTake(n: nat, a: nat, b: nat)
    ensures Rev(Take(n, a + b), a) == Rev(n, a)
  {
    if a > 0 { RevTake(n / 2, a - 1, b); }
  }

  /** The highest bit comes out lowest. */
  lemma {:induction false} RevHigh(r: nat, x: bool, k: nat)
    requires r < Pow2(k)
    ensures Rev(r + (if x then Pow2(k) else 0), k + 1) == 2 * Rev(r, k) + if x then 1 else 0
  {
    if k > 0 {
      var y := r + if x then Pow2(k) else 0;
      assert y % 2 == r % 2 && y / 2 == r / 2 + if x then Pow2(k - 1) else 0;
      RevHigh(r / 2, x, k - 1);
      RevTwo(y, k);
      RevTwo(r, k - 1);
    }
  }

  lemma RevTwo(n: nat, k: nat)
    ensures Rev(n, k + 1) == (if n % 2 == 1 then Pow2(k) else 0) + Rev(n / 2, k)
  {
  }

  /** Reversing twice gives the low bits back. */
  lemma {:induction false} RevRev(n: nat, k: nat)
    ensures Rev(Rev(n, k), k) == Take(n, k)
  {
    if k > 0 {
      var r := Rev(n / 2, k - 1);
      RevBound(n / 2, k - 1);
      RevHigh(r, n % 2 == 1, k - 1);
      RevRev(n / 2, k - 1);
      assert Rev(n, k) == r + if n % 2 == 1 then Pow2(k - 1) else 0;
    }
  }

  // ---- Single bits ----

  /** Bit `i` of `n`, the lowest being bit 0. */
  function BitAt(n: nat, i: nat): nat { n / Pow2(i) % 2 }

  lemma BitOfDrop(n: nat, i: nat)
    ensures BitAt(n, i) == Drop(n, i) % 2
  {
    DropTake(n, i);
  }

  lemma DropBit(n: nat, k: nat, i: nat)
    ensures BitAt(Drop(n, k), i) == BitAt(n, k + i)
  {
    BitOfDrop(Drop(n, k), i);
    BitOfDrop(n, k + i);
    DropDrop(n, k, i);
  }

  lemma {:induction false} TakeBit(n: nat, k: nat, i: nat)
    ensures BitAt(Take(n, k), i) == if i < k then BitAt(n, i) else 0
  {
    hide BitAt;
    BitOfDrop(Take(n, k), i);
    BitOfDrop(n, i);
    TakeDropBit(n, k, i);
  }

  lemma {:induction false} TakeDropBit(n: nat, k: nat, i: nat)
    ensures Drop(Take(n, k), i) % 2 == if i < k then Drop(n, i) % 2 else 0
  {
    if k == 0 {
      DropZero(i);
    } else {
      TakeHalf(n, k);
      if i > 0 { TakeDropBit(n / 2, k - 1, i - 1); }
    }
  }

  lemma TakeHalf(n: nat, k: nat)
    requires k > 0
    ensures Take(n, k) / 2 == Take(n / 2, k - 1) && Take(n, k) % 2 == n % 2
  {
  }

  /** The bits of a number put together from low and high bits. */
  lemma JoinBit(lo: nat, hi: nat, k: nat, i: nat)
    requires lo < Pow2(k)
    ensures BitAt(lo + hi * Pow2(k), i) == if i < k then BitAt(lo, i) else BitAt(hi, i - k)
  {
    hide Take, Drop, Pow2, BitAt;
    Join(lo, hi, k);
    Join(lo, 0, k);
    var n := lo + hi * Pow2(k);
    if i < k {
      TakeBit(n, k, i);
      TakeBit(lo, k, i);
    } else {
      DropBit(n, k, i - k);
    }
  }

  /** Numbers of `k` bits with the same bits are the same. */
  lemma {:induction false} SameNumber(x: nat, y: nat, k: nat)
    requires x < Pow2(k) && y < Pow2(k) && forall i: nat :: i < k ==> BitAt(x, i) == BitAt(y, i)
    ensures x == y
  {
    if k > 0 {
      assert BitAt(x, 0) == x % 2 && BitAt(y, 0) == y % 2;
      forall i: nat | i < k - 1
        ensures BitAt(x / 2, i) == BitAt(y / 2, i)
      {
        HalfBit(x, i);
        HalfBit(y, i);
        assert BitAt(x, i + 1) == BitAt(y, i + 1);
      }
      SameNumber(x / 2, y / 2, k - 1);
    }
  }

  lemma HalfBit(n: nat, i: nat)
    ensures BitAt(n / 2, i) == BitAt(n, i + 1)
  {
    BitOfDrop(n / 2, i);
    BitOfDrop(n, i + 1);
  }

  /** Reversing `k` bits puts bit `t` where bit `k - 1 - t` was. */
  lemma {:induction false} RevBit(n: nat, k: nat, t: nat)
    requires t < k
    ensures BitAt(Rev(n, k), k - 1 - t) == BitAt(n, t)
  {
    hide BitAt;
    var r := Rev(n / 2, k - 1);
    RevBound(n / 2, k - 1);
    RevTwo(n, k - 1);
    var top := if n % 2 == 1 then 1 else 0;
    assert Rev(n, k) == r + top * Pow2(k - 1);
    JoinBit(r, top, k - 1, k - 1 - t);
    if t == 0 {
      LowBit(n);
      LowBit(top);
    } else {
      RevBit(n / 2, k - 1, t - 1);
      HalfBit(n, t - 1);
    }
  }

  lemma LowBit(n: nat)
    ensures BitAt(n, 0) == n % 2
  {
  }

  // ---- The mask-and-shift reversal of a 16-bit word ----

  /** The bits of a number, lowest first. */
  function Low(n: nat, k: nat): (b: seq<bool>)
    ensures |b| == k
  {
    if k == 0 then [] else [n % 2 == 1] + Low(n / 2, k - 1)
  }

  function Number(b: seq<bool>): nat {
    if b == [] then 0 else (if b[0] then 1 else 0) + 2 * Number(b[1..])
  }

  function Backwards(b: seq<bool>): seq<bool> { if b == [] then [] else Backwards(b[1..]) + [b[0]] }

  /** Whether `w` has the bit of `mask`. */
  predicate Bit(w: bv16, mask: bv16) { w & mask != 0 }

  predicate OneByte(w: bv16) { w & 0xFF00 == 0 }

  function Mask(i: nat): bv16 { if i == 0 then 1 else Mask(i - 1) << 1 }

  function Flag(b: bool, mask: bv16): bv16 { if b then mask else 0 }

  function Byte(b0: bool, b1: bool, b2: bool, b3: bool, b4: bool, b5: bool, b6: bool, b7: bool): bv16 {
    Flag(b0, 0x1) | Flag(b1, 0x2) | Flag(b2, 0x4) | Flag(b3, 0x8)
    | Flag(b4, 0x10) | Flag(b5, 0x20) | Flag(b6, 0x40) | Flag(b7, 0x80)
  }

  function Glue(lo: bv16, hi: bv16): bv16 { lo | (hi << 8) }

  /** The machine word with the given bits, and back. */
  function Word(b: seq<bool>): bv16
    requires |b| == 16
  {
    Glue(Byte(b[0], b[1], b[2], b[3], b[4], b[5], b[6], b[7]),
         Byte(b[8], b[9], b[10], b[11], b[12], b[13], b[14], b[15]))
  }

  function WordBits(w: bv16): seq<bool> { seq(16, i requires 0 <= i => Bit(w, Mask(i))) }

  /** Exchanges neighbouring bits, pairs, nibbles and bytes in turn. */
  function SwapAll(w: bv16): bv16 {
    var w1 := ((w & 0xAAAA) >> 1) | ((w & 0x5555) << 1);
    var w2 := ((w1 & 0xCCCC) >> 2) | ((w1 & 0x3333) << 2);
    var w3 := ((w2 & 0xF0F0) >> 4) | ((w2 & 0x0F0F) << 4);
    ((w3 & 0xFF00) >> 8) | ((w3 & 0x00FF) << 8)
  }

  function BitReverse16(n: nat): nat { Number(WordBits(SwapAll(Word(Low(n, 16))))) }

  function BitReverse(v: nat, bits: nat): nat
    requires bits <= 16
  {
    Drop(BitReverse16(v), 16 - bits)
  }

  lemma {:induction false} NumberAppend(b: seq<bool>, x: bool)
    ensures Number(b + [x]) == Number(b) + if x then Pow2(|b|) else 0
  {
    if b != [] {
      NumberAppend(b[1..], x);
      assert (b + [x])[1..] == b[1..] + [x];
    }
  }

  lemma {:induction false} BackwardsRev(n: nat, k: nat)
    ensures |Backwards(Low(n, k))| == k && Number(Backwards(Low(n, k))) == Rev(n, k)
  {
    if k > 0 {
      BackwardsRev(n / 2, k - 1);
      assert Low(n, k)[1..] == Low(n / 2, k - 1);
      NumberAppend(Backwards(Low(n / 2, k - 1)), n % 2 == 1);
    }
  }

  lemma {:induction false} BackwardsAt(b: seq<bool>)
    ensures |Backwards(b)| == |b|
    ensures forall i :: 0 <= i < |b| ==> Backwards(b)[i] == b[|b| - 1 - i]
  {
    if b != [] { BackwardsAt(b[1..]); }
  }

  lemma MaskIs()
    ensures Mask(0) == 0x1 && Mask(1) == 0x2 && Mask(2) == 0x4 && Mask(3) == 0x8
    ensures Mask(4) == 0x10 && Mask(5) == 0x20 && Mask(6) == 0x40 && Mask(7) == 0x80
    ensures Mask(8) == 0x100 && Mask(9) == 0x200 && Mask(10) == 0x400 && Mask(11) == 0x800
    ensures Mask(12) == 0x1000 && Mask(13) == 0x2000 && Mask(14) == 0x4000 && Mask(15) == 0x8000
  {
  }

  lemma ByteBits(b0: bool, b1: bool, b2: bool, b3: bool, b4: bool, b5: bool, b6: bool, b7: bool)
    ensures var w := Byte(b0, b1, b2, b3, b4, b5, b6, b7);
            && OneByte(w)
            && Bit(w, 0x1) == b0 && Bit(w, 0x2) == b1 && Bit(w, 0x4) == b2 && Bit(w, 0x8) == b3
            && Bit(w, 0x10) == b4 && Bit(w, 0x20) == b5 && Bit(w, 0x40) == b6 && Bit(w, 0x80) == b7
  {
  }

  lemma GlueLow(lo: bv16, hi: bv16)
    requires OneByte(lo)
    ensures var w := Glue(lo, hi);
            && Bit(w, 0x1) == Bit(lo, 0x1) && Bit(w, 0x2) == Bit(lo, 0x2)
            && Bit(w, 0x4) == Bit(lo, 0x4) && Bit(w, 0x8) == Bit(lo, 0x8)
            && Bit(w, 0x10) == Bit(lo, 0x10) && Bit(w, 0x20) == Bit(lo, 0x20)
            && Bit(w, 0x40) == Bit(lo, 0x40) && Bit(w, 0x80) == Bit(lo, 0x80)
  {
  }

  lemma GlueHigh(lo: bv16, hi: bv16)
    requires OneByte(lo)
    ensures var w := Glue(lo, hi);
            && Bit(w, 0x100) == Bit(hi, 0x1) && Bit(w, 0x200) == Bit(hi, 0x2)
            && Bit(w, 0x400) == Bit(hi, 0x4) && Bit(w, 0x800) == Bit(hi, 0x8)
            && Bit(w, 0x1000) == Bit(hi, 0x10) && Bit(w, 0x2000) == Bit(hi, 0x20)
            && Bit(w, 0x4000) == Bit(hi, 0x40) && Bit(w, 0x8000) == Bit(hi, 0x80)
  {
  }

  lemma SwapAllBit(w: bv16)
    ensures var r := SwapAll(w);
            && Bit(r, 0x1) == Bit(w, 0x8000) && Bit(r, 0x2) == Bit(w, 0x4000)
            && Bit(r, 0x4) == Bit(w, 0x2000) && Bit(r, 0x8) == Bit(w, 0x1000)
            && Bit(r, 0x10) == Bit(w, 0x800) && Bit(r, 0x20) == Bit(w, 0x400)
            && Bit(r, 0x40) == Bit(w, 0x200) && Bit(r, 0x80) == Bit(w, 0x100)
            && Bit(r, 0x100) == Bit(w, 0x80) && Bit(r, 0x200) == Bit(w, 0x40)
            && Bit(r, 0x400) == Bit(w, 0x20) && Bit(r, 0x800) == Bit(w, 0x10)
            && Bit(r, 0x1000) == Bit(w, 0x8) && Bit(r, 0x2000) == Bit(w, 0x4)
            && Bit(r, 0x4000) == Bit(w, 0x2) && Bit(r, 0x8000) == Bit(w, 0x1)
  {
  }

  lemma WordLow(b: seq<bool>)
    requires |b| == 16
    ensures var w := Word(b);
            && Bit(w, 0x1) == b[0] && Bit(w, 0x2) == b[1] && Bit(w, 0x4) == b[2] && Bit(w, 0x8) == b[3]
            && Bit(w, 0x10) == b[4] && Bit(w, 0x20) == b[5] && Bit(w, 0x40) == b[6] && Bit(w, 0x80) == b[7]
  {
    hide Byte, Glue, Bit, OneByte;
    ByteBits(b[0], b[1], b[2], b[3], b[4], b[5], b[6], b[7]);
    GlueLow(Byte(b[0], b[1], b[2], b[3], b[4], b[5], b[6], b[7]),
            Byte(b[8], b[9], b[10], b[11], b[12], b[13], b[14], b[15]));
  }

  lemma WordHigh(b: seq<bool>)
    requires |b| == 16
    ensures var w := Word(b);
            && Bit(w, 0x100) == b[8] && Bit(w, 0x200) == b[9] && Bit(w, 0x400) == b[10] && Bit(w, 0x800) == b[11]
            && Bit(w, 0x1000) == b[12] && Bit(w, 0x2000) == b[13] && Bit(w, 0x4000) == b[14] && Bit(w, 0x8000) == b[15]
  {
    hide Byte, Glue, Bit, OneByte;
    ByteBits(b[0], b[1], b[2], b[3], b[4], b[5], b[6], b[7]);
    ByteBits(b[8], b[9], b[10], b[11], b[12], b[13], b[14], b[15]);
    GlueHigh(Byte(b[0], b[1], b[2], b[3], b[4], b[5], b[6], b[7]),
             Byte(b[8], b[9], b[10], b[11], b[12], b[13], b[14], b[15]));
  }

  lemma WordAt(b: seq<bool>, i: nat)
    requires |b| == 16 && i < 16
    ensures Bit(Word(b), Mask(i)) == b[i]
  {
    hide Word, Bit, Mask;
    MaskIs();
    WordLow(b);
    WordHigh(b);
    assert || i == 0 || i == 1 || i == 2 || i == 3 || i == 4 || i == 5 || i == 6 || i == 7
           || i == 8 || i == 9 || i == 10 || i == 11 || i == 12 || i == 13 || i == 14 || i == 15;
  }

  lemma WordBitsWord(b: seq<bool>)
    requires |b| == 16
    ensures WordBits(Word(b)) == b
  {
    hide Word, Bit, Mask;
    forall i | 0 <= i < 16
      ensures Bit(Word(b), Mask(i)) == b[i]
    {
      WordAt(b, i);
    }
  }

  lemma SwapAllAt(w: bv16, i: nat)
    requires i < 16
    ensures Bit(SwapAll(w), Mask(i)) == Bit(w, Mask(15 - i))
  {
    hide SwapAll, Bit, Mask;
    MaskIs();
    SwapAllBit(w);
  }

  lemma SwapAllBits(w: bv16)
    ensures WordBits(SwapAll(w)) == Backwards(WordBits(w))
  {
    hide SwapAll, Bit, Backwards, Mask;
    BackwardsAt(WordBits(w));
    forall i | 0 <= i < 16
      ensures WordBits(SwapAll(w))[i] == Backwards(WordBits(w))[i]
    {
      SwapAllAt(w, i);
    }
  }

  /** The bit trick reverses the low 16 bits; shifted down, it reverses a number of `bits` bits. */
  lemma BitReverseIs(v: nat, bits: nat)
    requires bits <= 16
    ensures BitReverse16(v) == Rev(v, 16)
    ensures bits == 16 || v < Pow2(bits) ==> BitReverse(v, bits) == Rev(v, bits)
  {
    hide Low, Word, WordBits, SwapAll, Number, Backwards, Rev;
    WordBitsWord(Low(v, 16));
    SwapAllBits(Word(Low(v, 16)));
    BackwardsRev(v, 16);
    RevSplit(v, bits, 16 - bits);
  }
}
