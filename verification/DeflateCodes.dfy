/** What the codes of a compressed block stand for, in the numbers of sections 3.1.1, 3.2.2 and 3.2.5 of RFC 1951. */
module DeflateCodes {
  import opened Bits
  import opened Deflate
  import opened HuffmanCode
  import opened Powers

  // ---- Lengths and distances ----

  /** Each length code goes on where the one before it ends; the last one stands for 258 alone. */
  lemma LengthTable(c: nat)
    requires c < 29
    ensures LengthBase(0) == 3 && LengthBase(28) == 258
    ensures LengthExtra(c) == if c < 8 || c == 28 then 0 else (c - 4) / 4
    ensures c < 27 ==> LengthBase(c + 1) == LengthBase(c) + Pow2(LengthExtra(c))
    ensures c == 27 ==> LengthBase(c) + Pow2(LengthExtra(c)) == 259
  {
    hide Pow2;
    SmallPowers();
  }

  /** Each distance code goes on where the one before it ends. */
  lemma DistanceTable(c: nat)
    requires c < 30
    ensures DistBase(0) == 1
    ensures DistExtra(c) == if c < 4 then 0 else (c - 2) / 2
    ensures c < 29 ==> DistBase(c + 1) == DistBase(c) + Pow2(DistExtra(c))
    ensures c == 29 ==> DistBase(c) + Pow2(DistExtra(c)) == 32769
  {
    hide Pow2;
    SmallPowers();
  }

  lemma SmallPowers()
    ensures Pow2(0) == 1 && Pow2(1) == 2 && Pow2(2) == 4 && Pow2(3) == 8 && Pow2(4) == 16 && Pow2(5) == 32 && Pow2(6) == 64
    ensures Pow2(7) == 128 && Pow2(8) == 256 && Pow2(9) == 512 && Pow2(10) == 1024 && Pow2(11) == 2048
    ensures Pow2(12) == 4096 && Pow2(13) == 8192
  {
    assert Pow2(4) == 16;
    assert Pow2(8) == 256;
    assert Pow2(12) == 4096;
  }

  lemma {:induction false} LengthsApart(c: nat, d: nat)
    requires c < d < 28
    ensures LengthBase(c) + Pow2(LengthExtra(c)) <= LengthBase(d)
    decreases d
  {
    hide LengthBase, LengthExtra, Pow2;
    LengthTable(d - 1);
    if c < d - 1 { LengthsApart(c, d - 1); }
  }

  lemma {:induction false} DistancesApart(c: nat, d: nat)
    requires c < d < 30
    ensures DistBase(c) + Pow2(DistExtra(c)) <= DistBase(d)
    decreases d
  {
    hide DistBase, DistExtra, Pow2;
    DistanceTable(d - 1);
    if c < d - 1 { DistancesApart(c, d - 1); }
  }

  /** The code up to `c` that a length lies under. */
  lemma {:induction false} LengthUpTo(len: nat, c: nat) returns (d: nat)
    requires c < 28 && 3 <= len < LengthBase(c) + Pow2(LengthExtra(c))
    ensures d <= c && LengthBase(d) <= len < LengthBase(d) + Pow2(LengthExtra(d))
  {
    hide LengthBase, LengthExtra, Pow2;
    d := c;
    LengthTable(0);
    if len < LengthBase(c) {
      LengthTable(c - 1);
      d := LengthUpTo(len, c - 1);
    }
  }

  lemma {:induction false} DistanceUpTo(dist: nat, c: nat) returns (d: nat)
    requires c < 30 && 1 <= dist < DistBase(c) + Pow2(DistExtra(c))
    ensures d <= c && DistBase(d) <= dist < DistBase(d) + Pow2(DistExtra(d))
  {
    hide DistBase, DistExtra, Pow2;
    d := c;
    DistanceTable(0);
    if dist < DistBase(c) {
      DistanceTable(c - 1);
      d := DistanceUpTo(dist, c - 1);
    }
  }

  /** A copy whose extra bits have values that fit into them. */
  predicate InRange(it: Item) {
    && it.Copy? && it.Legal()
    && it.lengthExtra < Pow2(LengthExtra(it.lengthCode)) && it.distExtra < Pow2(DistExtra(it.distCode))
  }

  /** Every length from 3 to 258 and every distance from 1 to 32768 has exactly one encoding with a length code below 285. */
  lemma OneCopy(len: nat, dist: nat) returns (it: Item)
    requires 3 <= len <= 258 && 1 <= dist <= 32768
    ensures InRange(it) && it.lengthCode < 28 && it.Length() == len && it.Distance() == dist
    ensures forall other: Item :: InRange(other) && other.lengthCode < 28 && other.Length() == len && other.Distance() == dist ==>
      other == it
  {
    hide LengthBase, LengthExtra, DistBase, DistExtra, Pow2;
    LengthTable(27);
    DistanceTable(29);
    var c := LengthUpTo(len, 27);
    var d := DistanceUpTo(dist, 29);
    it := Copy(c, len - LengthBase(c), d, dist - DistBase(d));
    forall other: Item | InRange(other) && other.lengthCode < 28 && other.Length() == len && other.Distance() == dist
      ensures other == it
    {
      if other.lengthCode < c { LengthsApart(other.lengthCode, c); }
      if c < other.lengthCode { LengthsApart(c, other.lengthCode); }
      if other.distCode < d { DistancesApart(other.distCode, d); }
      if d < other.distCode { DistancesApart(d, other.distCode); }
    }
  }

  lemma InBounds(it: Item)
    requires InRange(it)
    ensures 3 <= it.Length() <= 258 && 1 <= it.Distance() <= 32768
    ensures it.lengthCode == 28 ==> it.Length() == 258
  {
    hide LengthBase, LengthExtra, DistBase, DistExtra, Pow2;
    var c, d := it.lengthCode, it.distCode;
    LengthTable(c);
    LengthTable(27);
    DistanceTable(d);
    DistanceTable(29);
    if 0 < c < 28 { LengthsApart(0, c); }
    if c < 27 { LengthsApart(c, 27); }
    if 0 < d { DistancesApart(0, d); }
    if d < 29 { DistancesApart(d, 29); }
    LengthTable(0);
    if c == 28 { assert Pow2(0) == 1 by { NoBits(); } }
    PowerPositive(LengthExtra(0));
    PowerPositive(LengthExtra(27));
    PowerPositive(DistExtra(29));
  }

  lemma NoBits()
    ensures Pow2(0) == 1
  {
  }

  lemma PowerPositive(k: nat)
    ensures Pow2(k) >= 1
  {
  }

  /** What a block can copy: 3 to 258 bytes, from 1 to 32768 bytes back. */
  lemma CopyRange(n: nat, ll: Lengths, dl: Lengths, pos: nat, it: Item, to: nat)
    requires ItemAt(n, ll, dl, pos, it, to) && it.Copy?
    ensures InRange(it) && 3 <= it.Length() <= 258 && 1 <= it.Distance() <= 32768
  {
    hide LengthBase, LengthExtra, DistBase, DistExtra, Pow2, Take, Drop, SymbolAt;
    var p1 := pos + ll[257 + it.lengthCode];
    DropTake(Drop(n, p1), LengthExtra(it.lengthCode));
    DropTake(Drop(n, p1 + LengthExtra(it.lengthCode) + dl[it.distCode]), DistExtra(it.distCode));
    InBounds(it);
  }

  // ---- Codes of symbols ----

  /** The symbols of length `s` among those from `from` on. */
  function OfLength(lens: Lengths, s: nat, from: nat): set<nat> { set i: nat | from <= i < |lens| && lens[i] == s }

  lemma {:induction false} CountIs(lens: Lengths, s: nat)
    ensures Count(lens, s) == |OfLength(lens, s, 0)|
  {
    if lens != [] {
      var n := |lens| - 1;
      CountIs(lens[..n], s);
      assert OfLength(lens, s, 0) == OfLength(lens[..n], s, 0) + if lens[n] == s then {n} else {};
    }
  }

  lemma {:induction false} CountFrom(lens: Lengths, s: nat, i: nat)
    requires i <= |lens|
    ensures Count(lens, s) == Count(lens[..i], s) + |OfLength(lens, s, i)|
  {
    CountIs(lens, s);
    CountIs(lens[..i], s);
    assert OfLength(lens, s, 0) == OfLength(lens[..i], s, 0) + OfLength(lens, s, i);
  }

  /** The code of a symbol: with the symbols of its length from it on it fills what the Kraft sum up to that length says. */
  lemma CodeIs(lens: Lengths, i: nat)
    requires i < |lens| && lens[i] > 0
    ensures Code(lens, i) + |OfLength(lens, lens[i], i)| == KraftSum(lens, lens[i])
  {
    CountFrom(lens, lens[i], i);
    KraftIsEndCode(lens, lens[i]);
  }

  /** Codes of one length are consecutive, in the order of their symbols. */
  lemma NextOfLength(lens: Lengths, i: nat, j: nat)
    requires i < j < |lens| && lens[i] == lens[j] && forall k :: i < k < j ==> lens[k] != lens[i]
    ensures Code(lens, j) == Code(lens, i) + 1
  {
    SkipOthers(lens, i + 1, j, lens[i]);
    CountStep(lens, i, lens[i]);
  }

  lemma {:induction false} SkipOthers(lens: Lengths, i: nat, j: nat, s: nat)
    requires i <= j <= |lens| && forall k :: i <= k < j ==> lens[k] != s
    ensures Count(lens[..j], s) == Count(lens[..i], s)
    decreases j
  {
    if i < j {
      SkipOthers(lens, i, j - 1, s);
      CountStep(lens, j - 1, s);
    }
  }

  /** Shorter codes come before longer ones. */
  lemma ShorterFirst(lens: Lengths, i: nat, j: nat)
    requires i < |lens| && j < |lens| && 0 < lens[i] < lens[j]
    ensures (Code(lens, i) + 1) * Pow2(lens[j] - lens[i]) <= Code(lens, j)
  {
    CountSplit(lens, i, lens[i]);
    FirstAfter(lens, lens[i], lens[j]);
    MulMono(Code(lens, i) + 1, EndCode(lens, lens[i]), Pow2(lens[j] - lens[i]));
  }

  lemma {:induction false} FirstAfter(lens: Lengths, s: nat, t: nat)
    requires 0 < s < t
    ensures EndCode(lens, s) * Pow2(t - s) <= FirstCode(lens, t)
    decreases t
  {
    if s + 1 < t {
      FirstAfter(lens, s, t - 1);
      assert EndCode(lens, s) * Pow2(t - s) == 2 * (EndCode(lens, s) * Pow2(t - 1 - s));
    } else {
      assert Pow2(1) == 2;
    }
  }

  lemma CodeFits(lens: Lengths, i: nat)
    requires LengthsOk(lens) && Accepted(lens) && i < |lens| && lens[i] > 0
    ensures Code(lens, i) < Pow2(lens[i])
  {
    CountSplit(lens, i, lens[i]);
    assert EndCode(lens, lens[i]) <= Pow2(lens[i]);
  }

  /** Bit `t` of a code of `k` bits, the first bit being the most significant. */
  function CodeBit(code: nat, k: nat, t: nat): nat
    requires t < k
  {
    BitAt(code, k - 1 - t)
  }

  /** A symbol stands where the bits of its code stand, the most significant first. */
  lemma CodeBits(n: nat, lens: Lengths, pos: nat, sym: nat, to: nat)
    requires LengthsOk(lens) && Accepted(lens) && sym < |lens|
    ensures SymbolAt(n, lens, pos, sym, to) <==>
            && lens[sym] > 0 && to == pos + lens[sym]
            && forall t: nat :: t < lens[sym] ==> BitAt(n, pos + t) == CodeBit(Code(lens, sym), lens[sym], t)
  {
    hide Accepted, Take, Drop, Rev, Code, BitAt;
    var k, c := lens[sym], Code(lens, sym);
    if k > 0 {
      CodeFits(lens, sym);
      var x := Drop(n, pos);
      RevSplit(x, k, 16 - k);
      DropTake(Rev(x, 16), 16 - k);
      RevBound(x, k);
      forall t: nat | t < k
        ensures CodeBit(Rev(x, k), k, t) == BitAt(n, pos + t)
      {
        RevBit(x, k, t);
        DropBit(n, pos, t);
      }
      if forall t: nat :: t < k ==> BitAt(n, pos + t) == CodeBit(c, k, t) {
        forall i: nat | i < k
          ensures BitAt(Rev(x, k), i) == BitAt(c, i)
        {
          var t := k - 1 - i;
          assert CodeBit(Rev(x, k), k, t) == CodeBit(c, k, t);
        }
        SameNumber(Rev(x, k), c, k);
      }
    }
  }
}
