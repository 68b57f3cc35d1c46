/** The canonical Huffman code of section 3.2.2 of RFC 1951, as intervals of 16-bit words. */
module HuffmanCode {
  import opened Bits
  import opened Powers

  const MAXBITS := 15
  const NSYMS := 288

  /** Code lengths of the symbols 0, 1, ...; 0 for a symbol that is not used. */
  type Lengths = seq<nat>

  predicate LengthsOk(lens: Lengths) { |lens| <= NSYMS && forall i :: 0 <= i < |lens| ==> lens[i] <= MAXBITS }

  /** bl_count: how many symbols have length `s`. */
  function Count(lens: Lengths, s: nat): nat {
    if lens == [] then 0
    else Count(lens[..|lens| - 1], s) + if lens[|lens| - 1] == s then 1 else 0
  }

  /** The smallest code of length `s`. */
  function FirstCode(lens: Lengths, s: nat): nat {
    if s <= 1 then 0 else 2 * (FirstCode(lens, s - 1) + Count(lens, s - 1))
  }

  /** How many symbols have a shorter, non-zero length. */
  function FirstSymbol(lens: Lengths, s: nat): nat {
    if s <= 1 then 0 else FirstSymbol(lens, s - 1) + Count(lens, s - 1)
  }

  /** One past the largest code of length `s`. */
  function EndCode(lens: Lengths, s: nat): nat { FirstCode(lens, s) + Count(lens, s) }

  /** No length has more codes than bits can tell apart. */
  predicate Accepted(lens: Lengths) { forall s :: 1 <= s <= MAXBITS ==> EndCode(lens, s) <= Pow2(s) }

  /** The canonical code of a symbol: codes of one length are consecutive, in symbol order. */
  function Code(lens: Lengths, i: nat): nat
    requires i < |lens|
  {
    FirstCode(lens, lens[i]) + Count(lens[..i], lens[i])
  }

  /** Where the symbol stands when symbols are sorted by length, then by value. */
  function Rank(lens: Lengths, i: nat): nat
    requires i < |lens|
  {
    FirstSymbol(lens, lens[i]) + Count(lens[..i], lens[i])
  }

  /** The next 16 bits, first bit most significant, start with the code of symbol `i`. */
  predicate Matches(lens: Lengths, i: nat, k: nat)
    requires LengthsOk(lens) && i < |lens|
  {
    lens[i] > 0 && k / Pow2(16 - lens[i]) == Code(lens, i)
  }

  // ---- Counting ----

  lemma {:induction false} CountSplit(lens: Lengths, i: nat, s: nat)
    requires i <= |lens|
    ensures Count(lens[..i], s) <= Count(lens, s)
    ensures i < |lens| && lens[i] == s ==> Count(lens[..i], s) < Count(lens, s)
  {
    var n := |lens| - 1;
    if i == |lens| {
      assert lens[..i] == lens;
    } else {
      assert lens[..n][..i] == lens[..i];
      if i < n {
        CountSplit(lens[..n], i, s);
      }
    }
  }

  lemma CountStep(lens: Lengths, i: nat, s: nat)
    requires i < |lens|
    ensures Count(lens[..i + 1], s) == Count(lens[..i], s) + if lens[i] == s then 1 else 0
  {
    assert lens[..i + 1][..i] == lens[..i];
  }

  /** The symbol of length `s` with `n` others of that length before it. */
  lemma {:induction false} Nth(lens: Lengths, s: nat, n: nat) returns (i: nat)
    requires n < Count(lens, s)
    ensures i < |lens| && lens[i] == s && Count(lens[..i], s) == n
  {
    var m := |lens| - 1;
    if n < Count(lens[..m], s) {
      i := Nth(lens[..m], s, n);
      assert lens[..m][..i] == lens[..i];
    } else {
      i := m;
    }
  }

  lemma {:induction false} CountOrder(lens: Lengths, i: nat, j: nat, s: nat)
    requires i < j <= |lens| && lens[i] == s
    ensures Count(lens[..i], s) < Count(lens[..j], s)
  {
    assert lens[..j][..i] == lens[..i];
    CountSplit(lens[..j], i, s);
  }

  lemma {:induction false} FirstSymbolMono(lens: Lengths, s: nat, t: nat)
    requires 1 <= s < t
    ensures FirstSymbol(lens, s) + Count(lens, s) <= FirstSymbol(lens, t)
    decreases t
  {
    if s < t - 1 { FirstSymbolMono(lens, s, t - 1); }
  }

  /** All used symbols are counted once. */
  lemma {:induction false} FirstSymbolTotal(lens: Lengths, s: nat)
    ensures FirstSymbol(lens, s) <= |lens|
    decreases |lens|
  {
    if lens == [] {
      NoSymbols(s);
    } else {
      var n := |lens| - 1;
      FirstSymbolTotal(lens[..n], s);
      FirstSymbolStep(lens, s);
    }
  }

  lemma {:induction false} NoSymbols(s: nat)
    ensures FirstSymbol([], s) == 0
  {
    if s > 1 { NoSymbols(s - 1); }
  }

  lemma {:induction false} FirstSymbolStep(lens: Lengths, s: nat)
    requires lens != []
    ensures FirstSymbol(lens, s) == FirstSymbol(lens[..|lens| - 1], s) + if 1 <= lens[|lens| - 1] < s then 1 else 0
  {
    if s > 1 { FirstSymbolStep(lens, s - 1); }
  }

  lemma RankFacts(lens: Lengths, i: nat, j: nat)
    requires LengthsOk(lens) && i < |lens| && j < |lens| && lens[i] > 0 && lens[j] > 0
    ensures FirstSymbol(lens, lens[i]) <= Rank(lens, i) < FirstSymbol(lens, lens[i]) + Count(lens, lens[i]) <= |lens|
    ensures Rank(lens, i) == Rank(lens, j) ==> i == j
  {
    CountSplit(lens, i, lens[i]);
    CountSplit(lens, j, lens[j]);
    FirstSymbolTotal(lens, lens[i] + 1);
    if lens[i] < lens[j] { FirstSymbolMono(lens, lens[i], lens[j]); }
    else if lens[j] < lens[i] { FirstSymbolMono(lens, lens[j], lens[i]); }
    else if i < j { CountOrder(lens, i, j, lens[i]); }
    else if j < i { CountOrder(lens, j, i, lens[i]); }
  }

  // ---- Intervals of 16-bit words ----

  lemma CodeStart(lens: Lengths)
    ensures FirstCode(lens, 1) == 0 && FirstSymbol(lens, 1) == 0
  {
  }

  /** What moving on to the next length does to the running values. */
  lemma CodeStep(lens: Lengths, s: nat)
    requires 1 <= s < 16
    ensures FirstCode(lens, s + 1) == EndCode(lens, s) * 2
    ensures FirstSymbol(lens, s + 1) == FirstSymbol(lens, s) + Count(lens, s)
    ensures EndCode(lens, s) == FirstCode(lens, s) + Count(lens, s)
    ensures Bound(lens, s) == EndCode(lens, s) * Pow2(16 - s)
  {
  }

  /** Words below Bound(s) are exactly those that start with a code of at most `s` bits. */
  function Bound(lens: Lengths, s: nat): nat
    requires s <= 16
  {
    EndCode(lens, s) * Pow2(16 - s)
  }

  lemma DoubleTimes(a: nat, p: nat)
    ensures (2 * a) * p == a * (2 * p)
  {
  }

  lemma BoundStep(lens: Lengths, s: nat)
    requires 1 <= s < 16
    ensures FirstCode(lens, s + 1) * Pow2(16 - (s + 1)) == Bound(lens, s)
    ensures Bound(lens, s) <= Bound(lens, s + 1)
  {
    DoubleTimes(EndCode(lens, s), Pow2(15 - s));
    MulMono(FirstCode(lens, s + 1), EndCode(lens, s + 1), Pow2(15 - s));
  }

  lemma {:induction false} BoundMono(lens: Lengths, s: nat, t: nat)
    requires 1 <= s <= t <= 16
    ensures Bound(lens, s) <= Bound(lens, t)
    decreases t
  {
    if s < t {
      BoundMono(lens, s, t - 1);
      BoundStep(lens, t - 1);
    }
  }

  /** A word that starts with a code of length `s` lies between the bounds of s-1 and s. */
  lemma MatchInterval(lens: Lengths, i: nat, k: nat)
    requires LengthsOk(lens) && i < |lens| && Matches(lens, i, k)
    ensures FirstCode(lens, lens[i]) * Pow2(16 - lens[i]) <= k < Bound(lens, lens[i])
  {
    CountSplit(lens, i, lens[i]);
    DivBounds(k, Pow2(16 - lens[i]), FirstCode(lens, lens[i]), EndCode(lens, lens[i]));
  }

  /** Prefix-freeness: no word starts with the codes of two symbols. */
  lemma PrefixFree(lens: Lengths, i: nat, j: nat, k: nat)
    requires LengthsOk(lens) && i < |lens| && j < |lens| && Matches(lens, i, k) && Matches(lens, j, k)
    ensures i == j
  {
    MatchInterval(lens, i, k);
    MatchInterval(lens, j, k);
    var s, t := lens[i], lens[j];
    if s < t {
      BoundStep(lens, t - 1);
      BoundMono(lens, s, t - 1);
    } else if t < s {
      BoundStep(lens, s - 1);
      BoundMono(lens, t, s - 1);
    } else if i < j {
      CountOrder(lens, i, j, s);
    } else if j < i {
      CountOrder(lens, j, i, s);
    }
  }

  /** Every word between two bounds starts with the code of some symbol. */
  lemma FindMatch(lens: Lengths, s: nat, k: nat) returns (i: nat)
    requires LengthsOk(lens) && 1 <= s <= MAXBITS
    requires FirstCode(lens, s) * Pow2(16 - s) <= k < Bound(lens, s)
    ensures i < |lens| && lens[i] == s && Matches(lens, i, k)
    ensures FirstCode(lens, s) <= k / Pow2(16 - s) < EndCode(lens, s)
    ensures Rank(lens, i) == k / Pow2(16 - s) - FirstCode(lens, s) + FirstSymbol(lens, s)
  {
    DivBounds(k, Pow2(16 - s), FirstCode(lens, s), EndCode(lens, s));
    i := Nth(lens, s, k / Pow2(16 - s) - FirstCode(lens, s));
  }

  lemma {:induction false} FindShort(lens: Lengths, s: nat, k: nat) returns (i: nat)
    requires LengthsOk(lens) && 1 <= s <= MAXBITS && k < Bound(lens, s)
    ensures i < |lens| && 1 <= lens[i] <= s && Matches(lens, i, k)
  {
    if k >= FirstCode(lens, s) * Pow2(16 - s) {
      i := FindMatch(lens, s, k);
    } else {
      BoundStep(lens, s - 1);
      i := FindShort(lens, s - 1, k);
    }
  }

  /** At or above the bound of `s`, no code of at most `s` bits starts the word. */
  lemma Beyond(lens: Lengths, s: nat, k: nat)
    requires LengthsOk(lens) && 1 <= s <= 16 && k >= Bound(lens, s)
    ensures forall i: nat :: i < |lens| && lens[i] <= s ==> !Matches(lens, i, k)
  {
    forall i: nat | i < |lens| && lens[i] <= s && Matches(lens, i, k)
      ensures false
    {
      MatchInterval(lens, i, k);
      BoundMono(lens, lens[i], s);
    }
  }

  // ---- The nine-bit prefix table ----

  const FAST_BITS := 9

  /** `j`, whose lowest bit is read first, starts with the code of symbol `i`, of at most nine bits. */
  predicate Short(lens: Lengths, i: nat, j: nat)
    requires i < |lens|
  {
    1 <= lens[i] <= FAST_BITS && Rev(j, lens[i]) == Code(lens, i)
  }

  /** Looking up nine bits finds exactly the symbols whose code is short and starts the word. */
  lemma ShortMatches(lens: Lengths, i: nat, w: nat)
    requires LengthsOk(lens) && i < |lens|
    ensures Short(lens, i, Take(w, FAST_BITS)) <==> lens[i] <= FAST_BITS && Matches(lens, i, Rev(w, 16))
  {
    var s := lens[i];
    if 1 <= s <= FAST_BITS {
      RevSplit(w, s, 16 - s);
      DropTake(Rev(w, 16), 16 - s);
      RevTake(w, s, FAST_BITS - s);
    }
  }

  /** The entries for a symbol are the numbers whose low bits are its reversed code. */
  lemma ShortEntries(lens: Lengths, i: nat, j: nat)
    requires LengthsOk(lens) && i < |lens| && 1 <= lens[i] <= FAST_BITS && Code(lens, i) < Pow2(lens[i])
    ensures Short(lens, i, j) <==> j % Pow2(lens[i]) == Rev(Code(lens, i), lens[i])
  {
    var s, c := lens[i], Code(lens, i);
    DropTake(j, s);
    DropTake(c, s);
    DivModIs(c, Pow2(s), 0, c);
    RevRev(j, s);
    RevRev(c, s);
    RevTake(j, s, 0);
  }

  lemma CodeFits(lens: Lengths, i: nat)
    requires LengthsOk(lens) && Accepted(lens) && i < |lens| && lens[i] > 0
    ensures FirstCode(lens, lens[i]) <= Code(lens, i) < Pow2(lens[i])
  {
    CountSplit(lens, i, lens[i]);
  }

  // ---- The Kraft inequality ----

  /** How many of the 2^s words of `s` bits start with a code of at most `s` bits. */
  function KraftSum(lens: Lengths, s: nat): nat {
    if lens == [] then 0
    else
      var x := lens[|lens| - 1];
      KraftSum(lens[..|lens| - 1], s) + if 1 <= x <= s then Pow2(s - x) else 0
  }

  lemma {:induction false} EndCodeStep(lens: Lengths, s: nat)
    requires lens != [] && s >= 1
    ensures var x := lens[|lens| - 1];
            EndCode(lens, s) == EndCode(lens[..|lens| - 1], s) + if 1 <= x <= s then Pow2(s - x) else 0
  {
    if s > 1 { EndCodeStep(lens, s - 1); }
  }

  lemma {:induction false} NoCodes(s: nat)
    ensures EndCode([], s) == 0
  {
    if s > 1 { NoCodes(s - 1); }
  }

  lemma {:induction false} KraftIsEndCode(lens: Lengths, s: nat)
    requires s >= 1
    ensures KraftSum(lens, s) == EndCode(lens, s)
  {
    if lens == [] {
      NoCodes(s);
    } else {
      EndCodeStep(lens, s);
      KraftIsEndCode(lens[..|lens| - 1], s);
    }
  }

  lemma WordsOfMaxBits()
    ensures Pow2(MAXBITS) == 32768
  {
    assert Pow2(12) == 4096;
  }

  /** The length by length test of the decoder accepts exactly the lists that meet the Kraft inequality. */
  lemma Kraft(lens: Lengths)
    ensures Accepted(lens) <==> KraftSum(lens, MAXBITS) <= Pow2(MAXBITS)
  {
    KraftIsEndCode(lens, MAXBITS);
    if EndCode(lens, MAXBITS) <= Pow2(MAXBITS) {
      forall s | 1 <= s <= MAXBITS
        ensures EndCode(lens, s) <= Pow2(s)
      {
        EarlierFits(lens, s, MAXBITS);
      }
    }
  }

  lemma {:induction false} EarlierFits(lens: Lengths, s: nat, t: nat)
    requires 1 <= s <= t && EndCode(lens, t) <= Pow2(t)
    ensures EndCode(lens, s) <= Pow2(s)
    decreases t
  {
    if s < t { EarlierFits(lens, s, t - 1); }
  }
}
