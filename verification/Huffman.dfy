/** Decoding tables for a Huffman code: a nine-bit fast table and a slow path by length. */
module Huffman {
  import opened Bits
  import opened HuffmanCode
  import opened Powers

  class HuffmanTable {
    const fast: array<nat>
    const firstcode: array<nat>
    const maxcode: array<nat>
    const firstsymbol: array<nat>
    const size: array<nat>
    const value: array<nat>
    ghost const Repr: set<object>

    ghost predicate Shaped() {
      && Repr == {fast, firstcode, maxcode, firstsymbol, size, value}
      && fast.Length == 512 && firstcode.Length == 16 && maxcode.Length == 17
      && firstsymbol.Length == 16 && size.Length == 288 && value.Length == 288
      && firstcode != firstsymbol && size != value
    }

    constructor ()
      ensures Shaped() && fresh(Repr)
    {
      fast := new nat[512];
      firstcode := new nat[16];
      maxcode := new nat[17];
      firstsymbol := new nat[16];
      size := new nat[NSYMS];
      value := new nat[NSYMS];
      Repr := {fast, firstcode, maxcode, firstsymbol, size, value};
    }

    // ---- What the tables hold ----

    /** Entries for lengths below `s`. */
    ghost predicate Coded(lens: Lengths, s: nat)
      requires Shaped() && s <= 16
      reads firstcode, maxcode, firstsymbol
    {
      forall t :: 1 <= t < s ==>
        firstcode[t] == FirstCode(lens, t) && maxcode[t] == Bound(lens, t) && firstsymbol[t] == FirstSymbol(lens, t)
    }

    /** Symbols below `n` are listed at their rank. */
    ghost predicate Listed(lens: Lengths, n: nat)
      requires Shaped() && LengthsOk(lens) && n <= |lens|
      reads size, value
    {
      forall i: nat :: i < n && lens[i] > 0 ==>
        Rank(lens, i) < NSYMS && value[Rank(lens, i)] == i && size[Rank(lens, i)] == lens[i]
    }

    /** A fast entry names a symbol below `n` with a short code, or there is none. */
    ghost predicate Entry(lens: Lengths, n: nat, j: nat, v: nat)
      requires n <= |lens|
    {
      if v == 0 then forall i: nat :: i < n ==> !Short(lens, i, j)
      else v % 512 < n && v / 512 == lens[v % 512] && Short(lens, v % 512, j)
    }

    ghost predicate Indexed(lens: Lengths, n: nat)
      requires Shaped() && n <= |lens|
      reads fast
    {
      forall j: nat :: j < 512 ==> Entry(lens, n, j, fast[j])
    }

    /** The tables decode the canonical code of `lens`. */
    ghost predicate Decodes(lens: Lengths)
      reads Repr
    {
      && Shaped() && LengthsOk(lens) && Accepted(lens)
      && Coded(lens, 16) && maxcode[16] == 0x1_0000
      && Listed(lens, |lens|) && Indexed(lens, |lens|)
    }

    // ---- Building ----

    static method CountLengths(lens: Lengths) returns (sizes: array<nat>)
      requires LengthsOk(lens)
      ensures fresh(sizes) && sizes.Length == 17
      ensures sizes[0] == 0 && forall s :: 1 <= s < 17 ==> sizes[s] == Count(lens, s)
    {
      sizes := new nat[17](i => 0);
      for i := 0 to |lens|
        invariant forall s :: 0 <= s < 17 ==> sizes[s] == Count(lens[..i], s)
      {
        forall s: nat | s < 17
          ensures Count(lens[..i + 1], s) == Count(lens[..i], s) + if lens[i] == s then 1 else 0
        {
          CountStep(lens, i, s);
        }
        sizes[lens[i]] := sizes[lens[i]] + 1;
      }
      assert lens[..|lens|] == lens;
      sizes[0] := 0;
    }

    method AssignCodes(ghost lens: Lengths, sizes: array<nat>) returns (ok: bool, nextCode: array<nat>)
      requires Shaped() && LengthsOk(lens) && sizes.Length == 17
      requires forall s :: 1 <= s < 16 ==> sizes[s] == Count(lens, s)
      requires sizes != firstcode && sizes != maxcode && sizes != firstsymbol
      modifies firstcode, maxcode, firstsymbol
      ensures ok <==> Accepted(lens)
      ensures ok ==> Coded(lens, 16) && maxcode[16] == 0x1_0000
      ensures fresh(nextCode) && nextCode.Length == 16
      ensures ok ==> forall s :: 1 <= s < 16 ==> nextCode[s] == FirstCode(lens, s)
    {
      CodeStart(lens);
      hide FirstCode, FirstSymbol, EndCode, Count, Bound, Pow2;
      FirstOfAll(lens);
      hide Coded;
      nextCode := new nat[16];
      var code, k := 0, 0;
      for i := 1 to 16
        invariant code == FirstCode(lens, i) && k == FirstSymbol(lens, i)
        invariant i < 16 ==> code <= 32768
        invariant forall t :: 1 <= t < i ==> EndCode(lens, t) <= Pow2(t)
        invariant Coded(lens, i)
        invariant forall t :: 1 <= t < i ==> nextCode[t] == FirstCode(lens, t)
        invariant forall s :: 1 <= s < 16 ==> sizes[s] == Count(lens, s)
      {
        FirstSymbolTotal(lens, i);
        CodeStep(lens, i);
        FirstFits(lens, i);
        nextCode[i] := code;
        SetFirst(lens, i, code, k);
        code := code + sizes[i];
        if sizes[i] != 0 && code - 1 >= Pow2(i) {
          return false, nextCode;
        }
        SetEnd(lens, i, code);
        CodeBound(lens, i);
        code := code * 2;
        k := k + sizes[i];
      }
      maxcode[16] := 0x1_0000;
      ok := true;
    }

    method SetFirst(ghost lens: Lengths, i: nat, code: nat, k: nat)
      requires Shaped() && 1 <= i < 16 && Coded(lens, i)
      requires code == FirstCode(lens, i) <= 32768 && k == FirstSymbol(lens, i) <= NSYMS
      modifies firstcode, firstsymbol
      ensures Coded(lens, i)
      ensures firstcode[i] == FirstCode(lens, i) && firstsymbol[i] == FirstSymbol(lens, i)
    {
      firstcode[i] := code % 0x1_0000;
      firstsymbol[i] := k % 0x1_0000;
    }

    method SetEnd(ghost lens: Lengths, i: nat, code: nat)
      requires Shaped() && 1 <= i < 16 && Coded(lens, i) && code == EndCode(lens, i)
      requires firstcode[i] == FirstCode(lens, i) && firstsymbol[i] == FirstSymbol(lens, i)
      modifies maxcode
      ensures Coded(lens, i + 1)
    {
      CodeStep(lens, i);
      maxcode[i] := code * Pow2(16 - i);
    }

    /** Every entry whose low `s` bits are `j` gets `v`. */
    method FillFast(j: nat, s: nat, v: nat)
      requires Shaped() && s <= FAST_BITS && j < Pow2(s)
      modifies fast
      ensures forall x: nat :: x < 512 ==> fast[x] == if EndsIn(x, Pow2(s), j) then v else old(fast[x])
    {
      var p := Pow2(s);
      FirstEndsIn(j, p);
      hide EndsIn, Pow2;
      var x := j;
      while x < 512
        invariant EndsIn(x, p, j)
        invariant forall y: nat :: y < 512 ==> fast[y] == if y < x && EndsIn(y, p, j) then v else old(fast[y])
        decreases 512 - x
      {
        fast[x] := v;
        NextEndsIn(x, p, j);
        x := x + p;
      }
    }

    method FillSymbols(lens: Lengths, nextCode: array<nat>)
      requires Shaped() && LengthsOk(lens) && Accepted(lens) && Coded(lens, 16) && nextCode.Length == 16
      requires forall s :: 1 <= s < 16 ==> nextCode[s] == FirstCode(lens, s)
      requires forall j :: 0 <= j < 512 ==> fast[j] == 0
      requires nextCode != firstcode && nextCode != firstsymbol
      modifies fast, size, value, nextCode
      ensures Listed(lens, |lens|) && Indexed(lens, |lens|)
      ensures Coded(lens, 16)
    {
      NothingYet(lens);
      NextStart(lens, nextCode[..]);
      hide Listed, Indexed, Accepted, Coded, Next, Rank, Code;
      for i := 0 to |lens|
        invariant Next(lens, i, nextCode[..])
        invariant Coded(lens, 16) && Listed(lens, i) && Indexed(lens, i)
      {
        FillSymbol(lens, i, nextCode);
      }
    }

    method FillSymbol(lens: Lengths, i: nat, nextCode: array<nat>)
      requires Shaped() && LengthsOk(lens) && Accepted(lens) && Coded(lens, 16) && nextCode.Length == 16
      requires nextCode != firstcode && nextCode != firstsymbol
      requires i < |lens| && Next(lens, i, nextCode[..]) && Listed(lens, i) && Indexed(lens, i)
      modifies fast, size, value, nextCode
      ensures Next(lens, i + 1, nextCode[..]) && Listed(lens, i + 1) && Indexed(lens, i + 1)
      ensures Coded(lens, 16)
    {
      hide Listed, Indexed, Accepted, Coded, Next, Rank, Code;
      var s := lens[i];
      ghost var next := nextCode[..];
      NextStep(lens, i, next);
      if s != 0 {
        RankIs(lens, i);
        var c := nextCode[s] - firstcode[s] + firstsymbol[s];
        PlaceSymbol(lens, i, c, nextCode[s]);
        assert nextCode[..] == next;
        nextCode[s] := nextCode[s] + 1;
        assert nextCode[..] == next[s := next[s] + 1];
      } else {
        SkipList(lens, i);
        SkipIndex(lens, i);
      }
    }

    lemma RankIs(lens: Lengths, i: nat)
      requires Shaped() && LengthsOk(lens) && Coded(lens, 16) && i < |lens| && lens[i] > 0
      ensures firstcode[lens[i]] <= Code(lens, i)
      ensures Rank(lens, i) == Code(lens, i) - firstcode[lens[i]] + firstsymbol[lens[i]]
    {
    }

    method PlaceSymbol(lens: Lengths, i: nat, c: nat, code: nat)
      requires Shaped() && LengthsOk(lens) && Accepted(lens) && i < |lens| && lens[i] > 0
      requires c == Rank(lens, i) && code == Code(lens, i)
      requires Listed(lens, i) && Indexed(lens, i)
      modifies fast, size, value
      ensures Listed(lens, i + 1) && Indexed(lens, i + 1)
    {
      hide Listed, Indexed, Accepted, Rank, Code;
      ListSymbol(lens, i, c);
      if lens[i] <= FAST_BITS {
        IndexSymbol(lens, i, code);
      } else {
        SkipIndex(lens, i);
      }
    }

    method ListSymbol(lens: Lengths, i: nat, c: nat)
      requires Shaped() && LengthsOk(lens) && i < |lens| && lens[i] > 0
      requires c == Rank(lens, i) && Listed(lens, i)
      modifies size, value
      ensures Listed(lens, i + 1)
    {
      RankFacts(lens, i, i);
      forall j: nat | j < i && lens[j] > 0
        ensures Rank(lens, j) != Rank(lens, i)
      {
        RankFacts(lens, i, j);
      }
      hide Rank;
      size[c] := lens[i] % 256;
      value[c] := i % 0x1_0000;
    }

    method IndexSymbol(lens: Lengths, i: nat, code: nat)
      requires Shaped() && LengthsOk(lens) && Accepted(lens) && i < |lens| && 0 < lens[i] <= FAST_BITS
      requires code == Code(lens, i) && Indexed(lens, i)
      modifies fast
      ensures Indexed(lens, i + 1)
    {
      var s := lens[i];
      hide BitReverse, BitReverse16, Code, Rev, Pow2, Entry, Accepted;
      CodeFits(lens, i);
      BitReverseIs(code, s);
      RevBound(code, s);
      ghost var before := fast[..];
      var fastv := (s * 512 + i) % 0x1_0000;
      FillFast(BitReverse(code, s), s, fastv);
      IndexedStep(lens, i, before, fastv);
    }

    lemma FirstOfAll(lens: Lengths)
      requires Shaped()
      ensures Coded(lens, 1)
    {
    }

    lemma NothingYet(lens: Lengths)
      requires Shaped() && LengthsOk(lens) && forall j :: 0 <= j < 512 ==> fast[j] == 0
      ensures Listed(lens, 0) && Indexed(lens, 0)
    {
    }

    lemma IndexedStep(lens: Lengths, i: nat, before: seq<nat>, v: nat)
      requires Shaped() && LengthsOk(lens) && Accepted(lens) && i < |lens| && 0 < lens[i] <= FAST_BITS
      requires |before| == 512 && forall j: nat :: j < 512 ==> Entry(lens, i, j, before[j])
      requires v == lens[i] * 512 + i
      requires forall j: nat :: j < 512 ==>
        fast[j] == if EndsIn(j, Pow2(lens[i]), Rev(Code(lens, i), lens[i])) then v else before[j]
      ensures Indexed(lens, i + 1)
    {
      CodeFits(lens, i);
      hide Code, Rev, Pow2, Short, Accepted, Entry;
      forall j: nat | j < 512
        ensures Entry(lens, i + 1, j, fast[j])
      {
        ShortEntries(lens, i, j);
        EntryStep(lens, i, j, before[j]);
      }
    }

    lemma EntryStep(lens: Lengths, i: nat, j: nat, v: nat)
      requires i < |lens| && i < 512 && Entry(lens, i, j, v)
      ensures !Short(lens, i, j) ==> Entry(lens, i + 1, j, v)
      ensures Short(lens, i, j) ==> Entry(lens, i + 1, j, lens[i] * 512 + i)
    {
      DivModIs(lens[i] * 512 + i, 512, lens[i], i);
    }

    lemma SkipIndex(lens: Lengths, i: nat)
      requires Shaped() && LengthsOk(lens) && i < |lens| && (lens[i] == 0 || lens[i] > FAST_BITS)
      requires Indexed(lens, i)
      ensures Indexed(lens, i + 1)
    {
      forall j: nat | j < 512
        ensures Entry(lens, i + 1, j, fast[j])
      {
        EntryStep(lens, i, j, fast[j]);
      }
    }

    lemma SkipList(lens: Lengths, i: nat)
      requires Shaped() && LengthsOk(lens) && i < |lens| && lens[i] == 0
      requires Listed(lens, i)
      ensures Listed(lens, i + 1)
    {
    }

    /** The tables are built exactly for the code lengths that meet the Kraft inequality. */
    method Build(lens: Lengths) returns (ok: bool)
      requires Shaped() && LengthsOk(lens)
      modifies fast, firstcode, maxcode, firstsymbol, size, value
      ensures ok <==> KraftSum(lens, 15) <= 32768
      ensures ok ==> Decodes(lens)
    {
      Kraft(lens);
      WordsOfMaxBits();
      hide KraftSum, Coded, Listed, Indexed, Pow2, FirstCode;
      var sizes := CountLengths(lens);
      ClearFast();
      ok := EachFits(lens, sizes);
      if ok {
        var nextCode;
        ok, nextCode := AssignCodes(lens, sizes);
        if ok {
          FillSymbols(lens, nextCode);
        }
      }
    }

    method ClearFast()
      requires Shaped()
      modifies fast
      ensures forall j :: 0 <= j < 512 ==> fast[j] == 0
    {
      for j := 0 to 512
        invariant forall x :: 0 <= x < j ==> fast[x] == 0
      {
        fast[j] := 0;
      }
    }

    /** A count too large by itself already breaks the inequality. */
    static method EachFits(ghost lens: Lengths, sizes: array<nat>) returns (ok: bool)
      requires sizes.Length == 17 && forall s :: 1 <= s < 16 ==> sizes[s] == Count(lens, s)
      ensures !ok ==> !Accepted(lens)
    {
      for i := 1 to 16 {
        if sizes[i] > Pow2(i) {
          assert EndCode(lens, i) > Pow2(i);
          return false;
        }
      }
      return true;
    }

    // ---- Looking up ----

    /** The fast path: the entry for the nine low bits, 0 if no code of at most nine bits starts them. */
    method FastEntry(w: nat, ghost lens: Lengths) returns (b: nat)
      requires Decodes(lens)
      ensures b != 0 ==> b % 512 < |lens| && b / 512 == lens[b % 512] && Matches(lens, b % 512, Rev(w, 16))
      ensures b == 0 ==> forall i: nat :: i < |lens| && lens[i] <= FAST_BITS ==> !Matches(lens, i, Rev(w, 16))
    {
      LowNine(w);
      hide Take, Rev, Matches, Listed, Coded, Accepted;
      b := fast[w % 512];
      forall i: nat | i < |lens|
        ensures Short(lens, i, w % 512) <==> lens[i] <= FAST_BITS && Matches(lens, i, Rev(w, 16))
      {
        ShortMatches(lens, i, w);
      }
    }

    /** The slow path: compares the next 16 bits, first bit most significant, with the end of each length. */
    method SlowSymbol(k: nat, ghost lens: Lengths) returns (sym: int, s: nat)
      requires Decodes(lens) && k < 0x1_0000
      requires forall i: nat :: i < |lens| && lens[i] <= FAST_BITS ==> !Matches(lens, i, k)
      ensures sym == -1 || (0 <= sym < |lens| && Matches(lens, sym, k) && s == lens[sym])
      ensures sym == -1 ==> forall i: nat :: i < |lens| ==> !Matches(lens, i, k)
    {
      NotShort(lens, k);
      hide Matches, Listed, Indexed, Accepted, Bound;
      s := FindLength(k, lens);
      if s >= 16 {
        Beyond(lens, MAXBITS, k);
        return -1, s;
      }
      sym := SymbolAt(k, s, lens);
    }

    method FindLength(k: nat, ghost lens: Lengths) returns (s: nat)
      requires Shaped() && Coded(lens, 16) && maxcode[16] == 0x1_0000
      requires k < 0x1_0000 && Bound(lens, FAST_BITS) <= k
      ensures FAST_BITS < s <= 16 && Bound(lens, s - 1) <= k
      ensures s < 16 ==> k < Bound(lens, s)
    {
      hide Bound;
      s := FAST_BITS + 1;
      while k >= maxcode[s]
        invariant FAST_BITS < s <= 16 && Bound(lens, s - 1) <= k
        decreases 16 - s
      {
        s := s + 1;
      }
    }

    /** The symbol of the code of length `s` that starts the word; neither of the two tests ever fails. */
    method SymbolAt(k: nat, s: nat, ghost lens: Lengths) returns (sym: int)
      requires Decodes(lens) && 1 < s <= MAXBITS && Bound(lens, s - 1) <= k < Bound(lens, s)
      ensures 0 <= sym < |lens| && Matches(lens, sym, k) && lens[sym] == s
    {
      BoundStep(lens, s - 1);
      ghost var i := FindMatch(lens, s, k);
      RankFacts(lens, i, i);
      hide Matches, Indexed, Accepted, Bound, Pow2, Rank, FirstCode, FirstSymbol;
      var b := k / Pow2(16 - s) - firstcode[s] + firstsymbol[s];
      if b >= NSYMS { return -1; }
      if size[b] != s { return -1; }
      return value[b];
    }
  }

  lemma NotShort(lens: Lengths, k: nat)
    requires LengthsOk(lens)
    requires forall i: nat :: i < |lens| && lens[i] <= FAST_BITS ==> !Matches(lens, i, k)
    ensures Bound(lens, FAST_BITS) <= k
  {
    if k < Bound(lens, FAST_BITS) {
      var i := FindShort(lens, FAST_BITS, k);
    }
  }

  /** The next code of each length, when the first `i` symbols have theirs. */
  ghost predicate Next(lens: Lengths, i: nat, next: seq<nat>)
    requires i <= |lens|
  {
    |next| == 16 && forall s :: 1 <= s < 16 ==> next[s] == FirstCode(lens, s) + Count(lens[..i], s)
  }

  lemma NextStart(lens: Lengths, next: seq<nat>)
    requires |next| == 16 && forall s :: 1 <= s < 16 ==> next[s] == FirstCode(lens, s)
    ensures Next(lens, 0, next)
  {
  }

  lemma NextStep(lens: Lengths, i: nat, next: seq<nat>)
    requires LengthsOk(lens) && i < |lens| && Next(lens, i, next)
    ensures lens[i] == 0 ==> Next(lens, i + 1, next)
    ensures lens[i] > 0 ==> next[lens[i]] == Code(lens, i)
    ensures lens[i] > 0 ==> Next(lens, i + 1, next[lens[i] := next[lens[i]] + 1])
  {
    forall t: nat | 1 <= t < 16
      ensures Count(lens[..i + 1], t) == Count(lens[..i], t) + if lens[i] == t then 1 else 0
    {
      CountStep(lens, i, t);
    }
  }

  lemma LowNine(w: nat)
    ensures Take(w, FAST_BITS) == w % 512
  {
    DropTake(w, FAST_BITS);
    assert Pow2(9) == 512;
  }

  lemma FirstFits(lens: Lengths, s: nat)
    requires 1 <= s < 16 && (s > 1 ==> EndCode(lens, s - 1) <= Pow2(s - 1))
    ensures FirstCode(lens, s) <= Pow2(s)
  {
  }

  lemma CodeBound(lens: Lengths, s: nat)
    requires 1 <= s < 16 && EndCode(lens, s) <= Pow2(s)
    ensures s < 15 ==> EndCode(lens, s) * 2 <= 32768
  {
    if s < 15 { Pow2Mono(s, 14); }
    assert Pow2(14) == 16384;
  }

  ghost predicate EndsIn(x: nat, p: nat, j: nat)
    requires p > 0
  {
    x % p == j
  }

  lemma FirstEndsIn(j: nat, p: nat)
    requires j < p
    ensures EndsIn(j, p, j) && forall y: nat :: y < j ==> !EndsIn(y, p, j)
  {
    forall y: nat | y <= j
      ensures y % p == y
    {
      DivModIs(y, p, 0, y);
    }
  }

  lemma NextEndsIn(x: nat, p: nat, j: nat)
    requires p > 0 && EndsIn(x, p, j)
    ensures EndsIn(x + p, p, j)
    ensures forall y: nat :: x < y < x + p ==> !EndsIn(y, p, j)
  {
    DivModIs(x + p, p, x / p + 1, x % p);
    forall y: nat | x < y < x + p
      ensures y % p != x % p
    {
      var d := y / p - x / p;
      assert y - x == d * p + (y % p - x % p);
      if d >= 1 { MulMono(1, d, p); }
      if d <= 0 { MulMono(0, -d, p); }
    }
  }
}
