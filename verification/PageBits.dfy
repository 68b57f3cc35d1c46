/** The words of the page tables and the indices of an address, bit by bit. */
module PageBits {
  import Bits
  import opened PageAccess
  import opened PageTree
  import opened Powers

  lemma Powers512()
    ensures Pow2(7) == 128 && Pow2(9) == 512 && Pow2(12) == 0x1000 && Pow2(21) == 0x20_0000
    ensures Pow2(30) == 0x4000_0000 && Pow2(39) == 0x80_0000_0000
  {
    assert Pow2(9) == 512 && Pow2(12) == 0x1000;
    Pow2Add(9, 12);
    Pow2Add(9, 21);
    Pow2Add(9, 30);
  }

  /** Bit `n` of nine bits of an address, from bit `k` on. */
  lemma DigitBit(v: nat, k: nat, n: nat)
    ensures Bits.BitAt(v / Pow2(k) % 512, n) == if n < 9 then Bits.BitAt(v, k + n) else 0
  {
    hide Pow2, Bits.BitAt;
    Powers512();
    Bits.DropTake(v, k);
    Bits.DropTake(Bits.Drop(v, k), 9);
    Bits.TakeBit(Bits.Drop(v, k), 9, n);
    Bits.DropBit(v, k, n);
  }

  /** The four indices are bits 39 to 47, 30 to 38, 21 to 29 and 12 to 20 of the address. */
  lemma IndexBits(v: nat, n: nat)
    requires n < 9
    ensures I4(v) < 512 && Bits.BitAt(I4(v), n) == Bits.BitAt(v, 39 + n)
    ensures I3(v) < 512 && Bits.BitAt(I3(v), n) == Bits.BitAt(v, 30 + n)
    ensures I2(v) < 512 && Bits.BitAt(I2(v), n) == Bits.BitAt(v, 21 + n)
    ensures I1(v) < 512 && Bits.BitAt(I1(v), n) == Bits.BitAt(v, 12 + n)
  {
    hide Pow2, Bits.BitAt;
    Powers512();
    DigitBit(v, 39, n);
    DigitBit(v, 30, n);
    DigitBit(v, 21, n);
    DigitBit(v, 12, n);
  }

  /** The kernel half are the addresses with bit 47 set. */
  lemma KernelHalf(v: nat)
    ensures I4(v) >= KERNEL_SLOT <==> Bits.BitAt(v, 47) == 1
  {
    hide I4;
    IndexBits(v, 8);
    assert Pow2(8) == 256;
    TopBit(I4(v));
  }

  lemma TopBit(i: nat)
    requires i < 512
    ensures i >= 256 <==> i / 256 % 2 == 1
  {
  }

  /** The bits of an entry that are looked at. */
  lemma EntryBits(e: nat)
    ensures Present(e) <==> Bits.BitAt(e, 0) == 1
    ensures Has(e, Writing) <==> Bits.BitAt(e, 1) == 1
    ensures Has(e, UserMode) <==> Bits.BitAt(e, 2) == 1
    ensures Huge(e) <==> Bits.BitAt(e, 7) == 1
  {
    assert Pow2(0) == 1 && Pow2(1) == 2 && Pow2(2) == 4 && Pow2(7) == 128;
  }

  /** A number with its `k` low bits cleared. */
  lemma ClearedBit(e: nat, k: nat, n: nat)
    ensures e % Pow2(k) <= e && Bits.BitAt(e - e % Pow2(k), n) == if n < k then 0 else Bits.BitAt(e, n)
  {
    hide Pow2, Bits.BitAt;
    Bits.DropTake(e, k);
    Bits.JoinBit(0, Bits.Drop(e, k), k, n);
    if n < k {
      Bits.TakeBit(0, 0, n);
      Bits.DropZero(0);
    } else {
      Bits.DropBit(e, k, n - k);
    }
  }

  /** The frame of an entry are its bits from 12 on, that of a 2 MB entry those from 21 on. */
  lemma AddrBits(e: nat, n: nat)
    ensures Bits.BitAt(Addr(e), n) == if n < 12 then 0 else Bits.BitAt(e, n)
    ensures Bits.BitAt(HugeAddr(e), n) == if n < 21 then 0 else Bits.BitAt(e, n)
  {
    hide Pow2, Bits.BitAt;
    Powers512();
    ClearedBit(e, 12, n);
    ClearedBit(e, 21, n);
  }

  /** One bit is set and the others are as they were. */
  lemma SetBit(f: nat, k: nat, n: nat)
    ensures Bits.BitAt(WithBit(f, Pow2(k)), n) == if n == k then 1 else Bits.BitAt(f, n)
  {
    hide Pow2, Bits.Take, Bits.Drop;
    Bits.DropTake(f, k);
    var lo, hi := Bits.Take(f, k), Bits.Drop(f, k);
    if hi % 2 == 0 {
      assert WithBit(f, Pow2(k)) == lo + (hi + 1) * Pow2(k);
      hide Bits.BitAt, WithBit;
      Bits.JoinBit(lo, hi, k, n);
      Bits.JoinBit(lo, hi + 1, k, n);
      if n >= k { OddBit(hi, n - k); }
    } else {
      assert Bits.BitAt(f, k) == 1;
    }
  }

  lemma OddBit(hi: nat, n: nat)
    requires hi % 2 == 0
    ensures Bits.BitAt(hi + 1, n) == if n == 0 then 1 else Bits.BitAt(hi, n)
  {
    if n == 0 {
      Bits.LowBit(hi + 1);
    } else {
      Bits.HalfBit(hi + 1, n - 1);
      Bits.HalfBit(hi, n - 1);
      assert (hi + 1) / 2 == hi / 2;
    }
  }

  /** Low bits below an aligned address. */
  lemma UnderBit(e: nat, k: nat, f: nat, n: nat)
    requires f < Pow2(k)
    ensures e % Pow2(k) <= e && Bits.BitAt(e - e % Pow2(k) + f, n) == if n < k then Bits.BitAt(f, n) else Bits.BitAt(e, n)
  {
    hide Pow2, Bits.BitAt;
    Bits.DropTake(e, k);
    Bits.JoinBit(f, Bits.Drop(e, k), k, n);
    if n >= k { Bits.DropBit(e, k, n - k); }
  }

  /** The word written for a 4 KB page: the frame, and all the flags with bit 0 set. */
  lemma LeafBits(phys: nat, flags: nat, n: nat)
    requires flags < 0x1000
    ensures Bits.BitAt(LeafEntry(phys, flags), n)
      == if n == 0 then 1 else if n < 12 then Bits.BitAt(flags, n) else Bits.BitAt(phys, n)
  {
    hide Bits.BitAt;
    FlagFacts(flags);
    Powers512();
    SetBit(flags, 0, n);
    UnderBit(phys, 12, WithBit(flags, 1), n);
  }

  /** The word written for a 2 MB page: the frame, and all the flags with bits 0 and 7 set. */
  lemma HugeBits(phys: nat, flags: nat, n: nat)
    requires flags < 0x1000
    ensures Bits.BitAt(HugeEntry(phys, flags), n)
      == if n == 0 || n == 7 then 1 else if n < 21 then Bits.BitAt(flags, n) else Bits.BitAt(phys, n)
  {
    hide Bits.BitAt;
    FlagFacts(flags);
    Powers512();
    SetBit(flags, 0, n);
    SetBit(WithBit(flags, 1), 7, n);
    UnderBit(phys, 21, WithBit(WithBit(flags, 1), 128), n);
  }

  /** The word written for a fresh table: the frame, and bits 0 and 1, with bit 2 for user code. */
  lemma TableBits(phys: nat, user: bool, n: nat)
    requires phys % 0x1000 == 0
    ensures Bits.BitAt(TableEntry(phys, user), n)
      == if n < 2 then 1 else if n == 2 then (if user then 1 else 0) else if n < 12 then 0 else Bits.BitAt(phys, n)
  {
    hide Bits.BitAt;
    Powers512();
    var f := if user then 7 else 3;
    UnderBit(phys, 12, f, n);
    LowThree(f, n);
  }

  lemma LowThree(f: nat, n: nat)
    requires f == 3 || f == 7
    ensures Bits.BitAt(f, n) == if n < 2 then 1 else if n == 2 && f == 7 then 1 else 0
  {
    if n < 3 {
      assert Pow2(0) == 1 && Pow2(1) == 2 && Pow2(2) == 4;
    } else {
      Pow2Mono(3, n);
      assert Pow2(3) == 8;
      DivModIs(f, Pow2(n), 0, f);
    }
  }
}
