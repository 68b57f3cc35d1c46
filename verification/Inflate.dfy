/** Decoding of a compressed block into a growing buffer. */
module Inflate {
  import opened Bits
  import opened Deflate
  import opened FixedCode
  import opened Huffman
  import opened HuffmanCode
  import opened Options
  import opened Powers
  import opened Supply

  const UINT_MAX := 0xFFFF_FFFF

  datatype Outcome = Done | BadCode | BadDistance | OutputLimit | OutOfMemory | UnexpectedEnd

  /** What one turn of the block loop leads to. */
  datatype Step = Next | Stop(outcome: Outcome)

  /** The first of `len`, 2 `len`, 4 `len`, ... that is at least `need`; doubling nothing gives nothing. */
  function Doubled(len: nat, need: nat): (r: nat)
    ensures len <= r && (need <= len ==> r == len)
    ensures len > 0 ==> need <= r && (need > len ==> 2 * len <= r < 2 * need)
    decreases need - len
  {
    if need <= len || len == 0 then len else Doubled(2 * len, need)
  }

  /** Growing in two steps comes to the same size. */
  lemma {:induction false} DoubledTwice(len: nat, a: nat, b: nat)
    requires a <= b
    ensures Doubled(Doubled(len, a), b) == Doubled(len, b)
    decreases a - len
  {
    if a > len > 0 { DoubledTwice(2 * len, a, b); }
  }

  class Decoder {
    const input: seq<byte>
    var zpos: nat
    var numBits: nat
    var codeBuffer: nat
    var hitEnd: bool
    var buf: array<byte>
    var zout: nat
    const expandable: bool
    // Which sizes of buffer the allocator grants.
    const grants: nat -> bool
    const lengths: HuffmanTable
    const distances: HuffmanTable
    // Bits fetched so far, counting the zero bytes past the end of the input.
    ghost var fetched: nat

    constructor (input: seq<byte>, buf: array<byte>, expandable: bool, grants: nat -> bool,
                 lengths: HuffmanTable, distances: HuffmanTable)
      ensures this.input == input && this.buf == buf && this.expandable == expandable && this.grants == grants
      ensures this.lengths == lengths && this.distances == distances
      ensures Synced() && Pos() == 0 && Bank() == Supply(0, false) && zout == 0
    {
      this.input, this.buf, this.expandable, this.grants := input, buf, expandable, grants;
      this.lengths, this.distances := lengths, distances;
      zpos, numBits, codeBuffer, hitEnd, zout, fetched := 0, 0, 0, false, 0, 0;
      new;
      assert Take(Drop(Stream(input), 0), 0) == 0;
    }

    // ---- Reading bits ----

    ghost function Bits(): nat { Stream(input) }

    /** What has been loaded of the stream. */
    ghost function Bank(): Supply
      reads `fetched, `hitEnd
    {
      Supply(fetched, hitEnd)
    }

    /** The bit position in the stream of the next bit to be used. */
    ghost function Pos(): nat
      reads `numBits, `fetched, `hitEnd
    {
      if numBits <= Bank().Loaded() then Bank().Loaded() - numBits else 0
    }

    /** The code buffer holds the next `numBits` bits of the zero-extended stream. */
    ghost predicate Synced()
      reads `zpos, `numBits, `codeBuffer, `hitEnd, `fetched
    {
      && zpos <= |input| && numBits <= 32 && numBits <= Bank().Loaded()
      && (if zpos < |input| then fetched == 8 * zpos else fetched >= 8 * |input|)
      && (hitEnd ==> zpos == |input|)
      && codeBuffer == Take(Drop(Bits(), Pos()), numBits)
    }

    method Get8() returns (b: byte)
      requires zpos <= |input|
      modifies `zpos
      ensures b == (if old(zpos) < |input| then input[old(zpos)] else 0)
      ensures zpos == if old(zpos) < |input| then old(zpos) + 1 else old(zpos)
    {
      if zpos >= |input| { return 0; }
      b := input[zpos];
      zpos := zpos + 1;
    }

    method AddByte()
      requires Synced() && numBits <= 24
      modifies `zpos, `numBits, `codeBuffer, `fetched
      ensures Synced() && Pos() == old(Pos()) && numBits == old(numBits) + 8 && fetched == old(fetched) + 8
    {
      hide Take, Drop, Stream, Pow2;
      NextByte(input, zpos, Bank().Loaded());
      var b := Get8();
      FetchStep(Bits(), Pos(), numBits, b);
      codeBuffer := codeBuffer + b * Pow2(numBits);
      numBits := numBits + 8;
      fetched := fetched + 8;
    }

    /** Never gives up: the buffer has no bits above `numBits`. */
    method FillBits()
      requires Synced() && numBits <= 24
      modifies `zpos, `numBits, `codeBuffer, `fetched
      ensures Synced() && Pos() == old(Pos()) && numBits > 24
      ensures Bank().Loaded() == Filled(old(Bank().Loaded()), Pos())
    {
      hide Take, Drop, Stream;
      while true
        invariant Synced() && Pos() == old(Pos()) && numBits <= 24
        invariant Filled(Bank().Loaded(), Pos()) == Filled(old(Bank().Loaded()), Pos())
        decreases 24 - numBits
      {
        DropTake(Drop(Bits(), Pos()), numBits);
        if codeBuffer >= Pow2(numBits) {
          assert false;
        }
        AddByte();
        if numBits > 24 { return; }
      }
    }

    method Consume(s: nat)
      requires Synced() && s <= numBits
      modifies `numBits, `codeBuffer
      ensures Synced() && Pos() == old(Pos()) + s
    {
      ConsumeStep(Bits(), Pos(), numBits, s);
      codeBuffer := codeBuffer / Pow2(s);
      numBits := numBits - s;
    }

    method Receive(n: nat) returns (k: nat)
      requires Synced() && n <= 24
      modifies `zpos, `numBits, `codeBuffer, `fetched
      ensures Synced() && Pos() == old(Pos()) + n
      ensures k == Take(Drop(Bits(), old(Pos())), n) && Bank() == Recv(old(Bank()), old(Pos()), n)
    {
      if numBits < n { FillBits(); }
      ConsumeStep(Bits(), Pos(), numBits, n);
      k := codeBuffer % Pow2(n);
      Consume(n);
    }

    /** At least 16 bits in the buffer, unless the supply has run out. */
    method Prepare() returns (ok: bool)
      requires Synced()
      modifies `zpos, `numBits, `codeBuffer, `fetched, `hitEnd
      ensures Synced() && Pos() == old(Pos())
      ensures ok ==> numBits >= 16 && Prep(|input|, old(Bank()), Pos()) == Some(Bank())
      ensures !ok ==> Prep(|input|, Bank(), Pos()).None? && Bank() == old(Bank())
    {
      hide Take, Drop, Stream, Filled;
      if numBits < 16 {
        if zpos >= |input| {
          if !hitEnd {
            PadStep(input, Pos(), numBits, 16);
            hitEnd := true;
            numBits := numBits + 16;
          } else {
            return false;
          }
        } else {
          FillBits();
        }
      }
      return true;
    }

    /** Reads one symbol: the only one whose code comes next, or -1 when there is none or the supply has run out. */
    method Decode(table: HuffmanTable, ghost lens: Lengths) returns (sym: int)
      requires Synced() && this !in table.Repr && table.Decodes(lens)
      modifies `zpos, `numBits, `codeBuffer, `fetched, `hitEnd
      ensures Synced()
      ensures sym == -1 || (sym >= 0 && SymbolAt(Bits(), lens, old(Pos()), sym, Pos()))
      ensures sym == -1 ==> Pos() == old(Pos())
      ensures match Prep(|input|, old(Bank()), old(Pos()))
              case None => sym == -1
              case Some(t) => Bank() == t && (sym == -1 ==> NoSymbol(Bits(), lens, Pos()))
    {
      hide Synced, SymbolAt, NoSymbol, Prep;
      var ok := Prepare();
      if !ok { return -1; }
      sym := Lookup(table, lens);
    }

    method Lookup(table: HuffmanTable, ghost lens: Lengths) returns (sym: int)
      requires Synced() && this !in table.Repr && table.Decodes(lens) && numBits >= 16
      modifies `numBits, `codeBuffer
      ensures Synced()
      ensures sym == -1 || (sym >= 0 && SymbolAt(Bits(), lens, old(Pos()), sym, Pos()))
      ensures sym == -1 ==> Pos() == old(Pos()) && NoSymbol(Bits(), lens, Pos())
    {
      hide Synced, Rev, Window, Matches, NoSymbol, HuffmanTable.Decodes;
      DecodesOk(table, lens);
      BufferWindow();
      var b := table.FastEntry(codeBuffer, lens);
      if b != 0 {
        Consume(b / 512);
        return b % 512;
      }
      sym := SlowPath(table, lens);
    }

    static lemma DecodesOk(table: HuffmanTable, lens: Lengths)
      requires table.Decodes(lens)
      ensures LengthsOk(lens)
    {
    }

    lemma BufferWindow()
      requires Synced() && numBits >= 16
      ensures Rev(codeBuffer, 16) == Window(Bits(), Pos())
    {
      hide Rev, Take, Drop;
      RevTake(Drop(Bits(), Pos()), 16, numBits - 16);
    }

    method SlowPath(table: HuffmanTable, ghost lens: Lengths) returns (sym: int)
      requires Synced() && this !in table.Repr && table.Decodes(lens) && numBits >= 16
      requires forall i: nat :: i < |lens| && lens[i] <= FAST_BITS ==> !Matches(lens, i, Rev(codeBuffer, 16))
      modifies `numBits, `codeBuffer
      ensures Synced()
      ensures sym == -1 || (sym >= 0 && SymbolAt(Bits(), lens, old(Pos()), sym, Pos()))
      ensures sym == -1 ==> Pos() == old(Pos()) && NoSymbol(Bits(), lens, Pos())
    {
      hide BitReverse, BitReverse16, Rev, Window, Matches, Synced, HuffmanTable.Decodes;
      DecodesOk(table, lens);
      BufferWindow();
      BitReverseIs(codeBuffer, 16);
      WordBound(codeBuffer);
      var s;
      sym, s := table.SlowSymbol(BitReverse(codeBuffer, 16), lens);
      if sym >= 0 { Consume(s); }
    }

    /** The three bits before a block: whether it is the last, and its type. */
    method BlockHeader() returns (final: nat, kind: nat)
      requires Synced()
      modifies `zpos, `numBits, `codeBuffer, `fetched
      ensures Synced() && Pos() == old(Pos()) + 3
      ensures final == Take(Drop(Bits(), old(Pos())), 1) && kind == Take(Drop(Bits(), old(Pos()) + 1), 2)
      ensures Bank() == Recv(Recv(old(Bank()), old(Pos()), 1), old(Pos()) + 1, 2)
    {
      hide Synced, Take, Drop, Stream, Recv;
      final := Receive(1);
      kind := Receive(2);
    }

    // ---- Writing bytes ----

    /** The buffer ends within the reach of a 32-bit offset; one that may grow is not empty, and so can be doubled. */
    ghost predicate Room(z: nat)
      reads `buf
    {
      z <= buf.Length <= UINT_MAX && (expandable ==> buf.Length > 0)
    }

    /** A buffer of `cap` bytes holds `need` bytes, or can be made to. */
    predicate Holds(cap: nat, need: nat) {
      need <= cap || (expandable && cap > 0 && Doubled(cap, need) <= UINT_MAX && grants(Doubled(cap, need)))
    }

    /**
     * Doubles the buffer until `n` more bytes fit after the first `z`, and keeps those. It runs out of memory exactly
     * if the doubled size is beyond 32 bits or is not granted.
     */
    method Grow(z: nat, n: nat) returns (r: Outcome)
      requires Room(z) && n <= UINT_MAX
      modifies `buf, `zout
      ensures Room(z) && zout == z
      ensures r == OutputLimit <==> !expandable
      ensures r == OutOfMemory <==>
              expandable && !(Doubled(old(buf.Length), z + n) <= 0xFFFF_FFFF && grants(Doubled(old(buf.Length), z + n)))
      ensures r == Done || r == OutputLimit || r == OutOfMemory
      ensures r == Done ==> fresh(buf) && buf.Length == Doubled(old(buf.Length), z + n) && buf[..z] == old(buf[..z])
      ensures r != Done ==> buf == old(buf)
    {
      zout := z;
      if !expandable { return OutputLimit; }
      if UINT_MAX - z < n { return OutOfMemory; }
      var limit := buf.Length;
      while z + n > limit
        invariant buf.Length <= limit <= UINT_MAX
        invariant Doubled(limit, z + n) == Doubled(buf.Length, z + n)
        decreases UINT_MAX - limit
      {
        if limit > UINT_MAX / 2 { return OutOfMemory; }
        limit := limit * 2;
      }
      if !grants(limit) { return OutOfMemory; }
      buf := Copied(buf, limit);
      return Done;
    }

    /** Reallocation: the old bytes, then room. */
    static method Copied(a: array<byte>, limit: nat) returns (q: array<byte>)
      requires a.Length <= limit
      ensures fresh(q) && q.Length == limit && q[..a.Length] == a[..]
    {
      q := new byte[limit](i => 0);
      for i := 0 to a.Length
        invariant q[..i] == a[..i]
      {
        q[i] := a[i];
      }
    }

    method PutLiteral(z: nat, v: byte) returns (r: Outcome, z': nat)
      requires Room(z)
      modifies `buf, `zout, buf
      ensures Room(z') && (buf == old(buf) || fresh(buf))
      ensures r == Done || r == OutputLimit || r == OutOfMemory
      ensures (r == Done <==> Holds(old(buf.Length), z + 1)) && (r == OutputLimit ==> !expandable)
      ensures (r == OutOfMemory ==> expandable) && buf.Length == if r == Done then Doubled(old(buf.Length), z + 1) else old(buf.Length)
      ensures r == Done ==> z' == z + 1 && buf[..z'] == old(buf[..z]) + [v]
      ensures r != Done ==> z' == z && buf[..z] == old(buf[..z])
    {
      z' := z;
      if z >= buf.Length {
        r := Grow(z, 1);
        if r != Done { return; }
      }
      buf[z] := v;
      return Done, z + 1;
    }

    /** Copies forwards one byte at a time, so that the source may run into the bytes just written. */
    method CopyForward(z: nat, len: nat, dist: nat)
      requires 1 <= dist <= z && z + len <= buf.Length
      modifies buf
      ensures buf[..z + len] == CopyBytes(old(buf[..z]), dist, len)
    {
      hide CopyBytes;
      ghost var h := buf[..z];
      CopyNone(h, dist);
      var i := 0;
      if dist == 1 {
        var v := buf[z - 1];
        while i < len
          invariant i <= len && buf[z + i - 1] == v
          invariant buf[..z + i] == CopyBytes(h, dist, i)
        {
          CopyOneMore(h, dist, i);
          assert buf[..z + i][z + i - 1] == v;
          buf[z + i] := v;
          assert buf[..z + i + 1] == CopyBytes(h, dist, i) + [v];
          i := i + 1;
        }
      } else {
        while i < len
          invariant i <= len
          invariant buf[..z + i] == CopyBytes(h, dist, i)
        {
          CopyOneMore(h, dist, i);
          assert buf[..z + i][z + i - dist] == buf[z + i - dist];
          buf[z + i] := buf[z - dist + i];
          assert buf[..z + i + 1] == CopyBytes(h, dist, i) + [buf[z + i]];
          i := i + 1;
        }
      }
    }

    method PutCopy(z: nat, len: nat, dist: nat) returns (r: Outcome, z': nat)
      requires Room(z) && dist >= 1 && len <= UINT_MAX
      modifies `buf, `zout, buf
      ensures Room(z') && (buf == old(buf) || fresh(buf))
      ensures r == BadDistance <==> dist > z
      ensures r == Done || r == BadDistance || r == OutputLimit || r == OutOfMemory
      ensures r != BadDistance ==> (r == Done <==> Holds(old(buf.Length), z + len))
      ensures (r == OutputLimit ==> !expandable) && (r == OutOfMemory ==> expandable)
      ensures buf.Length == if r == Done then Doubled(old(buf.Length), z + len) else old(buf.Length)
      ensures r == Done ==> z' == z + len && buf[..z'] == CopyBytes(old(buf[..z]), dist, len)
      ensures r != Done ==> z' == z && buf[..z] == old(buf[..z])
    {
      z' := z;
      if z < dist { return BadDistance, z; }
      if len > buf.Length - z {
        r := Grow(z, len);
        if r != Done { return; }
      }
      CopyForward(z, len, dist);
      return Done, z + len;
    }

    // ---- The block ----

    /** The tables lie apart from the decoder and its buffer. */
    ghost predicate Apart()
      reads `buf
    {
      && this !in lengths.Repr && buf !in lengths.Repr
      && this !in distances.Repr && buf !in distances.Repr
    }

    /** The rest of an item whose length symbol has been read from bit `from` on, where the supply was `s0`. */
    method ReadCopy(sym: nat, ghost from: nat, ghost s0: Supply, ghost ll: Lengths, ghost dl: Lengths)
      returns (ok: bool, len: nat, dist: nat, ghost it: Item)
      requires Synced() && Apart() && distances.Decodes(dl) && LengthsOk(ll) && LengthsOk(dl)
      requires 257 <= sym < 286 && SymbolAt(Bits(), ll, from, sym, Pos()) && Prep(|input|, s0, from) == Some(Bank())
      modifies `zpos, `numBits, `codeBuffer, `fetched, `hitEnd
      ensures Synced()
      ensures ok ==> it.Copy? && it.Legal() && ItemAt(Bits(), ll, dl, from, it, Pos())
      ensures ok ==> SupplyItem(|input|, s0, ll, dl, from, it) == Some(Bank())
      ensures ok ==> len == it.Length() && dist == it.Distance() && 1 <= len <= UINT_MAX
      ensures !ok ==> Unreadable(|input|, s0, Bits(), ll, dl, from)
    {
      hide Synced, Take, Drop, LengthBase, LengthExtra, DistBase, DistExtra, SymbolAt, Unreadable;
      hide ItemAt, SupplyItem, Prep, Recv, HuffmanTable.Decodes, Stream, LengthsOk;
      ghost var p1, s1, e := Pos(), Bank(), 0;
      len, e := ReadExtra(LengthBase(sym - 257), LengthExtra(sym - 257));
      LengthBounded(Bits(), p1, sym - 257);
      ok, dist, it := ReadDistance(sym, from, s0, s1, p1, e, ll, dl);
    }

    method ReadDistance(ghost sym: nat, ghost from: nat, ghost s0: Supply, ghost s1: Supply, ghost p1: nat, ghost e: nat,
                        ghost ll: Lengths, ghost dl: Lengths)
      returns (ok: bool, dist: nat, ghost it: Item)
      requires Synced() && Apart() && distances.Decodes(dl) && LengthsOk(ll) && LengthsOk(dl)
      requires 257 <= sym < 286 && SymbolAt(Bits(), ll, from, sym, p1) && Prep(|input|, s0, from) == Some(s1)
      requires e == Take(Drop(Bits(), p1), LengthExtra(sym - 257)) && Pos() == p1 + LengthExtra(sym - 257)
      requires Bank() == Recv(s1, p1, LengthExtra(sym - 257))
      modifies `zpos, `numBits, `codeBuffer, `fetched, `hitEnd
      ensures Synced()
      ensures ok ==> it.Copy? && it.Legal() && ItemAt(Bits(), ll, dl, from, it, Pos())
      ensures ok ==> SupplyItem(|input|, s0, ll, dl, from, it) == Some(Bank())
      ensures ok ==> it.Length() == LengthBase(sym - 257) + e && dist == it.Distance()
      ensures !ok ==> Unreadable(|input|, s0, Bits(), ll, dl, from)
    {
      hide Synced, Take, Drop, LengthBase, LengthExtra, DistBase, DistExtra, SymbolAt, NoSymbol, NoItem, Unreadable;
      hide ItemAt, SupplyItem, Prep, Recv, HuffmanTable.Decodes, Stream, LengthsOk;
      ghost var p2, s2 := Pos(), Bank();
      var d := Decode(distances, dl);
      if d < 0 || d >= 30 {
        if d < 0 && Prep(|input|, s2, p2).None? {
          StarvedAtDistance(|input|, s0, s1, Bits(), ll, dl, from, sym, p1);
        } else {
          NoDistance(Bits(), ll, dl, from, sym, p1, p2, d, Pos());
          NothingThere(|input|, s0, Bits(), ll, dl, from);
        }
        return false, 0, Literal(0);
      }
      ghost var p3, s3, f := Pos(), Bank(), 0;
      dist, f := ReadExtra(DistBase(d), DistExtra(d));
      it := Copy(sym - 257, e, d, f);
      CopyMade(Bits(), ll, dl, from, sym, p1, d, p3, e, f);
      CopySupplied(|input|, s0, s1, s3, Bits(), ll, dl, from, sym, p1, d, p3, e, f);
      ok := true;
    }

    /** A table value plus its extra bits, if it has any. */
    method ReadExtra(base: nat, extra: nat) returns (v: nat, ghost e: nat)
      requires Synced() && extra <= 24
      modifies `zpos, `numBits, `codeBuffer, `fetched, `hitEnd
      ensures Synced() && Pos() == old(Pos()) + extra && hitEnd == old(hitEnd)
      ensures v == base + e && e == Take(Drop(Bits(), old(Pos())), extra) && Bank() == Recv(old(Bank()), old(Pos()), extra)
    {
      v, e := base, 0;
      if extra != 0 {
        var k := Receive(extra);
        v, e := v + k, k;
      }
    }

    /** One turn of the loop: an item is read and carried out, or the loop stops. */
    method ParseItem(z: nat, ghost ll: Lengths, ghost dl: Lengths) returns (step: Step, z': nat, ghost it: Item)
      requires Synced() && Apart() && lengths.Decodes(ll) && distances.Decodes(dl) && LengthsOk(ll) && LengthsOk(dl) && Room(z)
      modifies `zpos, `numBits, `codeBuffer, `fetched, `hitEnd, `buf, `zout, buf
      ensures Synced() && Room(z') && (buf == old(buf) || fresh(buf))
      ensures step.Next? ==> ItemAt(Bits(), ll, dl, old(Pos()), it, Pos()) && Reaches(old(buf[..z]), it)
      ensures step.Next? ==> SupplyItem(|input|, old(Bank()), ll, dl, old(Pos()), it) == Some(Bank())
      ensures step.Next? ==> z' > z && buf[..z'] == Emit(old(buf[..z]), it) && Holds(old(buf.Length), z')
      ensures buf.Length == if step.Next? then Doubled(old(buf.Length), z') else old(buf.Length)
      ensures step.Stop? ==> z' == z && buf[..z] == old(buf[..z])
      ensures step.Stop? ==>
        Stopped(step.outcome, ll, dl, old(Bank()), old(Pos()), it, old(buf[..z]), buf.Length)
      ensures step == Stop(Done) ==> zout == z
    {
      hide Synced, SymbolAt, NoSymbol, NoItem, ItemAt, Unreadable, HuffmanTable.Decodes, Stream, Prep, SupplyItem, Recv;
      hide Emit, Doubled, Holds, Reaches;
      ghost var from, h, s0 := Pos(), buf[..z], Bank();
      it, z' := Literal(0), z;
      var sym := Decode(lengths, ll);
      if sym < 0 {
        if Prep(|input|, s0, from).None? {
          StarvedAtOnce(|input|, s0, Bits(), ll, dl, from);
        } else {
          NoHead(Bits(), ll, dl, from, sym, from);
          NothingThere(|input|, s0, Bits(), ll, dl, from);
        }
        return Stop(BadCode), z, it;
      } else if sym < 256 {
        it := Literal(sym);
        step, z' := TakeLiteral(z, sym, from, s0, ll, dl);
      } else if sym == 256 {
        zout := z;
        EndSupplied(ll, s0, from);
        if hitEnd && numBits < 16 {
          return Stop(UnexpectedEnd), z, it;
        }
        return Stop(Done), z, it;
      } else if sym >= 286 {
        NoHead(Bits(), ll, dl, from, sym, Pos());
        NothingThere(|input|, s0, Bits(), ll, dl, from);
        return Stop(BadCode), z, it;
      } else {
        step, z', it := TakeCopy(z, sym, from, s0, ll, dl);
      }
    }

    /** A literal that has been read goes to the output. */
    method TakeLiteral(z: nat, b: byte, ghost from: nat, ghost s0: Supply, ghost ll: Lengths, ghost dl: Lengths)
      returns (step: Step, z': nat)
      requires Room(z) && SymbolAt(Bits(), ll, from, b, Pos()) && Prep(|input|, s0, from) == Some(Bank())
      modifies `buf, `zout, buf
      ensures Room(z') && (buf == old(buf) || fresh(buf))
      ensures step.Next? ==> ItemAt(Bits(), ll, dl, from, Literal(b), Pos()) && Reaches(old(buf[..z]), Literal(b))
      ensures step.Next? ==> SupplyItem(|input|, s0, ll, dl, from, Literal(b)) == Some(Bank())
      ensures step.Next? ==> z' > z && buf[..z'] == Emit(old(buf[..z]), Literal(b)) && Holds(old(buf.Length), z')
      ensures buf.Length == if step.Next? then Doubled(old(buf.Length), z') else old(buf.Length)
      ensures step.Stop? ==> z' == z && buf[..z] == old(buf[..z]) && step.outcome != Done
      ensures step.Stop? ==> Stopped(step.outcome, ll, dl, s0, from, Literal(b), old(buf[..z]), buf.Length)
    {
      hide Synced, SymbolAt, ItemAt, Stream, Prep, SupplyItem, Doubled, Holds;
      LiteralMade(Bits(), ll, dl, from, b, Pos());
      LiteralSupplied(|input|, s0, ll, dl, from, b);
      var r;
      r, z' := PutLiteral(z, b);
      step := if r == Done then Next else Stop(r);
    }

    /** The rest of an item that starts with a length symbol is read and carried out. */
    method TakeCopy(z: nat, sym: nat, ghost from: nat, ghost s0: Supply, ghost ll: Lengths, ghost dl: Lengths)
      returns (step: Step, z': nat, ghost it: Item)
      requires Synced() && Apart() && distances.Decodes(dl) && LengthsOk(ll) && LengthsOk(dl) && Room(z)
      requires 257 <= sym < 286 && SymbolAt(Bits(), ll, from, sym, Pos()) && Prep(|input|, s0, from) == Some(Bank())
      modifies `zpos, `numBits, `codeBuffer, `fetched, `hitEnd, `buf, `zout, buf
      ensures Synced() && Room(z') && (buf == old(buf) || fresh(buf))
      ensures step.Next? ==> ItemAt(Bits(), ll, dl, from, it, Pos()) && Reaches(old(buf[..z]), it)
      ensures step.Next? ==> SupplyItem(|input|, s0, ll, dl, from, it) == Some(Bank())
      ensures step.Next? ==> z' > z && buf[..z'] == Emit(old(buf[..z]), it) && Holds(old(buf.Length), z')
      ensures buf.Length == if step.Next? then Doubled(old(buf.Length), z') else old(buf.Length)
      ensures step.Stop? ==> z' == z && buf[..z] == old(buf[..z]) && step.outcome != Done
      ensures step.Stop? ==> Stopped(step.outcome, ll, dl, s0, from, it, old(buf[..z]), buf.Length)
    {
      hide Synced, SymbolAt, ItemAt, Unreadable, HuffmanTable.Decodes, Stream, Prep, SupplyItem, Doubled, Holds, LengthsOk;
      hide LengthBase, DistBase;
      z' := z;
      var ok, len, dist;
      ok, len, dist, it := ReadCopy(sym, from, s0, ll, dl);
      if !ok { return Stop(BadCode), z, it; }
      var r;
      r, z' := PutCopy(z, len, dist);
      step := if r == Done then Next else Stop(r);
    }

    /** The test after the end-of-block symbol asks whether the fetched bits reach its end. */
    lemma EndSupplied(ll: Lengths, s0: Supply, from: nat)
      requires Synced() && EndAt(Bits(), ll, from, Pos()) && Prep(|input|, s0, from) == Some(Bank())
      ensures hitEnd && numBits < 16 <==> !SupplyEnd(|input|, s0, from, Pos())
    {
      hide SymbolAt, Stream, Take, Drop;
    }

    /** Why the loop stops at bit `from`, with `out` produced in a buffer of `cap` bytes. */
    ghost predicate Stopped(o: Outcome, ll: Lengths, dl: Lengths, s: Supply, from: nat, it: Item, out: seq<byte>, cap: nat)
      reads `numBits, `fetched, `hitEnd
    {
      match o
      case Done => EndAt(Bits(), ll, from, Pos()) && SupplyEnd(|input|, s, from, Pos())
      case UnexpectedEnd => EndAt(Bits(), ll, from, Pos()) && !SupplyEnd(|input|, s, from, Pos())
      case BadCode => Unreadable(|input|, s, Bits(), ll, dl, from)
      case BadDistance => ItemAt(Bits(), ll, dl, from, it, Pos()) && !Reaches(out, it)
      case OutputLimit => !expandable && NoRoom(ll, dl, from, it, out, cap)
      case OutOfMemory => expandable && NoRoom(ll, dl, from, it, out, cap)
    }

    /** The item is read, its distance is in reach, and what it stands for finds no room. */
    ghost predicate NoRoom(ll: Lengths, dl: Lengths, from: nat, it: Item, out: seq<byte>, cap: nat)
      reads `numBits, `fetched, `hitEnd
    {
      ItemAt(Bits(), ll, dl, from, it, Pos()) && Reaches(out, it) && !Holds(cap, |Emit(out, it)|)
    }

    /** There was room for everything produced, starting with `cap` bytes. */
    predicate Held(cap: nat, h: seq<byte>, items: seq<Item>)
    {
      items == [] || (Held(cap, h, items[..|items| - 1]) && Holds(cap, |Expand(h, items)|))
    }

    /** A block that starts at bit `from` with output `h`, supply `s0` and a buffer of `cap` bytes. */
    ghost predicate BlockAt(from: nat, h: seq<byte>, s0: Supply, cap: nat, ll: Lengths, dl: Lengths,
                            items: seq<Item>, marks: seq<nat>, s: Supply)
    {
      && |h| <= cap && Parse(Bits(), ll, dl, from, items, marks) && Reachable(h, items) && Held(cap, h, items)
      && SupplyItems(|input|, s0, ll, dl, items, marks) == Some(s)
    }

    /** The items read since bit `from`, and the first `z` bytes, which they have added to `h`. */
    ghost predicate Progress(from: nat, h: seq<byte>, s0: Supply, cap: nat, ll: Lengths, dl: Lengths,
                             items: seq<Item>, marks: seq<nat>, z: nat)
      reads `numBits, `fetched, `hitEnd, `buf, buf
    {
      && BlockAt(from, h, s0, cap, ll, dl, items, marks, Bank()) && marks[|items|] == Pos()
      && z <= buf.Length && buf[..z] == Expand(h, items) && buf.Length == Doubled(cap, z)
    }

    method Turn(z: nat, ghost from: nat, ghost h: seq<byte>, ghost s0: Supply, ghost cap: nat,
                ghost items: seq<Item>, ghost marks: seq<nat>, ghost ll: Lengths, ghost dl: Lengths)
      returns (step: Step, z': nat, ghost items': seq<Item>, ghost marks': seq<nat>, ghost last: Item)
      requires Synced() && Apart() && lengths.Decodes(ll) && distances.Decodes(dl) && LengthsOk(ll) && LengthsOk(dl) && Room(z)
      requires Progress(from, h, s0, cap, ll, dl, items, marks, z)
      modifies `zpos, `numBits, `codeBuffer, `fetched, `hitEnd, `buf, `zout, buf
      ensures Synced() && Room(z') && (buf == old(buf) || fresh(buf))
      ensures step.Next? ==> z' > z && Progress(from, h, s0, cap, ll, dl, items', marks', z')
      ensures step.Stop? ==> z' == z && items' == items && marks' == marks && buf[..z] == old(buf[..z])
      ensures step.Stop? ==> buf.Length == old(buf.Length)
      ensures step.Stop? ==>
        Stopped(step.outcome, ll, dl, old(Bank()), marks[|items|], last, Expand(h, items), buf.Length)
      ensures step == Stop(Done) ==> zout == z
    {
      hide Synced, ItemAt, HuffmanTable.Decodes, Reaches, Emit, Stopped, Stream, LengthsOk, Reachable, Expand;
      hide SupplyItem, SupplyItems, Held, Doubled, Holds;
      ghost var bank := Bank();
      step, z', last := ParseItem(z, ll, dl);
      items', marks' := items, marks;
      if step.Next? {
        ParseStep(Bits(), ll, dl, from, items, marks, last, Pos(), h);
        SupplyNext(|input|, s0, ll, dl, items, marks, last, Pos());
        HeldStep(cap, h, items, last, z, z');
        items', marks' := items + [last], marks + [Pos()];
      }
    }

    /** Room in the present buffer is room seen from the first one. */
    lemma HoldsSince(cap: nat, z: nat, need: nat)
      requires z <= need && (z <= cap || Holds(cap, z))
      ensures Holds(Doubled(cap, z), need) <==> Holds(cap, need)
      ensures Doubled(Doubled(cap, z), need) == Doubled(cap, need)
    {
      DoubledTwice(cap, z, need);
    }

    lemma HeldStep(cap: nat, h: seq<byte>, items: seq<Item>, it: Item, z: nat, z': nat)
      requires |h| <= cap && Held(cap, h, items) && |Expand(h, items)| == z
      requires z <= z' == |Emit(Expand(h, items), it)| && Holds(Doubled(cap, z), z')
      ensures Held(cap, h, items + [it]) && Doubled(Doubled(cap, z), z') == Doubled(cap, z')
    {
      hide Emit, Doubled;
      HeldAt(cap, h, items);
      HoldsSince(cap, z, z');
      assert (items + [it])[..|items|] == items;
    }

    lemma HeldAt(cap: nat, h: seq<byte>, items: seq<Item>)
      requires |h| <= cap && Held(cap, h, items)
      ensures Holds(cap, |Expand(h, items)|)
    {
    }

    /**
     * Carries out a block. The items are the ones encoded from the old position on, and the output is extended by
     * what they stand for; the block stops with success exactly at its end-of-block symbol.
     */
    method ParseBlock(ghost ll: Lengths, ghost dl: Lengths)
      returns (r: Outcome, ghost items: seq<Item>, ghost marks: seq<nat>, ghost last: Item, ghost s: Supply)
      requires Synced() && Apart() && lengths.Decodes(ll) && distances.Decodes(dl) && LengthsOk(ll) && LengthsOk(dl) && Room(zout)
      modifies `zpos, `numBits, `codeBuffer, `fetched, `hitEnd, `buf, `zout, buf
      ensures Synced() && (buf == old(buf) || fresh(buf)) && buf.Length <= UINT_MAX
      ensures BlockAt(old(Pos()), old(buf[..zout]), old(Bank()), old(buf.Length), ll, dl, items, marks, s)
      ensures buf.Length == Doubled(old(buf.Length), |Expand(old(buf[..zout]), items)|)
      ensures Stopped(r, ll, dl, s, marks[|items|], last, Expand(old(buf[..zout]), items), buf.Length)
      ensures r == Done ==> zout <= buf.Length && buf[..zout] == Expand(old(buf[..zout]), items)
    {
      hide Synced, HuffmanTable.Decodes, Stopped, Stream, LengthsOk, Progress, BlockAt, Expand, Parse, Doubled;
      ghost var h, from, s0, cap := buf[..zout], Pos(), Bank(), buf.Length;
      var z := zout;
      items, marks := [], [Pos()];
      ProgressStarts(from, h, ll, dl);
      while true
        invariant Synced() && Room(z) && (buf == old(buf) || fresh(buf))
        invariant lengths.Decodes(ll) && distances.Decodes(dl) && Apart()
        invariant Progress(from, h, s0, cap, ll, dl, items, marks, z)
        decreases UINT_MAX - z
      {
        ProgressMeans(from, h, s0, cap, ll, dl, items, marks, z);
        s := Bank();
        var step;
        step, z, items, marks, last := Turn(z, from, h, s0, cap, items, marks, ll, dl);
        if step.Stop? {
          return step.outcome, items, marks, last, s;
        }
      }
    }

    lemma ProgressStarts(from: nat, h: seq<byte>, ll: Lengths, dl: Lengths)
      requires from == Pos() && Room(zout) && buf[..zout] == h
      ensures Progress(from, h, Bank(), buf.Length, ll, dl, [], [from], zout)
    {
    }

    lemma ProgressMeans(from: nat, h: seq<byte>, s0: Supply, cap: nat, ll: Lengths, dl: Lengths,
                        items: seq<Item>, marks: seq<nat>, z: nat)
      requires Progress(from, h, s0, cap, ll, dl, items, marks, z)
      ensures BlockAt(from, h, s0, cap, ll, dl, items, marks, Bank()) && |marks| == |items| + 1
      ensures z <= buf.Length && buf[..z] == Expand(h, items) && buf.Length == Doubled(cap, |Expand(h, items)|)
    {
    }

    /**
     * For a block with a complete reading, every distance in reach, the outcome is decided: it is decoded exactly if
     * the supply of bits lasts and there is room for everything it produces.
     */
    lemma CompleteBlock(r: Outcome, ll: Lengths, dl: Lengths, from: nat, h: seq<byte>, s0: Supply, cap: nat,
                        items: seq<Item>, marks: seq<nat>, last: Item, s: Supply, a: seq<Item>, ma: seq<nat>, to: nat)
      requires BlockAt(from, h, s0, cap, ll, dl, items, marks, s)
      requires Stopped(r, ll, dl, s, marks[|items|], last, Expand(h, items), Doubled(cap, |Expand(h, items)|))
      requires Parse(Bits(), ll, dl, from, a, ma) && EndAt(Bits(), ll, ma[|a|], to) && Reachable(h, a)
      ensures r == Done <==> Lasts(|input|, s0, ll, dl, a, ma, to) && Held(cap, h, a)
      ensures r == Done ==> items == a && Pos() == to
    {
      hide ItemAt, EndAt, Reachable, Reaches, Expand, Stream, SupplyItems, SupplyItem, Prep, Emit, Held, Doubled, Holds;
      var n, k, at := Bits(), |items|, marks[|items|];
      Prefix(n, ll, dl, from, a, ma, to, items, marks);
      BlockUnique(n, ll, dl, from, a, ma, to, items, marks, Pos());
      if k < |a| {
        ReachableAt(h, a, k);
        forall t: nat
          ensures !EndAt(n, ll, at, t)
        {
          if EndAt(n, ll, at, t) { EndIsNoItem(n, ll, dl, at, a[k], t, ma[k + 1]); }
        }
        StoppedShort(r, ll, dl, h, s0, cap, s, last, a, ma, k);
      } else {
        assert items == a && marks == ma;
        EndIsNoItem(n, ll, dl, at, last, to, Pos());
        StoppedAtEnd(r, ll, dl, h, s0, cap, s, last, a, ma, to);
      }
    }

    /**
     * ParseBlock for a block with a complete reading: success is decided by the block, the supply and the room alone,
     * and its output is what the items stand for.
     */
    method DecodeBlock(ghost ll: Lengths, ghost dl: Lengths, ghost a: seq<Item>, ghost ma: seq<nat>, ghost to: nat)
      returns (r: Outcome)
      requires Synced() && Apart() && lengths.Decodes(ll) && distances.Decodes(dl) && LengthsOk(ll) && LengthsOk(dl) && Room(zout)
      requires Parse(Bits(), ll, dl, Pos(), a, ma) && EndAt(Bits(), ll, ma[|a|], to) && Reachable(buf[..zout], a)
      modifies `zpos, `numBits, `codeBuffer, `fetched, `hitEnd, `buf, `zout, buf
      ensures Synced() && (buf == old(buf) || fresh(buf)) && buf.Length <= UINT_MAX
      ensures |ma| == |a| + 1
      ensures r == Done <==> Lasts(|input|, old(Bank()), ll, dl, a, ma, to) && Held(old(buf.Length), old(buf[..zout]), a)
      ensures r == Done ==> Pos() == to && zout <= buf.Length && buf[..zout] == Expand(old(buf[..zout]), a)
    {
      hide Synced, HuffmanTable.Decodes, Stopped, Stream, LengthsOk, BlockAt, Expand, EndAt, Doubled, Held, Lasts, Reachable;
      ghost var from, h, s0, cap := Pos(), buf[..zout], Bank(), buf.Length;
      ghost var items, marks, last, s;
      r, items, marks, last, s := ParseBlock(ll, dl);
      CompleteBlock(r, ll, dl, from, h, s0, cap, items, marks, last, s, a, ma, to);
    }

    method BuildFixed()
      requires lengths.Shaped() && distances.Shaped() && lengths.Repr !! distances.Repr
      modifies lengths.Repr, distances.Repr
      ensures lengths.Decodes(FixedLengths()) && distances.Decodes(FixedDistances())
    {
      hide FixedLengths, FixedDistances, KraftSum, Accepted, Pow2;
      FixedShape();
      FixedAccepted();
      Kraft(FixedLengths());
      Kraft(FixedDistances());
      WordsOfMaxBits();
      var built := lengths.Build(FixedLengths());
      assert built;
      built := distances.Build(FixedDistances());
      assert built;
    }

    /** A block in the fixed code: building the tables never fails, and then the block is decoded as above. */
    method FixedBlock(ghost a: seq<Item>, ghost ma: seq<nat>, ghost to: nat) returns (r: Outcome)
      requires Synced() && Apart() && Room(zout) && lengths.Shaped() && distances.Shaped() && lengths.Repr !! distances.Repr
      requires Parse(Bits(), FixedLengths(), FixedDistances(), Pos(), a, ma)
      requires EndAt(Bits(), FixedLengths(), ma[|a|], to) && Reachable(buf[..zout], a)
      modifies lengths.Repr, distances.Repr, `zpos, `numBits, `codeBuffer, `fetched, `hitEnd, `buf, `zout, buf
      ensures Synced() && (buf == old(buf) || fresh(buf)) && |ma| == |a| + 1
      ensures r == Done <==>
              && Lasts(|input|, old(Bank()), FixedLengths(), FixedDistances(), a, ma, to)
              && Held(old(buf.Length), old(buf[..zout]), a)
      ensures r == Done ==> Pos() == to && zout <= buf.Length && buf[..zout] == Expand(old(buf[..zout]), a)
    {
      hide Synced, Stream, Expand, EndAt, Held, Lasts, Reachable, FixedLengths, FixedDistances, Parse, HuffmanTable.Decodes;
      FixedShape();
      BuildFixed();
      r := DecodeBlock(FixedLengths(), FixedDistances(), a, ma, to);
    }

    /** A block that lies in its input is decoded whenever its output fits into the buffer it was given. */
    lemma BlockInside(r: Outcome, ll: Lengths, dl: Lengths, from: nat, h: seq<byte>, s0: Supply, cap: nat,
                      items: seq<Item>, marks: seq<nat>, last: Item, s: Supply, a: seq<Item>, ma: seq<nat>, to: nat)
      requires BlockAt(from, h, s0, cap, ll, dl, items, marks, s)
      requires Stopped(r, ll, dl, s, marks[|items|], last, Expand(h, items), Doubled(cap, |Expand(h, items)|))
      requires Parse(Bits(), ll, dl, from, a, ma) && EndAt(Bits(), ll, ma[|a|], to) && Reachable(h, a)
      requires SupplyOk(|input|, s0) && from <= s0.Loaded() && to <= 8 * |input|
      ensures r == Done <==> Held(cap, h, a)
      ensures |Expand(h, a)| <= cap ==> r == Done && items == a && Pos() == to
    {
      hide Stopped, Lasts, Held, ItemAt, Expand, Stream, Doubled, Reachable;
      CompleteBlock(r, ll, dl, from, h, s0, cap, items, marks, last, s, a, ma, to);
      InsideLasts(|input|, s0, Bits(), ll, dl, from, a, ma, to);
      if |Expand(h, a)| <= cap { HeldAtOnce(cap, h, a); }
    }

    lemma {:induction false} HeldAtOnce(cap: nat, h: seq<byte>, a: seq<Item>)
      requires |Expand(h, a)| <= cap
      ensures Held(cap, h, a)
      decreases |a|
    {
      if a != [] { HeldAtOnce(cap, h, a[..|a| - 1]); }
    }

    /**
     * A block decoded past the end of its input has its end-of-block symbol begin in the input, or the code of zero bits
     * for it; and it ends within a fixed distance of the input.
     */
    lemma DonePastInput(ll: Lengths, dl: Lengths, from: nat, h: seq<byte>, s0: Supply, cap: nat,
                        items: seq<Item>, marks: seq<nat>, last: Item, s: Supply)
      requires BlockAt(from, h, s0, cap, ll, dl, items, marks, s)
      requires Stopped(Done, ll, dl, s, marks[|items|], last, Expand(h, items), Doubled(cap, |Expand(h, items)|))
      requires from <= 8 * |input| < Pos()
      ensures LengthsOk(ll) && END_OF_BLOCK < |ll| && Pos() == marks[|items|] + ll[END_OF_BLOCK]
      ensures marks[|items|] < 8 * |input| ==> Pos() <= 8 * |input| + 14
      ensures marks[|items|] >= 8 * |input| ==> Code(ll, END_OF_BLOCK) == 0 && Pos() <= 8 * |input| + 62
    {
      hide Held, Expand, Stream, Doubled, Reachable, SupplyItems, SupplyEnd, Code, ItemAt, EndAt, Parse;
      Truncated(input, ll, dl, from, items, marks, Pos());
    }

    /** Stopping where the complete reading has another item, which must be why. */
    lemma StoppedShort(r: Outcome, ll: Lengths, dl: Lengths, h: seq<byte>, s0: Supply, cap: nat, s: Supply, last: Item,
                       a: seq<Item>, ma: seq<nat>, k: nat)
      requires |h| <= cap && |ma| == |a| + 1 && k < |a| && Held(cap, h, a[..k])
      requires SupplyItems(|input|, s0, ll, dl, a[..k], ma[..k + 1]) == Some(s)
      requires ItemAt(Bits(), ll, dl, ma[k], a[k], ma[k + 1]) && Reaches(Expand(h, a[..k]), a[k])
      requires Stopped(r, ll, dl, s, ma[k], last, Expand(h, a[..k]), Doubled(cap, |Expand(h, a[..k])|))
      requires forall to: nat :: !EndAt(Bits(), ll, ma[k], to)
      ensures r != Done
      ensures SupplyItems(|input|, s0, ll, dl, a, ma).None? || !Held(cap, h, a)
    {
      hide ItemAt, EndAt, Reaches, Expand, Stream, SupplyItems, SupplyItem, Prep, Emit, Held, Doubled, Holds;
      var n, out := Bits(), Expand(h, a[..k]);
      if r == BadCode {
        SupplyNext(|input|, s0, ll, dl, a[..k], ma[..k + 1], a[k], ma[k + 1]);
        NextSlices(a, ma, k);
        ItemsStuck(|input|, s0, ll, dl, a, ma, k + 1);
      } else {
        ItemUnique(n, ll, dl, ma[k], a[k], ma[k + 1], last, Pos());
        ExpandNext(h, a, k);
        HeldAt(cap, h, a[..k]);
        HoldsSince(cap, |out|, |Emit(out, last)|);
        if Held(cap, h, a) {
          HeldPrefix(cap, h, a, k + 1);
          HeldAt(cap, h, a[..k + 1]);
        }
      }
    }

    lemma {:induction false} HeldPrefix(cap: nat, h: seq<byte>, a: seq<Item>, k: nat)
      requires Held(cap, h, a) && k <= |a|
      ensures Held(cap, h, a[..k])
      decreases |a|
    {
      if k == |a| {
        assert a[..k] == a;
      } else {
        HeldPrefix(cap, h, a[..|a| - 1], k);
        assert a[..|a| - 1][..k] == a[..k];
      }
    }

    /** Stopping at the end of the complete reading. */
    lemma StoppedAtEnd(r: Outcome, ll: Lengths, dl: Lengths, h: seq<byte>, s0: Supply, cap: nat, s: Supply, last: Item,
                       a: seq<Item>, ma: seq<nat>, to: nat)
      requires |ma| == |a| + 1 && SupplyItems(|input|, s0, ll, dl, a, ma) == Some(s)
      requires EndAt(Bits(), ll, ma[|a|], to) && !ItemAt(Bits(), ll, dl, ma[|a|], last, Pos())
      requires Stopped(r, ll, dl, s, ma[|a|], last, Expand(h, a), Doubled(cap, |Expand(h, a)|))
      ensures r == Done <==> Lasts(|input|, s0, ll, dl, a, ma, to)
      ensures r == Done ==> Pos() == to
    {
      hide ItemAt, Stream, SupplyItems, SupplyItem, Prep, Matches, Window, Expand, Doubled;
      if r == Done || r == UnexpectedEnd { SymbolUnique(Bits(), ll, ma[|a|], END_OF_BLOCK, to, END_OF_BLOCK, Pos()); }
    }
  }

  // ---- Lemmas on the code buffer ----

  lemma NextByte(input: seq<byte>, zpos: nat, loaded: nat)
    requires if zpos < |input| then loaded == 8 * zpos else loaded >= 8 * |input|
    ensures Take(Drop(Stream(input), loaded), 8) == if zpos < |input| then input[zpos] else 0
  {
    if zpos < |input| {
      StreamByte(input, zpos);
    } else {
      StreamEnd(input, loaded);
      DropZero(8);
    }
  }

  lemma WordBound(n: nat)
    ensures Rev(n, 16) < 0x1_0000
  {
    hide Rev;
    RevBound(n, 16);
    assert Pow2(8) == 256;
    Pow2Add(8, 8);
  }

  lemma FetchStep(n: nat, pos: nat, nb: nat, b: nat)
    requires b == Take(Drop(n, pos + nb), 8)
    ensures Take(Drop(n, pos), nb) + b * Pow2(nb) == Take(Drop(n, pos), nb + 8)
  {
    TakeSplit(Drop(n, pos), nb, 8);
    DropDrop(n, pos, nb);
  }

  lemma ConsumeStep(n: nat, pos: nat, nb: nat, s: nat)
    requires s <= nb
    ensures Take(Drop(n, pos), nb) / Pow2(s) == Take(Drop(n, pos + s), nb - s)
    ensures Take(Drop(n, pos), nb) % Pow2(s) == Take(Drop(n, pos), s)
  {
    TakeTake(Drop(n, pos), s, nb - s);
    DropTake(Take(Drop(n, pos), nb), s);
    DropDrop(n, pos, s);
  }

  lemma PadStep(input: seq<byte>, pos: nat, nb: nat, pad: nat)
    requires pos + nb >= 8 * |input|
    ensures Take(Drop(Stream(input), pos), nb) == Take(Drop(Stream(input), pos), nb + pad)
  {
    TakeSplit(Drop(Stream(input), pos), nb, pad);
    DropDrop(Stream(input), pos, nb);
    StreamEnd(input, pos + nb);
    DropZero(pad);
  }

  // ---- Lemmas on items ----

  /** Any reading is the beginning of the complete one. */
  lemma Prefix(n: nat, ll: Lengths, dl: Lengths, from: nat, a: seq<Item>, ma: seq<nat>, to: nat,
               b: seq<Item>, mb: seq<nat>)
    requires Parse(n, ll, dl, from, a, ma) && EndAt(n, ll, ma[|a|], to)
    requires Parse(n, ll, dl, from, b, mb)
    ensures |b| <= |a| && b == a[..|b|] && mb == ma[..|b| + 1]
    ensures |b| < |a| ==> ItemAt(n, ll, dl, ma[|b|], a[|b|], ma[|b| + 1]) && ma[|b| + 1] <= to
  {
    hide ItemAt;
    forall it: Item, t: nat
      ensures !ItemAt(n, ll, dl, ma[|a|], it, t)
    {
      EndIsNoItem(n, ll, dl, ma[|a|], it, to, t);
    }
    StuckIsLongest(n, ll, dl, from, a, ma, b, mb);
    if |b| < |a| {
      ItemPresent(n, ll, dl, from, a, ma, |b|);
      MarksRise(n, ll, dl, from, a, ma, |b| + 1);
    }
  }

  lemma ParseStep(n: nat, ll: Lengths, dl: Lengths, from: nat, items: seq<Item>, marks: seq<nat>,
                  it: Item, to: nat, h: seq<byte>)
    requires Parse(n, ll, dl, from, items, marks) && ItemAt(n, ll, dl, marks[|items|], it, to)
    requires Reachable(h, items) && Reaches(Expand(h, items), it)
    ensures Parse(n, ll, dl, from, items + [it], marks + [to])
    ensures Reachable(h, items + [it]) && Expand(h, items + [it]) == Emit(Expand(h, items), it)
  {
    hide ItemAt, Reaches, Emit;
    assert (items + [it])[..|items|] == items;
  }

  lemma NextSlices(a: seq<Item>, ma: seq<nat>, k: nat)
    requires k < |a| && |ma| == |a| + 1
    ensures a[..k] + [a[k]] == a[..k + 1] && ma[..k + 1] + [ma[k + 1]] == ma[..k + 2]
  {
  }

  lemma ExpandNext(h: seq<byte>, a: seq<Item>, k: nat)
    requires k < |a|
    ensures Expand(h, a[..k + 1]) == Emit(Expand(h, a[..k]), a[k])
  {
    hide Emit;
    assert a[..k + 1][..k] == a[..k];
  }

  lemma LiteralMade(n: nat, ll: Lengths, dl: Lengths, from: nat, b: byte, to: nat)
    requires SymbolAt(n, ll, from, b, to)
    ensures ItemAt(n, ll, dl, from, Literal(b), to)
  {
  }

  lemma CopyMade(n: nat, ll: Lengths, dl: Lengths, from: nat, sym: nat, p1: nat, d: nat, p3: nat, e: nat, f: nat)
    requires 257 <= sym < 286 && d < 30 && SymbolAt(n, ll, from, sym, p1)
    requires SymbolAt(n, dl, p1 + LengthExtra(sym - 257), d, p3)
    requires e == Take(Drop(n, p1), LengthExtra(sym - 257)) && f == Take(Drop(n, p3), DistExtra(d))
    ensures ItemAt(n, ll, dl, from, Copy(sym - 257, e, d, f), p3 + DistExtra(d))
  {
    hide LengthBase, LengthExtra, DistBase, DistExtra, Matches, Take, Drop, Window;
  }

  lemma LengthBounded(n: nat, pos: nat, c: nat)
    requires c < 29
    ensures 3 <= LengthBase(c) + Take(Drop(n, pos), LengthExtra(c)) <= UINT_MAX
  {
    DropTake(Drop(n, pos), LengthExtra(c));
    Pow2Mono(LengthExtra(c), 5);
  }

  /** After a length symbol, without a distance symbol below 30 there is no item. */
  lemma NoDistance(n: nat, ll: Lengths, dl: Lengths, from: nat, sym: nat, p1: nat, p2: nat, d: int, p3: nat)
    requires 257 <= sym < 286 && LengthsOk(dl)
    requires SymbolAt(n, ll, from, sym, p1) && p2 == p1 + LengthExtra(sym - 257)
    requires if d < 0 then NoSymbol(n, dl, p2) else d >= 30 && SymbolAt(n, dl, p2, d, p3)
    ensures NoItem(n, ll, dl, from)
  {
    forall it: Item, to: nat
      ensures !ItemAt(n, ll, dl, from, it, to)
    {
      NoSuchDistance(n, ll, dl, from, sym, p1, p2, d, p3, it, to);
    }
    forall to: nat
      ensures !EndAt(n, ll, from, to)
    {
      if EndAt(n, ll, from, to) { SymbolUnique(n, ll, from, sym, p1, END_OF_BLOCK, to); }
    }
  }

  lemma NoSuchDistance(n: nat, ll: Lengths, dl: Lengths, from: nat, sym: nat, p1: nat, p2: nat, d: int, p3: nat,
                       it: Item, to: nat)
    requires 257 <= sym < 286 && LengthsOk(dl)
    requires SymbolAt(n, ll, from, sym, p1) && p2 == p1 + LengthExtra(sym - 257)
    requires if d < 0 then NoSymbol(n, dl, p2) else d >= 30 && SymbolAt(n, dl, p2, d, p3)
    ensures !ItemAt(n, ll, dl, from, it, to)
  {
    hide LengthBase, LengthExtra, DistBase, DistExtra, Matches, Take, Drop;
    if ItemAt(n, ll, dl, from, it, to) {
      ItemHead(n, ll, dl, from, it, to);
      SymbolUnique(n, ll, from, sym, p1, Head(it), from + ll[Head(it)]);
      if d >= 0 { SymbolUnique(n, dl, p2, d, p3, it.distCode, p2 + dl[it.distCode]); }
    }
  }

  lemma NothingThere(size: nat, s: Supply, n: nat, ll: Lengths, dl: Lengths, pos: nat)
    requires NoItem(n, ll, dl, pos)
    ensures Unreadable(size, s, n, ll, dl, pos)
  {
  }

  lemma StarvedAtOnce(size: nat, s: Supply, n: nat, ll: Lengths, dl: Lengths, pos: nat)
    requires Prep(size, s, pos).None?
    ensures Unreadable(size, s, n, ll, dl, pos)
  {
    hide Prep, ItemAt;
  }

  /** The supply ends between the length and the distance. */
  lemma StarvedAtDistance(size: nat, s0: Supply, s1: Supply, n: nat, ll: Lengths, dl: Lengths, pos: nat, sym: nat, p1: nat)
    requires 257 <= sym < 286 && SymbolAt(n, ll, pos, sym, p1) && Prep(size, s0, pos) == Some(s1)
    requires Prep(size, Recv(s1, p1, LengthExtra(sym - 257)), p1 + LengthExtra(sym - 257)).None?
    ensures Unreadable(size, s0, n, ll, dl, pos)
  {
    hide Prep, Recv, LengthBase, LengthExtra, DistBase, DistExtra, Matches, Take, Drop, Window;
    forall it: Item, to: nat | ItemAt(n, ll, dl, pos, it, to)
      ensures SupplyItem(size, s0, ll, dl, pos, it).None?
    {
      ItemHead(n, ll, dl, pos, it, to);
      SymbolUnique(n, ll, pos, sym, p1, Head(it), pos + ll[Head(it)]);
    }
    forall to: nat
      ensures !EndAt(n, ll, pos, to)
    {
      if EndAt(n, ll, pos, to) { SymbolUnique(n, ll, pos, sym, p1, END_OF_BLOCK, to); }
    }
  }

  lemma LiteralSupplied(size: nat, s: Supply, ll: Lengths, dl: Lengths, pos: nat, b: byte)
    ensures SupplyItem(size, s, ll, dl, pos, Literal(b)) == Prep(size, s, pos)
  {
  }

  lemma CopySupplied(size: nat, s0: Supply, s1: Supply, s3: Supply, n: nat, ll: Lengths, dl: Lengths, pos: nat, sym: nat,
                     p1: nat, d: nat, p3: nat, e: nat, f: nat)
    requires 257 <= sym < 286 && d < 30 && SymbolAt(n, ll, pos, sym, p1) && Prep(size, s0, pos) == Some(s1)
    requires SymbolAt(n, dl, p1 + LengthExtra(sym - 257), d, p3)
    requires Prep(size, Recv(s1, p1, LengthExtra(sym - 257)), p1 + LengthExtra(sym - 257)) == Some(s3)
    ensures SupplyItem(size, s0, ll, dl, pos, Copy(sym - 257, e, d, f)) == Some(Recv(s3, p3, DistExtra(d)))
  {
    hide Prep, Recv, LengthExtra, DistExtra, Matches;
  }

  /** A symbol that starts no item and is not the end of the block. */
  lemma NoHead(n: nat, ll: Lengths, dl: Lengths, from: nat, sym: int, to: nat)
    requires LengthsOk(ll)
    requires if sym < 0 then NoSymbol(n, ll, from) else sym >= 286 && SymbolAt(n, ll, from, sym, to)
    ensures NoItem(n, ll, dl, from)
  {
    forall it: Item, t: nat
      ensures !ItemAt(n, ll, dl, from, it, t)
    {
      if ItemAt(n, ll, dl, from, it, t) {
        ItemHead(n, ll, dl, from, it, t);
        if sym >= 0 { SymbolUnique(n, ll, from, sym, to, Head(it), from + ll[Head(it)]); }
      }
    }
    forall t: nat
      ensures !EndAt(n, ll, from, t)
    {
      if sym >= 0 && EndAt(n, ll, from, t) { SymbolUnique(n, ll, from, sym, to, END_OF_BLOCK, t); }
    }
  }
}
