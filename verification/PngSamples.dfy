/** From the bytes of an unfiltered row to the bytes of the output image, with or without an added alpha channel. */
module PngSamples {
  import opened Bits
  import opened Pixels
  import opened Powers

  // ---- What the output row is ----

  predicate Depth(d: nat) { d == 1 || d == 2 || d == 4 || d == 8 || d == 16 }

  /** The byte that sample `i` lies in, when samples take `depth` bits, and how many bits of it come before. */
  function ByteOf(i: nat, depth: nat): nat { i * depth / 8 }

  function Before(i: nat, depth: nat): nat { i * depth % 8 }

  /** Sample `i` of a row: samples below a byte are packed, the first in the high-order bits. */
  function Sample(row: seq<byte>, i: nat, depth: nat): nat
    requires (depth == 1 || depth == 2 || depth == 4 || depth == 8) && Fits(row, i + 1, depth)
  {
    if depth == 8 then row[i]
    else
      SmallFits(i, depth);
      Take(Drop(row[ByteOf(i, depth)], 8 - depth - Before(i, depth)), depth)
  }

  /** The row holds `n` samples. */
  predicate Fits(row: seq<byte>, n: nat, depth: nat) { n * depth <= 8 * |row| }

  lemma FitsLess(row: seq<byte>, n: nat, i: nat, depth: nat)
    requires Fits(row, n, depth) && i <= n
    ensures Fits(row, i, depth)
  {
    MulMono(i, n, depth);
  }

  lemma SmallFits(i: nat, depth: nat)
    requires depth == 1 || depth == 2 || depth == 4
    ensures Before(i, depth) + depth <= 8
    ensures forall len: nat :: (i + 1) * depth <= 8 * len ==> ByteOf(i, depth) < len
  {
    if depth == 1 {} else if depth == 2 {} else {}
  }

  lemma Place(i: nat, depth: nat)
    requires depth == 1 || depth == 2 || depth == 4
    ensures var per := 8 / depth; ByteOf(i, depth) == i / per && Before(i, depth) == i % per * depth
  {
    var per := 8 / depth;
    if depth == 1 {
    } else if depth == 2 {
      DivModIs(i * 2, 8, i / 4, i % 4 * 2);
    } else {
      DivModIs(i * 4, 8, i / 2, i % 2 * 4);
    }
  }

  /** Where the next sample lies, and when a new byte begins. */
  lemma Onward(i: nat, depth: nat)
    requires depth == 1 || depth == 2 || depth == 4
    ensures i % (8 / depth) == 0 <==> Before(i, depth) == 0
    ensures var used := Before(i, depth) + depth;
            && (used < 8 ==> Before(i + 1, depth) == used && ByteOf(i + 1, depth) == ByteOf(i, depth))
            && (used >= 8 ==> used == 8 && Before(i + 1, depth) == 0 && ByteOf(i + 1, depth) == ByteOf(i, depth) + 1)
  {
    hide ByteOf, Before;
    Place(i, depth);
    Place(i + 1, depth);
    if depth == 1 {} else if depth == 2 {} else {}
  }

  /** The factor that makes the largest grey sample 255; indices into a palette and wider samples stay as they are. */
  function Scale(depth: nat, color: nat): nat {
    if color != 0 then 1
    else if depth == 1 then 0xff
    else if depth == 2 then 0x55
    else if depth == 4 then 0x11
    else 1
  }

  lemma ScaledRange(x: nat, depth: nat, color: nat)
    requires depth == 1 || depth == 2 || depth == 4
    ensures Take(x, depth) * Scale(depth, color) < 256
  {
    DropTake(x, depth);
    assert Pow2(1) == 2 && Pow2(2) == 4 && Pow2(4) == 16;
    var t := Take(x, depth);
    if depth == 1 { assert t * 0xff < 256; } else if depth == 2 { assert t * 0x55 < 256; } else { assert t * 0x11 < 256; }
  }

  // ---- Shifting a byte left ----

  lemma {:induction false} ShiftUp(x: nat, b: nat, a: nat)
    ensures Take(x * Pow2(b), a + b) == Take(x, a) * Pow2(b) && Drop(x * Pow2(b), a + b) == Drop(x, a)
  {
    if b > 0 {
      var y := x * Pow2(b - 1);
      assert x * Pow2(b) == 2 * y;
      assert Take(x, a) * Pow2(b) == 2 * (Take(x, a) * Pow2(b - 1));
      ShiftUp(x, b - 1, a);
      assert Take(2 * y, a + b) == 2 * Take(y, a + b - 1) && Drop(2 * y, a + b) == Drop(y, a + b - 1);
    }
  }

  /** The byte in hand after `used` bits of `v` have been shifted out at the top. */
  function InHand(v: byte, used: nat): nat
    requires used <= 8
  {
    Take(v, 8 - used) * Pow2(used)
  }

  lemma InHandTop(v: byte, used: nat, d: nat)
    requires used + d <= 8
    ensures InHand(v, used) / Pow2(8 - d) == Take(Drop(v, 8 - d - used), d)
  {
    hide Take, Drop, Pow2;
    var x, rest := Take(v, 8 - used), 8 - d - used;
    ShiftUp(x, used, rest);
    DropTake(x * Pow2(used), 8 - d);
    TakeTake(v, rest, d);
  }

  lemma InHandShift(v: byte, used: nat, d: nat)
    requires used + d <= 8
    ensures InHand(v, used) * Pow2(d) % 256 == InHand(v, used + d)
  {
    EightBits();
    hide Take, Drop, Pow2;
    var x, rest := Take(v, 8 - used), 8 - d - used;
    TakeTake(v, rest, d);
    ShiftUp(x, used + d, rest);
    DropTake(x * Pow2(used + d), 8);
    Pow2Add(used, d);
    Associate(x, Pow2(used), Pow2(d));
  }

  lemma InHandStart(v: byte)
    ensures InHand(v, 0) == v
  {
    DropTake(v, 8);
    EightBits();
    DivModIs(v, 256, 0, v);
  }

  lemma EightBits()
    ensures Pow2(8) == 256
  {
  }

  // ---- Unpacking ----

  /** The first `n` samples of a row, one byte each. */
  function Samples(row: seq<byte>, n: nat, depth: nat, color: nat): (s: seq<byte>)
    requires (depth == 1 || depth == 2 || depth == 4 || depth == 8) && Fits(row, n, depth)
    ensures |s| == n
  {
    if n == 0 then []
    else
      FitsLess(row, n, n - 1, depth);
      SampleRange(row, n - 1, depth, color);
      Samples(row, n - 1, depth, color) + [Sample(row, n - 1, depth) * Scale(depth, color)]
  }

  lemma {:induction false} SamplesOfBytes(row: seq<byte>, n: nat, color: nat)
    requires Fits(row, n, 8)
    ensures n <= |row| && Samples(row, n, 8, color) == row[..n]
  {
    if n > 0 {
      SamplesOfBytes(row, n - 1, color);
      assert row[..n] == row[..n - 1] + [row[n - 1]];
    }
  }

  lemma SamplesStep(row: seq<byte>, n: nat, depth: nat, color: nat)
    requires (depth == 1 || depth == 2 || depth == 4) && Fits(row, n + 1, depth)
    ensures Fits(row, n, depth) && Sample(row, n, depth) * Scale(depth, color) < 256
    ensures Samples(row, n + 1, depth, color)
         == Samples(row, n, depth, color) + [Sample(row, n, depth) * Scale(depth, color)]
  {
    FitsLess(row, n + 1, n, depth);
    SampleRange(row, n, depth, color);
  }

  lemma SampleRange(row: seq<byte>, i: nat, depth: nat, color: nat)
    requires (depth == 1 || depth == 2 || depth == 4 || depth == 8) && Fits(row, i + 1, depth)
    ensures Sample(row, i, depth) * Scale(depth, color) < 256
  {
    if depth < 8 {
      SampleAt(row, i, depth);
      ScaledRange(Drop(row[ByteOf(i, depth)], 8 - depth - Before(i, depth)), depth, color);
    }
  }

  lemma SampleAt(row: seq<byte>, i: nat, depth: nat)
    requires (depth == 1 || depth == 2 || depth == 4) && Fits(row, i + 1, depth)
    ensures ByteOf(i, depth) < |row| && Before(i, depth) + depth <= 8
    ensures Sample(row, i, depth) == Take(Drop(row[ByteOf(i, depth)], 8 - depth - Before(i, depth)), depth)
  {
    hide ByteOf, Before, Take, Drop;
    SmallFits(i, depth);
  }

  /** Writes `n` samples of less than a byte. The source has one such loop for each of the depths. */
  method Unpack(buf: array<byte>, cur: nat, out: array<byte>, at: nat, n: nat, depth: nat, color: nat,
                ghost row: seq<byte>)
    requires buf != out && (depth == 1 || depth == 2 || depth == 4)
    requires Fits(row, n, depth) && cur + |row| <= buf.Length && buf[cur..cur + |row|] == row
    requires at + n <= out.Length
    modifies out
    ensures out[at..at + n] == Samples(row, n, depth, color)
    ensures forall j :: 0 <= j < out.Length && !(at <= j < at + n) ==> out[j] == old(out[j])
  {
    hide Holding, Scale, Fits, Samples, Sample, ScaledTop, ShiftedOut;
    SamplesStart(row, cur, depth, color);
    var next: nat, inb: nat := cur, 0;
    for i := 0 to n
      invariant Holding(row, i, depth, cur, next, inb)
      invariant Fits(row, i, depth) && out[at..at + i] == Samples(row, i, depth, color)
      invariant forall j :: 0 <= j < out.Length && !(at <= j < at + n) ==> out[j] == old(out[j])
    {
      FitsLess(row, n, i + 1, depth);
      SamplesStep(row, i, depth, color);
      if i % (8 / depth) == 0 {
        NewByte(row, i, depth, cur, next, inb);
        inb := buf[next];
        assert inb == buf[cur..cur + |row|][next - cur];
        next := next + 1;
      }
      TopSample(row, i, depth, color, cur, next, inb);
      out[at + i] := ScaledTop(inb, depth, color);
      assert out[at..at + i + 1] == out[at..at + i] + [out[at + i]];
      inb := ShiftedOut(inb, depth);
    }
  }

  function ScaledTop(inb: nat, depth: nat, color: nat): nat
    requires depth <= 8
  {
    Scale(depth, color) * (inb / Pow2(8 - depth))
  }

  function ShiftedOut(inb: nat, depth: nat): nat { inb * Pow2(depth) % 256 }

  /** Before sample `i`: the bytes up to `next` are used, but for what is left of the byte in hand. */
  ghost predicate Holding(row: seq<byte>, i: nat, depth: nat, cur: nat, next: nat, inb: nat) {
    if Before(i, depth) == 0 then next == cur + ByteOf(i, depth)
    else
      && next == cur + ByteOf(i, depth) + 1 && ByteOf(i, depth) < |row| && Before(i, depth) < 8
      && inb == InHand(row[ByteOf(i, depth)], Before(i, depth))
  }

  lemma SamplesStart(row: seq<byte>, cur: nat, depth: nat, color: nat)
    requires depth == 1 || depth == 2 || depth == 4
    ensures Holding(row, 0, depth, cur, cur, 0)
    ensures Fits(row, 0, depth) && Samples(row, 0, depth, color) == []
  {
  }

  lemma NewByte(row: seq<byte>, i: nat, depth: nat, cur: nat, next: nat, inb: nat)
    requires (depth == 1 || depth == 2 || depth == 4) && Fits(row, i + 1, depth)
    requires Holding(row, i, depth, cur, next, inb) && i % (8 / depth) == 0
    ensures Before(i, depth) == 0 && next == cur + ByteOf(i, depth) < cur + |row|
  {
    hide ByteOf, Before, Fits, InHand;
    Onward(i, depth);
    SampleAt(row, i, depth);
  }

  /** The top bits of the byte in hand are the next sample. */
  lemma TopSample(row: seq<byte>, i: nat, depth: nat, color: nat, cur: nat, next: nat, inb: nat)
    requires (depth == 1 || depth == 2 || depth == 4) && Fits(row, i + 1, depth)
    requires if i % (8 / depth) > 0 then Holding(row, i, depth, cur, next, inb)
             else ByteOf(i, depth) < |row| && inb == row[ByteOf(i, depth)] && next == cur + ByteOf(i, depth) + 1
    ensures ScaledTop(inb, depth, color) == Sample(row, i, depth) * Scale(depth, color)
    ensures Holding(row, i + 1, depth, cur, next, ShiftedOut(inb, depth))
  {
    hide Take, Drop, Pow2, InHand, ByteOf, Before, Scale, Fits, Sample;
    SampleAt(row, i, depth);
    Onward(i, depth);
    var v, used := row[ByteOf(i, depth)], Before(i, depth);
    InHandStart(v);
    InHandTop(v, used, depth);
    InHandShift(v, used, depth);
    Commute(Scale(depth, color), inb / Pow2(8 - depth));
  }

  // ---- Adding an alpha channel ----

  /** `x` pixels of `n` bytes, each followed by `alpha`. */
  function AddAlpha(s: seq<byte>, x: nat, n: nat, alpha: seq<byte>): (r: seq<byte>)
    requires x * n <= |s|
    ensures |r| == x * (n + |alpha|)
  {
    if x == 0 then []
    else
      OneMore(x, n);
      OneMore(x, n + |alpha|);
      AddAlpha(s, x - 1, n, alpha) + s[(x - 1) * n..x * n] + alpha
  }

  /**
   * Makes room for an opaque alpha byte after each pixel, from the last pixel back to the first. The destination may
   * be the source itself: no byte is overwritten before it has been moved.
   */
  method AlphaExpand(dest: array<byte>, at: nat, src: array<byte>, from: nat, x: nat, n: nat, ghost s: seq<byte>)
    requires n == 1 || n == 3
    requires dest != src || at == from
    requires |s| == x * n && from + |s| <= src.Length && src[from..from + |s|] == s
    requires at + x * (n + 1) <= dest.Length
    modifies dest
    ensures dest[at..at + x * (n + 1)] == AddAlpha(s, x, n, [255])
    ensures forall j :: 0 <= j < dest.Length && !(at <= j < at + x * (n + 1)) ==> dest[j] == old(dest[j])
  {
    hide AddAlpha, Moved;
    var i := x;
    if n == 1 {
      while i > 0
        invariant i <= x
        invariant forall q: nat :: q < i ==> src[from + q] == s[q]
        invariant forall p: nat :: i <= p < x ==> Moved(dest[..], at, p, 1, s)
        invariant SameOutside(old(dest[..]), dest[..], at, at + x * 2)
      {
        i := i - 1;
        ghost var d := dest[..];
        MoveGrey(dest, at, src, from, i, x, s);
        StillMoved(d, dest[..], at, i, x, 1, s);
      }
    } else {
      while i > 0
        invariant i <= x
        invariant forall q: nat :: q < i * 3 ==> src[from + q] == s[q]
        invariant forall p: nat :: i <= p < x ==> Moved(dest[..], at, p, 3, s)
        invariant SameOutside(old(dest[..]), dest[..], at, at + x * 4)
      {
        i := i - 1;
        ghost var d := dest[..];
        MoveColor(dest, at, src, from, i, x, s);
        StillMoved(d, dest[..], at, i, x, 3, s);
      }
    }
    AllMoved(dest[..], at, x, n, s);
  }

  ghost predicate SameOutside(a: seq<byte>, b: seq<byte>, lo: nat, hi: nat) {
    |a| == |b| && forall j :: 0 <= j < |a| && !(lo <= j < hi) ==> a[j] == b[j]
  }

  /** Pixel `p` is in its place, with its alpha byte. */
  ghost predicate Moved(d: seq<byte>, at: nat, p: nat, n: nat, s: seq<byte>)
    requires n == 1 || n == 3
  {
    && p * n + n <= |s| && at + p * (n + 1) + n < |d|
    && d[at + p * (n + 1)..at + p * (n + 1) + n] == s[p * n..p * n + n] && d[at + p * (n + 1) + n] == 255
  }

  lemma StillMoved(d: seq<byte>, e: seq<byte>, at: nat, i: nat, x: nat, n: nat, s: seq<byte>)
    requires n == 1 || n == 3
    requires forall p: nat :: i < p < x ==> Moved(d, at, p, n, s)
    requires SameOutside(d, e, at + i * (n + 1), at + i * (n + 1) + n + 1)
    ensures forall p: nat :: i < p < x ==> Moved(e, at, p, n, s)
  {
    forall p: nat | i < p < x
      ensures Moved(e, at, p, n, s)
    {
      assert Moved(d, at, p, n, s);
      var a, m := at + p * (n + 1), n + 1;
      assert i * m + m <= p * m by { MulMono(i + 1, p, m); }
      assert e[a..a + n] == d[a..a + n];
    }
  }

  method MoveGrey(dest: array<byte>, at: nat, src: array<byte>, from: nat, i: nat, x: nat, ghost s: seq<byte>)
    requires dest != src || at == from
    requires i < x == |s| && from + |s| <= src.Length && src[from + i] == s[i] && at + x * 2 <= dest.Length
    modifies dest
    ensures Moved(dest[..], at, i, 1, s)
    ensures SameOutside(old(dest[..]), dest[..], at + i * 2, at + i * 2 + 2)
  {
    dest[at + i * 2 + 1] := 255;
    dest[at + i * 2] := src[from + i];
    assert dest[..][at + i * 2..at + i * 2 + 1] == s[i..i + 1];
  }

  method MoveColor(dest: array<byte>, at: nat, src: array<byte>, from: nat, i: nat, x: nat, ghost s: seq<byte>)
    requires dest != src || at == from
    requires i < x && |s| == x * 3 && from + |s| <= src.Length && at + x * 4 <= dest.Length
    requires forall q: nat :: q < i * 3 + 3 ==> src[from + q] == s[q]
    modifies dest
    ensures Moved(dest[..], at, i, 3, s)
    ensures SameOutside(old(dest[..]), dest[..], at + i * 4, at + i * 4 + 4)
  {
    dest[at + i * 4 + 3] := 255;
    dest[at + i * 4 + 2] := src[from + i * 3 + 2];
    dest[at + i * 4 + 1] := src[from + i * 3 + 1];
    dest[at + i * 4] := src[from + i * 3];
    assert dest[..][at + i * 4..at + i * 4 + 3] == s[i * 3..i * 3 + 3];
  }

  lemma {:induction false} AllMoved(d: seq<byte>, at: nat, x: nat, n: nat, s: seq<byte>)
    requires n == 1 || n == 3
    requires x * n <= |s| && at + x * (n + 1) <= |d|
    requires forall p: nat :: p < x ==> Moved(d, at, p, n, s)
    ensures d[at..at + x * (n + 1)] == AddAlpha(s, x, n, [255])
  {
    hide Moved, AddAlpha;
    if x == 0 {
      NoAlpha(s, n);
    } else {
      OneMore(x, n);
      OneMore(x, n + 1);
      AllMoved(d, at, x - 1, n, s);
      LastMoved(d, at, x - 1, n, s);
      AddAlphaStep(s, x, n, [255]);
    }
  }

  lemma NoAlpha(s: seq<byte>, n: nat)
    ensures AddAlpha(s, 0, n, [255]) == []
  {
  }

  lemma LastMoved(d: seq<byte>, at: nat, p: nat, n: nat, s: seq<byte>)
    requires (n == 1 || n == 3) && Moved(d, at, p, n, s)
    ensures p * n + n <= |s| && at + p * (n + 1) + n + 1 <= |d|
    ensures d[at..at + p * (n + 1) + (n + 1)] == d[at..at + p * (n + 1)] + (s[p * n..p * n + n] + [255])
  {
    MovedParts(d, at, at + p * (n + 1), n);
  }

  lemma MovedParts(d: seq<byte>, at: nat, k: nat, n: nat)
    requires at <= k && k + n < |d|
    ensures d[at..k + (n + 1)] == d[at..k] + (d[k..k + n] + [d[k + n]])
  {
  }

  // ---- Samples of two bytes, stored in the order of a little-endian host ----

  function Wide(row: seq<byte>, n: nat): (s: seq<byte>)
    requires 2 * n <= |row|
    ensures |s| == 2 * n
  {
    if n == 0 then [] else Wide(row, n - 1) + [row[2 * n - 1], row[2 * n - 2]]
  }

  /** `x` pixels of `n` two-byte samples, each followed by an opaque alpha sample. */
  function WideAlpha(row: seq<byte>, x: nat, n: nat): (s: seq<byte>)
    requires x * (2 * n) <= |row|
    ensures |s| == x * (2 * n + 2)
  {
    if x == 0 then []
    else
      OneMore(x, 2 * n);
      OneMore(x, 2 * n + 2);
      WideAlpha(row, x - 1, n) + Wide(row[(x - 1) * (2 * n)..x * (2 * n)], n) + [255, 255]
  }

  method StoreWide(buf: array<byte>, cur: nat, out: array<byte>, at: nat, n: nat, ghost row: seq<byte>)
    requires buf != out && 2 * n <= |row| && cur + |row| <= buf.Length && buf[cur..cur + |row|] == row
    requires at + 2 * n <= out.Length
    modifies out
    ensures out[at..at + 2 * n] == Wide(row, n)
    ensures SameOutside(old(out[..]), out[..], at, at + 2 * n)
  {
    hide Wide, SameOutside;
    WideStart(row, out[..], at, at + 2 * n);
    for i := 0 to n
      invariant out[at..at + 2 * i] == Wide(row, i)
      invariant SameOutside(old(out[..]), out[..], at, at + 2 * n)
    {
      ghost var before := out[..];
      StoreSample(buf, cur + 2 * i, out, at + 2 * i);
      OutsideTwice(old(out[..]), before, out[..], at, at + 2 * n, at + 2 * i, at + 2 * i + 2);
      WideStep(buf[..], cur, row, i);
    }
  }

  /** One big-endian sample, read as a number and stored with its low byte first. */
  method StoreSample(buf: array<byte>, cur: nat, out: array<byte>, at: nat)
    requires buf != out && cur + 2 <= buf.Length && at + 2 <= out.Length
    modifies out
    ensures out[at..at + 2] == [buf[cur + 1], buf[cur]]
    ensures SameOutside(old(out[..]), out[..], at, at + 2)
  {
    var hi: nat, lo: nat := buf[cur], buf[cur + 1];
    var v := hi * 256 + lo;
    out[at] := v % 256;
    out[at + 1] := v / 256;
  }

  lemma WideStart(row: seq<byte>, out: seq<byte>, lo: nat, hi: nat)
    ensures Wide(row, 0) == [] && SameOutside(out, out, lo, hi)
  {
  }

  lemma WideStep(buf: seq<byte>, cur: nat, row: seq<byte>, i: nat)
    requires cur + |row| <= |buf| && buf[cur..cur + |row|] == row && 2 * i + 2 <= |row|
    ensures Wide(row, i + 1) == Wide(row, i) + [buf[cur + 2 * i + 1], buf[cur + 2 * i]]
  {
    assert buf[cur + 2 * i] == buf[cur..cur + |row|][2 * i] && buf[cur + 2 * i + 1] == buf[cur..cur + |row|][2 * i + 1];
  }

  method StoreWideAlpha(buf: array<byte>, cur: nat, out: array<byte>, at: nat, x: nat, n: nat, ghost row: seq<byte>)
    requires buf != out && x * (2 * n) <= |row| && cur + |row| <= buf.Length && buf[cur..cur + |row|] == row
    requires at + x * (2 * n + 2) <= out.Length
    modifies out
    ensures out[at..at + x * (2 * n + 2)] == WideAlpha(row, x, n)
    ensures SameOutside(old(out[..]), out[..], at, at + x * (2 * n + 2))
  {
    hide WideDone, Wide, WideAlpha, SameOutside;
    var from: nat, to: nat := 0, 0;
    WideDoneStart(row, x, n, out[..], at);
    for i := 0 to x
      invariant WideDone(row, i, x, n, old(out[..]), out[..], at, from, to)
    {
      WideRoom(row, i, x, n, old(out[..]), out[..], at, from, to);
      ghost var before := out[..];
      SubSlice(buf[..], cur, row, from, from + 2 * n);
      StoreWidePixel(buf, cur + from, out, at + to, n, row[from..from + 2 * n]);
      WideDoneStep(row, i, x, n, old(out[..]), before, out[..], at, from, to);
      from, to := from + 2 * n, to + 2 * n + 2;
    }
    WideDoneEnd(row, x, n, old(out[..]), out[..], at, from, to);
  }

  /** The first `i` of `x` pixels are stored, from the first `from` bytes of the row to the first `to` of the output row. */
  ghost predicate WideDone(row: seq<byte>, i: nat, x: nat, n: nat, was: seq<byte>, now: seq<byte>, at: nat, from: nat, to: nat) {
    && i <= x && x * (2 * n) <= |row| && from == i * (2 * n) <= |row|
    && at + x * (2 * n + 2) <= |now| && to == i * (2 * n + 2) <= x * (2 * n + 2)
    && now[at..at + to] == WideAlpha(row, i, n)
    && SameOutside(was, now, at, at + x * (2 * n + 2))
  }

  lemma WideDoneStart(row: seq<byte>, x: nat, n: nat, out: seq<byte>, at: nat)
    requires x * (2 * n) <= |row| && at + x * (2 * n + 2) <= |out|
    ensures WideDone(row, 0, x, n, out, out, at, 0, 0)
  {
  }

  lemma WideRoom(row: seq<byte>, i: nat, x: nat, n: nat, was: seq<byte>, now: seq<byte>, at: nat, from: nat, to: nat)
    requires i < x && WideDone(row, i, x, n, was, now, at, from, to)
    ensures from + 2 * n <= |row| && at + to + 2 * n + 2 <= |now|
  {
    hide WideAlpha, SameOutside;
    WideAlphaStep(row, i, x, n);
  }

  lemma WideDoneStep(row: seq<byte>, i: nat, x: nat, n: nat, was: seq<byte>, mid: seq<byte>, now: seq<byte>,
                     at: nat, from: nat, to: nat)
    requires i < x && WideDone(row, i, x, n, was, mid, at, from, to)
    requires from + 2 * n <= |row| && at + to + 2 * n + 2 <= |mid| == |now|
    requires SameOutside(mid, now, at + to, at + to + 2 * n + 2)
    requires now[at + to..at + to + 2 * n + 2] == Wide(row[from..from + 2 * n], n) + [255, 255]
    ensures WideDone(row, i + 1, x, n, was, now, at, from + 2 * n, to + 2 * n + 2)
  {
    hide Wide, WideAlpha, SameOutside;
    WideAlphaStep(row, i, x, n);
    OutsideTwice(was, mid, now, at, at + x * (2 * n + 2), at + to, at + to + 2 * n + 2);
  }

  lemma WideDoneEnd(row: seq<byte>, x: nat, n: nat, was: seq<byte>, now: seq<byte>, at: nat, from: nat, to: nat)
    requires WideDone(row, x, x, n, was, now, at, from, to)
    ensures x * (2 * n) <= |row| && at + x * (2 * n + 2) <= |now|
    ensures now[at..at + x * (2 * n + 2)] == WideAlpha(row, x, n)
    ensures SameOutside(was, now, at, at + x * (2 * n + 2))
  {
    hide WideAlpha, SameOutside;
  }

  method StoreWidePixel(buf: array<byte>, cur: nat, out: array<byte>, at: nat, n: nat, ghost pixel: seq<byte>)
    requires buf != out && cur + 2 * n <= buf.Length && buf[cur..cur + 2 * n] == pixel && at + 2 * n + 2 <= out.Length
    modifies out
    ensures out[at..at + 2 * n + 2] == Wide(pixel, n) + [255, 255]
    ensures SameOutside(old(out[..]), out[..], at, at + 2 * n + 2)
  {
    hide Wide;
    StoreWide(buf, cur, out, at, n, pixel);
    ghost var stored := out[at..at + 2 * n];
    out[at + 2 * n] := 255;
    out[at + 2 * n + 1] := 255;
    assert out[at..at + 2 * n] == stored;
    assert out[at..at + 2 * n + 2] == stored + [255, 255];
  }

  lemma WideAlphaStep(row: seq<byte>, i: nat, x: nat, n: nat)
    requires i < x && x * (2 * n) <= |row|
    ensures (i + 1) * (2 * n) == i * (2 * n) + 2 * n <= |row|
    ensures (i + 1) * (2 * n + 2) == i * (2 * n + 2) + (2 * n + 2) <= x * (2 * n + 2)
    ensures WideAlpha(row, i + 1, n)
         == WideAlpha(row, i, n) + (Wide(row[i * (2 * n)..i * (2 * n) + 2 * n], n) + [255, 255])
  {
    OneMore(i + 1, 2 * n);
    OneMore(i + 1, 2 * n + 2);
    MulMono(i + 1, x, 2 * n);
    MulMono(i + 1, x, 2 * n + 2);
  }

  /** A later change within `lo..hi` that keeps what was written before it. */
  lemma OutsideTwice(a: seq<byte>, b: seq<byte>, c: seq<byte>, lo: nat, hi: nat, lo': nat, hi': nat)
    requires SameOutside(a, b, lo, hi) && SameOutside(b, c, lo', hi') && lo <= lo' <= hi' <= hi <= |b|
    ensures SameOutside(a, c, lo, hi) && |a| == |b| == |c|
    ensures c[lo..lo'] == b[lo..lo'] && c[lo..hi'] == b[lo..lo'] + c[lo'..hi']
  {
  }

  // ---- One output row ----

  /** An alpha channel is added to grey or colour images only. */
  predicate Channels(imgN: nat, outN: nat) { 1 <= imgN <= 4 && (outN == imgN || (outN == imgN + 1 && imgN % 2 == 1)) }

  function Bytes(depth: nat): nat { if depth == 16 then 2 else 1 }

  function DestRow(row: seq<byte>, x: nat, imgN: nat, outN: nat, depth: nat, color: nat): (r: seq<byte>)
    requires Depth(depth) && Channels(imgN, outN) && Fits(row, x * imgN, depth)
    ensures |r| == x * outN * Bytes(depth)
  {
    if depth == 16 then
      Associate(x, imgN, 2);
      if outN == imgN then Wide(row, x * imgN) else Associate(x, outN, 2); WideAlpha(row, x, imgN)
    else
      var s := Samples(row, x * imgN, depth, color);
      if outN == imgN then s else AddAlpha(s, x, imgN, [255])
  }

  method CopyRow(buf: array<byte>, cur: nat, out: array<byte>, at: nat, n: nat)
    requires buf != out && cur + n <= buf.Length && at + n <= out.Length
    modifies out
    ensures out[at..at + n] == buf[cur..cur + n]
    ensures SameOutside(old(out[..]), out[..], at, at + n)
  {
    for i := 0 to n
      invariant out[at..at + i] == buf[cur..cur + i]
      invariant SameOutside(old(out[..]), out[..], at, at + n)
    {
      out[at + i] := buf[cur + i];
    }
  }

  method StorePacked(buf: array<byte>, cur: nat, out: array<byte>, at: nat, x: nat, imgN: nat, outN: nat,
                     depth: nat, color: nat, ghost row: seq<byte>)
    requires buf != out && cur + |row| <= buf.Length && buf[cur..cur + |row|] == row
    requires (depth == 1 || depth == 2 || depth == 4) && Channels(imgN, outN) && Fits(row, x * imgN, depth)
    requires at + x * outN <= out.Length
    modifies out
    ensures out[at..at + x * outN] == DestRow(row, x, imgN, outN, depth, color)
    ensures SameOutside(old(out[..]), out[..], at, at + x * outN)
  {
    hide Samples, AddAlpha, Fits;
    MulMono(imgN, outN, x);
    Commute(x, imgN);
    Commute(x, outN);
    Unpack(buf, cur, out, at, x * imgN, depth, color, row);
    if imgN != outN {
      AlphaExpand(out, at, out, at, x, imgN, Samples(row, x * imgN, depth, color));
    }
  }

  method StoreBytes(buf: array<byte>, cur: nat, out: array<byte>, at: nat, x: nat, imgN: nat, outN: nat,
                    color: nat, ghost row: seq<byte>)
    requires buf != out && cur + |row| <= buf.Length && buf[cur..cur + |row|] == row
    requires Channels(imgN, outN) && |row| == x * imgN && Fits(row, x * imgN, 8)
    requires at + x * outN <= out.Length
    modifies out
    ensures out[at..at + x * outN] == DestRow(row, x, imgN, outN, 8, color)
    ensures SameOutside(old(out[..]), out[..], at, at + x * outN)
  {
    hide Samples, AddAlpha, Fits;
    SamplesOfBytes(row, x * imgN, color);
    assert row[..x * imgN] == row;
    if imgN == outN {
      CopyRow(buf, cur, out, at, x * imgN);
    } else {
      AlphaExpand(out, at, buf, cur, x, imgN, row);
    }
  }

  method StoreWords(buf: array<byte>, cur: nat, out: array<byte>, at: nat, x: nat, imgN: nat, outN: nat,
                    color: nat, ghost row: seq<byte>)
    requires buf != out && cur + |row| <= buf.Length && buf[cur..cur + |row|] == row
    requires Channels(imgN, outN) && |row| == x * imgN * 2 && Fits(row, x * imgN, 16)
    requires at + x * outN * 2 <= out.Length
    modifies out
    ensures out[at..at + x * outN * 2] == DestRow(row, x, imgN, outN, 16, color)
    ensures SameOutside(old(out[..]), out[..], at, at + x * outN * 2)
  {
    hide Wide, WideAlpha, Fits;
    Associate(x, imgN, 2);
    Associate(x, outN, 2);
    if imgN == outN {
      StoreWide(buf, cur, out, at, x * imgN, row);
    } else {
      StoreWideAlpha(buf, cur, out, at, x, imgN, row);
    }
  }

  /** Stores the unfiltered row at `cur` as an output row at `at`. */
  method StoreRow(buf: array<byte>, cur: nat, out: array<byte>, at: nat, x: nat, imgN: nat, outN: nat,
                  depth: nat, color: nat, ghost row: seq<byte>)
    requires buf != out && cur + |row| <= buf.Length && buf[cur..cur + |row|] == row
    requires Depth(depth) && Channels(imgN, outN) && Fits(row, x * imgN, depth)
    requires depth >= 8 ==> |row| == x * imgN * Bytes(depth)
    requires at + x * outN * Bytes(depth) <= out.Length
    modifies out
    ensures out[at..at + x * outN * Bytes(depth)] == DestRow(row, x, imgN, outN, depth, color)
    ensures SameOutside(old(out[..]), out[..], at, at + x * outN * Bytes(depth))
  {
    hide DestRow, Fits, Channels, SameOutside;
    if depth < 8 {
      StorePacked(buf, cur, out, at, x, imgN, outN, depth, color, row);
    } else if depth == 8 {
      StoreBytes(buf, cur, out, at, x, imgN, outN, color, row);
    } else {
      StoreWords(buf, cur, out, at, x, imgN, outN, color, row);
    }
  }

  // ---- The pixels of an output row ----

  /** The bytes of one output sample. */
  function OutSample(row: seq<byte>, k: nat, depth: nat, color: nat): (s: seq<byte>)
    requires Depth(depth) && Fits(row, k + 1, depth)
    ensures |s| == Bytes(depth)
  {
    if depth == 16 then [row[2 * k + 1], row[2 * k]]
    else
      SampleRange(row, k, depth, color);
      [Sample(row, k, depth) * Scale(depth, color)]
  }

  /** The bytes of `m` output samples, from sample `k` on. */
  function OutRun(row: seq<byte>, k: nat, m: nat, depth: nat, color: nat): (s: seq<byte>)
    requires Depth(depth) && Fits(row, k + m, depth)
    ensures |s| == m * Bytes(depth)
  {
    if m == 0 then []
    else
      FitsLess(row, k + m, k + m - 1, depth);
      OutRun(row, k, m - 1, depth, color) + OutSample(row, k + m - 1, depth, color)
  }

  function Alpha(imgN: nat, outN: nat, depth: nat): seq<byte> {
    if outN == imgN then [] else if depth == 16 then [255, 255] else [255]
  }

  /** The output pixel made of the samples of pixel `i` of the row. */
  function OutPixel(row: seq<byte>, i: nat, imgN: nat, outN: nat, depth: nat, color: nat): seq<byte>
    requires Depth(depth) && Fits(row, i * imgN + imgN, depth)
  {
    OutRun(row, i * imgN, imgN, depth, color) + Alpha(imgN, outN, depth)
  }

  lemma {:induction false} SamplesAt(row: seq<byte>, n: nat, depth: nat, color: nat, k: nat)
    requires (depth == 1 || depth == 2 || depth == 4 || depth == 8) && Fits(row, n, depth) && k < n
    ensures Fits(row, k + 1, depth) && Samples(row, n, depth, color)[k] == Sample(row, k, depth) * Scale(depth, color)
  {
    hide Sample, Scale, Fits;
    FitsLess(row, n, n - 1, depth);
    if k < n - 1 { SamplesAt(row, n - 1, depth, color, k); }
  }

  lemma {:induction false} SamplesRun(row: seq<byte>, n: nat, depth: nat, color: nat, k: nat, m: nat)
    requires (depth == 1 || depth == 2 || depth == 4 || depth == 8) && Fits(row, n, depth) && k + m <= n
    ensures Fits(row, k + m, depth) && Samples(row, n, depth, color)[k..k + m] == OutRun(row, k, m, depth, color)
  {
    hide Sample, Scale, Fits, Samples;
    FitsLess(row, n, k + m, depth);
    if m > 0 {
      SamplesRun(row, n, depth, color, k, m - 1);
      SamplesAt(row, n, depth, color, k + m - 1);
      var s := Samples(row, n, depth, color);
      assert s[k..k + m] == s[k..k + m - 1] + [s[k + m - 1]];
    }
  }

  lemma {:induction false} WideAt(row: seq<byte>, n: nat, k: nat)
    requires 2 * n <= |row| && k < n
    ensures Wide(row, n)[2 * k] == row[2 * k + 1] && Wide(row, n)[2 * k + 1] == row[2 * k]
  {
    if k < n - 1 { WideAt(row, n - 1, k); }
  }

  lemma {:induction false} WideRun(row: seq<byte>, n: nat, color: nat, k: nat, m: nat)
    requires 2 * n <= |row| && k + m <= n
    ensures Fits(row, k + m, 16) && Wide(row, n)[2 * k..2 * (k + m)] == OutRun(row, k, m, 16, color)
  {
    hide Wide, OutSample;
    if m > 0 {
      WideRun(row, n, color, k, m - 1);
      WideAt(row, n, k + m - 1);
      WideSample(row, k + m - 1, color);
      TwoMore(Wide(row, n), 2 * k, 2 * (k + m - 1));
    }
  }

  lemma WideSample(row: seq<byte>, k: nat, color: nat)
    requires 2 * k + 2 <= |row|
    ensures Fits(row, k + 1, 16) && OutSample(row, k, 16, color) == [row[2 * k + 1], row[2 * k]]
  {
  }

  lemma TwoMore(s: seq<byte>, a: nat, b: nat)
    requires a <= b && b + 2 <= |s|
    ensures s[a..b + 2] == s[a..b] + [s[b], s[b + 1]]
  {
  }

  lemma AddAlphaStep(s: seq<byte>, x: nat, n: nat, alpha: seq<byte>)
    requires x * n <= |s| && x > 0
    ensures (x - 1) * n + n == x * n
    ensures AddAlpha(s, x, n, alpha) == AddAlpha(s, x - 1, n, alpha) + (s[(x - 1) * n..(x - 1) * n + n] + alpha)
  {
    OneMore(x, n);
  }

  lemma {:induction false} AddAlphaPixel(s: seq<byte>, x: nat, n: nat, alpha: seq<byte>, i: nat)
    requires x * n <= |s| && i < x
    ensures |Pixel(s, i, n)| == n && Pixel(AddAlpha(s, x, n, alpha), i, n + |alpha|) == Pixel(s, i, n) + alpha
  {
    hide AddAlpha, Pixel;
    AddAlphaStep(s, x, n, alpha);
    PixelSlice(s, x - 1, n);
    LastPixel(AddAlpha(s, x - 1, n, alpha), Pixel(s, x - 1, n) + alpha, x - 1, n + |alpha|);
    if i < x - 1 { AddAlphaPixel(s, x - 1, n, alpha, i); }
  }

  lemma {:induction false} WideAlphaPixel(row: seq<byte>, x: nat, n: nat, i: nat)
    requires x * (2 * n) <= |row| && i < x
    ensures |Pixel(row, i, 2 * n)| == 2 * n
    ensures Pixel(WideAlpha(row, x, n), i, 2 * n + 2) == Wide(Pixel(row, i, 2 * n), n) + [255, 255]
  {
    hide Wide, WideAlpha, Pixel;
    WideAlphaStep(row, x - 1, x, n);
    PixelSlice(row, x - 1, 2 * n);
    LastPixel(WideAlpha(row, x - 1, n), Wide(Pixel(row, x - 1, 2 * n), n) + [255, 255], x - 1, 2 * n + 2);
    if i < x - 1 { WideAlphaPixel(row, x - 1, n, i); }
  }

  lemma {:induction false} SliceRun(row: seq<byte>, a: nat, m: nat, n: nat, color: nat)
    requires 2 * a + 2 * n <= |row| && m <= n
    ensures Fits(row, a + m, 16) && Fits(row[2 * a..2 * a + 2 * n], m, 16)
    ensures OutRun(row[2 * a..2 * a + 2 * n], 0, m, 16, color) == OutRun(row, a, m, 16, color)
  {
    if m > 0 { SliceRun(row, a, m - 1, n, color); }
  }

  /** Every pixel of an output row is made of the samples of the same pixel of the row. */
  lemma PixelOfDestRow(row: seq<byte>, x: nat, imgN: nat, outN: nat, depth: nat, color: nat, i: nat)
    requires Depth(depth) && Channels(imgN, outN) && Fits(row, x * imgN, depth) && i < x
    ensures Fits(row, i * imgN + imgN, depth)
    ensures Pixel(DestRow(row, x, imgN, outN, depth, color), i, outN * Bytes(depth))
         == OutPixel(row, i, imgN, outN, depth, color)
  {
    hide Pixel, DestRow, OutPixel;
    PixelInside(i, x, imgN);
    FitsLess(row, x * imgN, i * imgN + imgN, depth);
    if depth == 16 { WidePixel(row, x, imgN, outN, color, i); } else { NarrowPixel(row, x, imgN, outN, depth, color, i); }
  }

  lemma NarrowPixel(row: seq<byte>, x: nat, imgN: nat, outN: nat, depth: nat, color: nat, i: nat)
    requires (depth == 1 || depth == 2 || depth == 4 || depth == 8) && Channels(imgN, outN)
    requires Fits(row, x * imgN, depth) && i < x && Fits(row, i * imgN + imgN, depth)
    ensures Pixel(DestRow(row, x, imgN, outN, depth, color), i, outN) == OutPixel(row, i, imgN, outN, depth, color)
  {
    hide Samples, AddAlpha, Fits, OutRun, Pixel;
    var s := Samples(row, x * imgN, depth, color);
    PixelInside(i, x, imgN);
    SamplesRun(row, x * imgN, depth, color, i * imgN, imgN);
    PixelSlice(s, i, imgN);
    if outN != imgN { AddAlphaPixel(s, x, imgN, [255], i); }
  }

  lemma WidePixel(row: seq<byte>, x: nat, imgN: nat, outN: nat, color: nat, i: nat)
    requires Channels(imgN, outN) && Fits(row, x * imgN, 16) && i < x && Fits(row, i * imgN + imgN, 16)
    ensures Pixel(DestRow(row, x, imgN, outN, 16, color), i, outN * 2) == OutPixel(row, i, imgN, outN, 16, color)
  {
    hide Wide, WideAlpha, OutRun, Pixel;
    if outN == imgN { WidePixelPlain(row, x, imgN, color, i); } else { WidePixelAlpha(row, x, imgN, color, i); }
  }

  lemma WidePixelPlain(row: seq<byte>, x: nat, n: nat, color: nat, i: nat)
    requires 2 * (x * n) <= |row| && i < x && Fits(row, i * n + n, 16)
    ensures Pixel(Wide(row, x * n), i, n * 2) == OutRun(row, i * n, n, 16, color)
  {
    hide Wide, OutRun, Pixel;
    PixelInside(i, x, n);
    WideRun(row, x * n, color, i * n, n);
    Associate(i, n, 2);
    PixelSlice(Wide(row, x * n), i, n * 2);
  }

  lemma WidePixelAlpha(row: seq<byte>, x: nat, n: nat, color: nat, i: nat)
    requires x * (2 * n) <= |row| && i < x && Fits(row, i * n + n, 16)
    ensures Pixel(WideAlpha(row, x, n), i, (n + 1) * 2) == OutRun(row, i * n, n, 16, color) + [255, 255]
  {
    hide Wide, WideAlpha, OutRun, Pixel;
    PixelInside(i, x, 2 * n);
    Associate(i, n, 2);
    WideAlphaPixel(row, x, n, i);
    PixelSlice(row, i, 2 * n);
    SliceRun(row, i * n, n, n, color);
    WideRun(Pixel(row, i, 2 * n), n, color, 0, n);
    WholeSlice(Wide(Pixel(row, i, 2 * n), n));
  }

  lemma WholeSlice(s: seq<byte>)
    ensures s[0..|s|] == s
  {
  }

  // ---- Rows that hold the same samples ----

  /** Sample `k` of one row and sample `l` of the other are the same. */
  predicate SameSample(row: seq<byte>, k: nat, other: seq<byte>, l: nat, depth: nat)
    requires Depth(depth)
  {
    && Fits(row, k + 1, depth) && Fits(other, l + 1, depth)
    && if depth == 16 then row[2 * k] == other[2 * l] && row[2 * k + 1] == other[2 * l + 1]
       else Sample(row, k, depth) == Sample(other, l, depth)
  }

  /** The `m` samples from `k` on are those from `l` on of the other row. */
  predicate SameSamples(row: seq<byte>, k: nat, other: seq<byte>, l: nat, m: nat, depth: nat)
    requires Depth(depth)
  {
    m == 0 || (
      && SameSamples(row, k, other, l, m - 1, depth)
      && SameSample(row, k + m - 1, other, l + m - 1, depth))
  }

  lemma {:induction false} SameRun(row: seq<byte>, k: nat, other: seq<byte>, l: nat, m: nat, depth: nat, color: nat)
    requires Depth(depth) && Fits(row, k + m, depth) && Fits(other, l + m, depth)
    requires SameSamples(row, k, other, l, m, depth)
    ensures OutRun(row, k, m, depth, color) == OutRun(other, l, m, depth, color)
  {
    hide Sample, Fits;
    if m > 0 {
      FitsLess(row, k + m, k + m - 1, depth);
      FitsLess(other, l + m, l + m - 1, depth);
      SameRun(row, k, other, l, m - 1, depth, color);
    }
  }

  /** With bytes for samples, equal bytes are equal samples. */
  lemma {:induction false} SameBytes(row: seq<byte>, k: nat, other: seq<byte>, l: nat, m: nat)
    requires k + m <= |row| && l + m <= |other| && row[k..k + m] == other[l..l + m]
    ensures SameSamples(row, k, other, l, m, 8)
  {
    if m > 0 {
      assert row[k..k + m - 1] == row[k..k + m][..m - 1] && other[l..l + m - 1] == other[l..l + m][..m - 1];
      SameBytes(row, k, other, l, m - 1);
      assert row[k..k + m][m - 1] == row[k + m - 1] && other[l..l + m][m - 1] == other[l + m - 1];
    }
  }
}
