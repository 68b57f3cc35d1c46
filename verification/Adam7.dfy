/** The seven interlacing passes of section 8.2 of the PNG specification (second edition). */
module Adam7 {
  import opened Bits
  import opened Pixels
  import opened Powers
  import opened PngImage
  import opened PngSamples

  const PASSES := 7

  function XOrig(p: nat): (o: nat)
    requires p < PASSES
    ensures o < XStep(p)
  {
    [0, 4, 0, 2, 0, 1, 0][p]
  }

  function YOrig(p: nat): (o: nat)
    requires p < PASSES
    ensures o < YStep(p)
  {
    [0, 0, 4, 0, 2, 0, 1][p]
  }

  function XStep(p: nat): (s: nat)
    requires p < PASSES
    ensures s >= 1
  {
    [8, 8, 4, 4, 2, 2, 1][p]
  }

  function YStep(p: nat): (s: nat)
    requires p < PASSES
    ensures s >= 1
  {
    [8, 8, 8, 4, 4, 2, 2][p]
  }

  /** The code's (size - orig + step - 1) / step in 32-bit arithmetic: the difference may wrap around below zero and back. */
  function Steps(size: nat, orig: nat, step: nat): nat
    requires step >= 1
  {
    var n := (((size - orig) % TWO32 + step) % TWO32 - 1) % TWO32;
    DivNat(n, step);
    n / step
  }

  /** Columns and rows of a pass. */
  function PassWidth(width: nat, p: nat): nat
    requires p < PASSES
  {
    Steps(width, XOrig(p), XStep(p))
  }

  function PassHeight(height: nat, p: nat): nat
    requires p < PASSES
  {
    Steps(height, YOrig(p), YStep(p))
  }

  /** The pixel in row `r` and column `c` belongs to pass `p`. */
  predicate InPass(r: nat, c: nat, p: nat)
    requires p < PASSES
  {
    c % XStep(p) == XOrig(p) && r % YStep(p) == YOrig(p)
  }

  function PassOf(r: nat, c: nat): nat {
    if r % 2 == 1 then 6 else if c % 2 == 1 then 5 else if r % 4 == 2 then 4
    else if c % 4 == 2 then 3 else if r % 8 == 4 then 2 else if c % 8 == 4 then 1 else 0
  }

  /** Only the position within a block of eight by eight counts. */
  lemma ModEight(x: nat, step: nat)
    requires step == 1 || step == 2 || step == 4 || step == 8
    ensures x % 8 % step == x % step
  {
    if step == 1 {} else if step == 2 {} else if step == 4 {} else {}
  }

  lemma PassInBlock(r: nat, c: nat, q: nat)
    requires r < 8 && c < 8 && q < PASSES
    ensures InPass(r, c, q) <==> q == PassOf(r, c)
  {
    assert r == 0 || r == 1 || r == 2 || r == 3 || r == 4 || r == 5 || r == 6 || r == 7;
    assert c == 0 || c == 1 || c == 2 || c == 3 || c == 4 || c == 5 || c == 6 || c == 7;
    assert q == 0 || q == 1 || q == 2 || q == 3 || q == 4 || q == 5 || q == 6;
  }

  /** Which pass a pixel belongs to, for one of the seven. */
  lemma InPassIs(r: nat, c: nat, q: nat)
    requires q < PASSES
    ensures InPass(r, c, q) <==> q == PassOf(r, c)
  {
    ModEight(r, YStep(q));
    ModEight(c, XStep(q));
    ModEight(r, 2);
    ModEight(c, 2);
    ModEight(r, 4);
    ModEight(c, 4);
    ModEight(r, 8);
    ModEight(c, 8);
    hide XStep, YStep, XOrig, YOrig;
    PassInBlock(r % 8, c % 8, q);
  }

  /** Every pixel of every image belongs to exactly one pass. */
  lemma OnePass(r: nat, c: nat)
    ensures PassOf(r, c) < PASSES && InPass(r, c, PassOf(r, c))
    ensures forall q: nat :: q < PASSES && InPass(r, c, q) ==> q == PassOf(r, c)
  {
    forall q: nat | q < PASSES
      ensures InPass(r, c, q) <==> q == PassOf(r, c)
    {
      InPassIs(r, c, q);
    }
  }

  /** Counting the multiples of `step` from `orig` on, below `size`. */
  lemma CountSteps(size: nat, orig: nat, step: nat)
    requires orig < step && 1 <= size <= 0x100_0000 && step <= 8
    ensures forall k: nat :: k < Steps(size, orig, step) <==> k * step + orig < size
  {
    var t := size - orig + step - 1;
    if size >= orig {
      assert (size - orig) % TWO32 == size - orig;
    } else {
      assert (size - orig) % TWO32 == size - orig + TWO32;
    }
    assert (((size - orig) % TWO32 + step) % TWO32 - 1) % TWO32 == t;
    forall k: nat
      ensures k < t / step <==> k * step + orig < size
    {
      DivBounds(t, step, 0, k + 1);
      assert (k + 1) * step == k * step + step;
    }
  }

  lemma Axis(size: nat, orig: nat, step: nat, x: nat)
    requires orig < step && 1 <= size <= 0x100_0000 && step <= 8 && x % step == orig
    ensures x == x / step * step + orig
    ensures x < size <==> x / step < Steps(size, orig, step)
  {
    hide Steps;
    CountSteps(size, orig, step);
    DivModIs(x, step, x / step, orig);
  }

  /** The row and the column of the image that a row and a column of the grid of a pass stand for. */
  function RowAt(p: nat, j: nat): nat
    requires p < PASSES
  {
    j * YStep(p) + YOrig(p)
  }

  function ColAt(p: nat, i: nat): nat
    requires p < PASSES
  {
    i * XStep(p) + XOrig(p)
  }

  /** The grid of a pass is exactly the part of the image that belongs to it: nothing outside, nothing left out. */
  lemma PassCells(width: nat, height: nat, p: nat, r: nat, c: nat)
    requires p < PASSES && 1 <= width <= 0x100_0000 && 1 <= height <= 0x100_0000 && InPass(r, c, p)
    ensures r == RowAt(p, RowIn(p, r)) && c == ColAt(p, ColIn(p, c))
    ensures r < height && c < width <==> RowIn(p, r) < PassHeight(height, p) && ColIn(p, c) < PassWidth(width, p)
  {
    hide XStep, YStep, XOrig, YOrig, Steps;
    StepsSmall(p);
    Axis(height, YOrig(p), YStep(p), r);
    Axis(width, XOrig(p), XStep(p), c);
  }

  /** A pass is no larger than the image, and with more than one row it has fewer rows. */
  lemma PassSmaller(width: nat, height: nat, p: nat)
    requires p < PASSES && 1 <= width <= 0x100_0000 && 1 <= height <= 0x100_0000
    requires PassWidth(width, p) > 0 && PassHeight(height, p) > 0
    ensures PassWidth(width, p) <= width && (PassHeight(height, p) == 1 || PassHeight(height, p) + 1 <= height)
  {
    hide Steps, XStep, YStep, XOrig, YOrig;
    StepsSmall(p);
    var x, y := PassWidth(width, p), PassHeight(height, p);
    CountSteps(width, XOrig(p), XStep(p));
    CountSteps(height, YOrig(p), YStep(p));
    MulMono(1, XStep(p), x - 1);
    MulMono(2, YStep(p), y - 1);
    Commute(XStep(p), x - 1);
    Commute(YStep(p), y - 1);
  }

  lemma StepsSmall(p: nat)
    requires p < PASSES
    ensures 1 <= XStep(p) <= 8 && 2 <= YStep(p) <= 8
  {
  }

  /** The row and the column that a pixel of a pass has in its grid. */
  function RowIn(p: nat, r: nat): nat
    requires p < PASSES
  {
    r / YStep(p)
  }

  function ColIn(p: nat, c: nat): nat
    requires p < PASSES
  {
    c / XStep(p)
  }

  /** The cell in row `j` and column `i` of a pass. */
  lemma CellInPass(p: nat, j: nat, i: nat)
    requires p < PASSES
    ensures var r, c := RowAt(p, j), ColAt(p, i);
            InPass(r, c, p) && RowIn(p, r) == j && ColIn(p, c) == i
  {
    DivModIs(j * YStep(p) + YOrig(p), YStep(p), j, YOrig(p));
    DivModIs(i * XStep(p) + XOrig(p), XStep(p), i, XOrig(p));
  }

  // ---- Pixels ----

  /** Where the pixel in row `r` and column `c` stands. */
  function Index(width: nat, r: nat, c: nat): nat { r * width + c }

  lemma IndexUnique(width: nat, r: nat, c: nat, r': nat, c': nat)
    requires c < width && c' < width && Index(width, r, c) == Index(width, r', c')
    ensures r == r' && c == c'
  {
    DivModIs(r * width + c, width, r, c);
    DivModIs(r' * width + c', width, r', c');
  }

  lemma IndexInside(width: nat, height: nat, r: nat, c: nat)
    requires r < height && c < width
    ensures Index(width, r, c) < width * height
  {
    MulMono(r + 1, height, width);
    OneMore(r + 1, width);
    Commute(width, height);
  }

  lemma OtherPixel(a: seq<byte>, b: seq<byte>, k: nat, k': nat, ob: nat)
    requires SameOutside(a, b, k * ob, k * ob + ob) && k != k'
    ensures Pixel(a, k', ob) == Pixel(b, k', ob)
  {
    if k < k' { PixelInside(k, k', ob); } else { PixelInside(k', k, ob); }
  }

  // ---- Placing the pixels of a pass ----

  /** Whether the pixel belongs to the pass and comes before cell (j, i) of its grid. */
  predicate Before(p: nat, r: nat, c: nat, j: nat, i: nat)
    requires p < PASSES
  {
    InPass(r, c, p) && (RowIn(p, r) < j || (RowIn(p, r) == j && ColIn(p, c) < i))
  }

  /** The pixels of `sub` before cell (j, i) of its grid are in place; the others are as they were. */
  ghost predicate Placed(was: seq<byte>, now: seq<byte>, sub: seq<byte>, width: nat, height: nat, ob: nat,
                         p: nat, j: nat, i: nat)
    requires p < PASSES
  {
    && |now| == |was|
    && forall r: nat, c: nat {:trigger Index(width, r, c)} :: r < height && c < width ==>
         Pixel(now, Index(width, r, c), ob) ==
         if Before(p, r, c, j, i) then Pixel(sub, Index(PassWidth(width, p), RowIn(p, r), ColIn(p, c)), ob)
         else Pixel(was, Index(width, r, c), ob)
  }

  lemma PlaceStart(was: seq<byte>, sub: seq<byte>, width: nat, height: nat, ob: nat, p: nat)
    requires p < PASSES
    ensures Placed(was, was, sub, width, height, ob, p, 0, 0)
  {
  }

  /** The pixel of cell (j, i), and no other byte, has been written. */
  ghost predicate CellSet(now: seq<byte>, now': seq<byte>, sub: seq<byte>, width: nat, ob: nat, p: nat, j: nat, i: nat)
    requires p < PASSES
  {
    var k := Index(width, RowAt(p, j), ColAt(p, i));
    && SameOutside(now, now', ByteAt(k, ob), ByteAt(k, ob) + ob)
    && Pixel(now', k, ob) == Pixel(sub, Index(PassWidth(width, p), j, i), ob)
  }

  lemma PlaceStep(was: seq<byte>, now: seq<byte>, now': seq<byte>, sub: seq<byte>, width: nat, height: nat, ob: nat,
                  p: nat, j: nat, i: nat)
    requires p < PASSES && 1 <= width <= 0x100_0000 && 1 <= height <= 0x100_0000
    requires i < PassWidth(width, p) && j < PassHeight(height, p)
    requires Placed(was, now, sub, width, height, ob, p, j, i)
    requires CellSet(now, now', sub, width, ob, p, j, i)
    ensures Placed(was, now', sub, width, height, ob, p, j, i + 1)
  {
    hide Pixel, Index, SameOutside, PassWidth, PassHeight, RowAt, ColAt, InPass, RowIn, ColIn, Before;
    var r0, c0 := RowAt(p, j), ColAt(p, i);
    CellInPass(p, j, i);
    PassCells(width, height, p, r0, c0);
    SameLength(now, now', Index(width, r0, c0) * ob, Index(width, r0, c0) * ob + ob);
    forall r: nat, c: nat | r < height && c < width
      ensures Pixel(now', Index(width, r, c), ob) ==
              if Before(p, r, c, j, i + 1)
              then Pixel(sub, Index(PassWidth(width, p), RowIn(p, r), ColIn(p, c)), ob)
              else Pixel(was, Index(width, r, c), ob)
    {
      BeforeStep(width, height, p, r, c, j, i);
      if r != r0 || c != c0 {
        if Index(width, r, c) == Index(width, r0, c0) { IndexUnique(width, r, c, r0, c0); }
        OtherPixel(now, now', Index(width, r0, c0), Index(width, r, c), ob);
      }
    }
  }

  lemma BeforeStep(width: nat, height: nat, p: nat, r: nat, c: nat, j: nat, i: nat)
    requires p < PASSES && 1 <= width <= 0x100_0000 && 1 <= height <= 0x100_0000 && r < height && c < width
    ensures Before(p, r, c, j, i + 1) <==>
            (Before(p, r, c, j, i) || (r == RowAt(p, j) && c == ColAt(p, i)))
  {
    hide PassWidth, PassHeight, RowAt, ColAt, InPass, RowIn, ColIn;
    CellInPass(p, j, i);
    if InPass(r, c, p) { PassCells(width, height, p, r, c); }
  }

  lemma SameLength(a: seq<byte>, b: seq<byte>, lo: nat, hi: nat)
    requires SameOutside(a, b, lo, hi)
    ensures |a| == |b|
  {
  }

  /** The end of a row of the grid is the beginning of the next. */
  lemma PlaceRow(was: seq<byte>, now: seq<byte>, sub: seq<byte>, width: nat, height: nat, ob: nat, p: nat, j: nat)
    requires p < PASSES && 1 <= width <= 0x100_0000 && 1 <= height <= 0x100_0000
    requires Placed(was, now, sub, width, height, ob, p, j, PassWidth(width, p))
    ensures Placed(was, now, sub, width, height, ob, p, j + 1, 0)
  {
    hide Pixel, Index, PassWidth, PassHeight, RowAt, ColAt, InPass, RowIn, ColIn;
    forall r: nat, c: nat | r < height && c < width
      ensures Before(p, r, c, j + 1, 0) == Before(p, r, c, j, PassWidth(width, p))
    {
      if InPass(r, c, p) { PassCells(width, height, p, r, c); }
    }
  }

  /** The pixels of the pass come from `sub`, the others are as they were. */
  ghost predicate PassDone(was: seq<byte>, now: seq<byte>, sub: seq<byte>, width: nat, height: nat, ob: nat, p: nat)
    requires p < PASSES
  {
    && |now| == |was|
    && forall r: nat, c: nat {:trigger Index(width, r, c)} :: r < height && c < width ==>
         Pixel(now, Index(width, r, c), ob) ==
         if InPass(r, c, p) then Pixel(sub, Index(PassWidth(width, p), RowIn(p, r), ColIn(p, c)), ob)
         else Pixel(was, Index(width, r, c), ob)
  }

  lemma PlaceEnd(was: seq<byte>, now: seq<byte>, sub: seq<byte>, width: nat, height: nat, ob: nat, p: nat)
    requires p < PASSES && 1 <= width <= 0x100_0000 && 1 <= height <= 0x100_0000
    requires Placed(was, now, sub, width, height, ob, p, PassHeight(height, p), 0)
    ensures PassDone(was, now, sub, width, height, ob, p)
  {
    hide Pixel, Index, PassWidth, PassHeight, RowAt, ColAt, InPass, RowIn, ColIn;
    forall r: nat, c: nat | r < height && c < width
      ensures Before(p, r, c, PassHeight(height, p), 0) == InPass(r, c, p)
    {
      if InPass(r, c, p) { PassCells(width, height, p, r, c); }
    }
  }

  /** A pass without columns or rows has no pixel. */
  lemma EmptyPass(was: seq<byte>, sub: seq<byte>, width: nat, height: nat, ob: nat, p: nat)
    requires p < PASSES && 1 <= width <= 0x100_0000 && 1 <= height <= 0x100_0000
    requires PassWidth(width, p) == 0 || PassHeight(height, p) == 0
    ensures PassDone(was, was, sub, width, height, ob, p)
  {
    hide Pixel, Index, PassWidth, PassHeight, RowAt, ColAt, InPass, RowIn, ColIn;
    forall r: nat, c: nat | r < height && c < width
      ensures !InPass(r, c, p)
    {
      if InPass(r, c, p) { PassCells(width, height, p, r, c); }
    }
  }

  method PlaceCell(sub: array<byte>, final: array<byte>, width: nat, height: nat, ob: nat, p: nat, j: nat, i: nat,
                   ghost was: seq<byte>)
    requires sub != final && p < PASSES && 1 <= width <= 0x100_0000 && 1 <= height <= 0x100_0000
    requires i < PassWidth(width, p) && j < PassHeight(height, p)
    requires sub.Length == PassWidth(width, p) * PassHeight(height, p) * ob && final.Length == width * height * ob
    requires Placed(was, final[..], sub[..], width, height, ob, p, j, i)
    modifies final
    ensures Placed(was, final[..], sub[..], width, height, ob, p, j, i + 1)
  {
    hide Placed, SameOutside, InPass, PassWidth, PassHeight, RowAt, ColAt, Index;
    var y, x := RowAt(p, j), ColAt(p, i);
    CellInPass(p, j, i);
    PassCells(width, height, p, y, x);
    IndexInside(width, height, y, x);
    IndexInside(PassWidth(width, p), PassHeight(height, p), j, i);
    PixelInside(Index(width, y, x), width * height, ob);
    PixelInside(Index(PassWidth(width, p), j, i), PassWidth(width, p) * PassHeight(height, p), ob);
    Offsets(width, y, x, ob);
    Offsets(PassWidth(width, p), j, i, ob);
    ghost var now := final[..];
    var from, to := (j * PassWidth(width, p) + i) * ob, y * width * ob + x * ob;
    CopyRow(sub, from, final, to, ob);
    assert Pixel(final[..], Index(width, y, x), ob) == final[to..to + ob];
    assert Pixel(sub[..], Index(PassWidth(width, p), j, i), ob) == sub[from..from + ob];
    PlaceStep(was, now, final[..], sub[..], width, height, ob, p, j, i);
  }

  lemma Offsets(width: nat, r: nat, c: nat, ob: nat)
    ensures r * width * ob + c * ob == Index(width, r, c) * ob == (r * width + c) * ob
  {
  }

  method PlacePass(sub: array<byte>, final: array<byte>, width: nat, height: nat, ob: nat, p: nat)
    requires sub != final && p < PASSES && 1 <= width <= 0x100_0000 && 1 <= height <= 0x100_0000
    requires sub.Length == PassWidth(width, p) * PassHeight(height, p) * ob && final.Length == width * height * ob
    modifies final
    ensures PassDone(old(final[..]), final[..], sub[..], width, height, ob, p)
  {
    hide Placed, PassDone, PassWidth, PassHeight;
    ghost var was := final[..];
    PlaceStart(was, sub[..], width, height, ob, p);
    for j := 0 to PassHeight(height, p)
      invariant Placed(was, final[..], sub[..], width, height, ob, p, j, 0)
    {
      for i := 0 to PassWidth(width, p)
        invariant Placed(was, final[..], sub[..], width, height, ob, p, j, i)
      {
        PlaceCell(sub, final, width, height, ob, p, j, i, was);
      }
      PlaceRow(was, final[..], sub[..], width, height, ob, p, j);
    }
    PlaceEnd(was, final[..], sub[..], width, height, ob, p);
  }
}
