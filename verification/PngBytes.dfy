/** What a decoded image is byte by byte, in the numbers of the PNG specification (second edition). */
module PngBytes {
  import opened Adam7
  import opened Bits
  import opened Pixels
  import opened Png
  import opened PngFilter
  import opened PngImage
  import opened PngSamples
  import opened Powers

  // ---- Section 9: filtering ----

  /** The predictions of the filter types 0 to 4. */
  lemma Predictions(a: byte, b: byte, c: byte)
    ensures Predict(0, a, b, c) == 0 && Predict(1, a, b, c) == a && Predict(2, a, b, c) == b
    ensures a + b - 1 <= 2 * Predict(3, a, b, c) <= a + b
    ensures Predict(4, a, b, c) == PaethPredictor(a, b, c)
  {
  }

  function Distance(p: int, v: int): (d: nat)
    ensures d == p - v || d == v - p
  {
    if p < v then v - p else p - v
  }

  /** PaethPredictor is the one of its three arguments that is nearest to a + b - c; of equally near ones the first. */
  lemma Nearest(a: int, b: int, c: int)
    ensures var r, p := PaethPredictor(a, b, c), a + b - c;
      && (r == a || r == b || r == c)
      && Distance(p, r) <= Distance(p, a) && Distance(p, r) <= Distance(p, b) && Distance(p, r) <= Distance(p, c)
      && (Distance(p, r) == Distance(p, a) ==> r == a)
      && (Distance(p, r) == Distance(p, b) ==> r == a || r == b)
  {
  }

  /** The unit that "left" is measured in: the bytes of a pixel, or one byte if pixels are smaller. */
  lemma UnitIs(imgN: nat, depth: nat)
    requires Depth(depth)
    ensures 8 * FilterUnit(imgN, depth) == if depth < 8 then 8 else imgN * depth
  {
  }

  /** Byte `m` of pixel `i` has byte `m` of the pixel before it to its left, and nothing left of the first pixel. */
  lemma LeftPixel(row: seq<byte>, i: nat, m: nat, imgN: nat, depth: nat, size: nat)
    requires (depth == 8 || depth == 16) && 8 * size == imgN * depth && m < size && i * size + m <= |row|
    ensures FilterUnit(imgN, depth) >= 1
    ensures i == 0 ==> Left(row, i * size + m, FilterUnit(imgN, depth)) == 0
    ensures i >= 1 ==>
      && (i - 1) * size + m < |row|
      && Left(row, i * size + m, FilterUnit(imgN, depth)) == row[(i - 1) * size + m]
  {
    UnitIs(imgN, depth);
    if i >= 1 { OneMore(i, size); }
  }

  /** With less than a byte for a sample, left is the byte before. */
  lemma LeftByte(row: seq<byte>, k: nat, imgN: nat, depth: nat)
    requires depth < 8 && k <= |row|
    ensures FilterUnit(imgN, depth) == 1 && Left(row, k, FilterUnit(imgN, depth)) == if k == 0 then 0 else row[k - 1]
  {
  }

  /** A row takes as many bytes as its bits need, and no more. */
  lemma WidthTight(x: nat, imgN: nat, depth: nat)
    requires Depth(depth) && x >= 1 && imgN >= 1
    ensures 8 * (RowWidth(x, imgN, depth) - 1) < x * imgN * depth <= 8 * RowWidth(x, imgN, depth)
  {
    Commute(x, imgN);
  }

  /** Byte `k` of the row `cur` below the row `up`, when `x` stands for it in the stream. */
  predicate Decoded(cur: seq<byte>, up: seq<byte>, ft: byte, x: byte, fb: nat, k: nat) {
    && k < |cur| == |up| && fb >= 1 && ft <= 4
    && cur[k] == (x + Predict(ft, if k < fb then 0 else cur[k - fb], up[k], if k < fb then 0 else up[k - fb])) % 256
  }

  /** Byte `k` of row `j` from the stream and the bytes to its left, above it, and above that on its left. */
  lemma {:induction false} RowsByte(raw: seq<byte>, w: nat, fb: nat, above: seq<byte>, n: nat, j: nat, k: nat, at: nat)
    requires FiltersOk(raw, w, n) && |above| == w && fb >= 1 && j < n && k < w && at == j * (w + 1)
    ensures at + 1 + k < |raw|
    ensures var rows := Rows(raw, w, fb, above, n);
      Decoded(rows[j], if j == 0 then above else rows[j - 1], raw[at], raw[at + 1 + k], fb, k)
    decreases j
  {
    hide Recon, Decoded;
    var row := Recon(raw[0], fb, raw[1..w + 1], above, w);
    if j == 0 {
      DecodedRow(raw[0], fb, raw[1..w + 1], above, k);
    } else {
      OneMore(j, w + 1);
      RowsByte(raw[w + 1..], w, fb, row, n - 1, j - 1, k, at - (w + 1));
    }
  }

  lemma DecodedRow(ft: byte, fb: nat, raw: seq<byte>, above: seq<byte>, k: nat)
    requires ft <= PAETH && fb >= 1 && |above| == |raw| && k < |raw|
    ensures Decoded(Recon(ft, fb, raw, above, |raw|), above, ft, raw[k], fb, k)
  {
    hide Recon, Predict;
    ReconAt(ft, fb, raw, above, k, |raw|);
  }

  /** The decoded image of a stream of rows, from the numbers in its header. */
  lemma DecodedByte(raw: seq<byte>, x: nat, y: nat, imgN: nat, depth: nat, w: nat, fb: nat, j: nat, k: nat)
    requires Depth(depth) && x >= 1 && imgN >= 1 && 8 * (w - 1) < x * imgN * depth <= 8 * w
    requires 8 * fb == if depth < 8 then 8 else imgN * depth
    requires FiltersOk(raw, w, y) && j < y && k < w
    ensures w == RowWidth(x, imgN, depth) && fb == FilterUnit(imgN, depth) >= 1
    ensures j * (w + 1) + 1 + k < |raw| && raw[j * (w + 1)] <= 4
    ensures var rows := Rows(raw, w, fb, Zeros(w), y);
      rows[j][k] == (raw[j * (w + 1) + 1 + k]
        + Predict(raw[j * (w + 1)], if k < fb then 0 else rows[j][k - fb], if j == 0 then 0 else rows[j - 1][k],
                  if j == 0 || k < fb then 0 else rows[j - 1][k - fb])) % 256
  {
    hide Predict, Rows, FiltersOk;
    WidthTight(x, imgN, depth);
    UnitIs(imgN, depth);
    RowsByte(raw, w, fb, Zeros(w), y, j, k, j * (w + 1));
    assert forall i: nat :: i < w ==> Zeros(w)[i] == 0;
  }

  /** Two pixels of three bytes, each byte the difference from the same byte of the pixel before. */
  lemma TwoPixels()
    ensures var raw := [1, 10, 20, 30, 1, 1, 1];
      FiltersOk(raw, 6, 1) && Rows(raw, 6, FilterUnit(3, 8), Zeros(6), 1)[0] == [10, 20, 30, 11, 21, 31]
  {
    hide Rows, FilterUnit, Zeros, FiltersOk;
    var raw: seq<byte> := [1, 10, 20, 30, 1, 1, 1];
    OneRow(raw);
    ByteOfTwo(raw, 0);
    ByteOfTwo(raw, 1);
    ByteOfTwo(raw, 2);
    ByteOfTwo(raw, 3);
    ByteOfTwo(raw, 4);
    ByteOfTwo(raw, 5);
  }

  lemma OneRow(raw: seq<byte>)
    requires |raw| == 7 && raw[0] == 1
    ensures FiltersOk(raw, 6, 1) && FilterUnit(3, 8) >= 1 && |Rows(raw, 6, FilterUnit(3, 8), Zeros(6), 1)[0]| == 6
  {
    assert FiltersOk(raw[7..], 6, 0);
  }

  lemma ByteOfTwo(raw: seq<byte>, k: nat)
    requires |raw| == 7 && raw[0] == 1 && FiltersOk(raw, 6, 1) && k < 6
    ensures FilterUnit(3, 8) >= 1
    ensures var row := Rows(raw, 6, FilterUnit(3, 8), Zeros(6), 1)[0];
      row[k] == if k < 3 then raw[1 + k] else Sum(raw[1 + k], row[k - 3])
  {
    DecodedByte(raw, 2, 1, 3, 8, 6, 3, 0, k);
  }

  function Sum(x: nat, y: nat): byte { (x + y) % 256 }

  /** A stream is accepted only if no filter byte is above 4, and refused only if one is or it is too short. */
  lemma {:induction false} BadFilter(raw: seq<byte>, w: nat, n: nat) returns (j: nat)
    requires |raw| >= n * (w + 1) && !FiltersOk(raw, w, n)
    ensures j < n && j * (w + 1) < |raw| && raw[j * (w + 1)] > 4
    decreases n
  {
    OneMore(n, w + 1);
    MulMono(1, n, w + 1);
    if raw[0] > PAETH {
      j := 0;
    } else {
      j := BadFilter(raw[w + 1..], w, n - 1);
      j := j + 1;
      OneMore(j, w + 1);
    }
  }

  lemma {:induction false} GoodFilters(raw: seq<byte>, w: nat, n: nat, j: nat)
    requires FiltersOk(raw, w, n) && j < n
    ensures n * (w + 1) <= |raw| && j * (w + 1) < |raw| && raw[j * (w + 1)] <= 4
    decreases n
  {
    OneMore(n, w + 1);
    if n == 1 {
    } else if j > 0 {
      GoodFilters(raw[w + 1..], w, n - 1, j - 1);
      OneMore(j, w + 1);
    } else {
      GoodFilters(raw[w + 1..], w, n - 1, 0);
    }
  }

  /** The bounds on sizes, each where it alone decides. */
  lemma SizeLimits(n: nat)
    requires n >= 1
    ensures SizesOk(1, n, 1, 1, 8) <==> n <= 0x7FFF_FFFE
    ensures SizesOk(n, 1, 1, 1, 8) <==> n <= 0xFFF_FFFF
    ensures SizesOk(1, n, 1, 2, 8) <==> n <= 0x3FFF_FFFF
    ensures SizesOk(1, n, 1, 2, 16) <==> n <= 0x1FFF_FFFF
  {
    hide RowWidth;
    WholeBytes(n);
    WholeBytes(1);
  }

  lemma WholeBytes(n: nat)
    ensures RowWidth(n, 1, 8) == n && RowWidth(n, 1, 16) == 2 * n
  {
    var bits := 1 * n * 8;
    assert (bits + 7) / 8 == n;
    var more := 1 * n * 16;
    assert (more + 7) / 8 == 2 * n;
  }

  // ---- Section 7.2: samples ----

  /** The bits of sample `i` are the next `depth` bits of the row, which begins with the high bit of its first byte. */
  lemma SampleBits(row: seq<byte>, i: nat, depth: nat, m: nat)
    requires (depth == 1 || depth == 2 || depth == 4 || depth == 8) && (i + 1) * depth <= 8 * |row| && m < depth
    ensures (i * depth + m) / 8 < |row|
    ensures BitAt(Sample(row, i, depth), depth - 1 - m) == BitAt(row[(i * depth + m) / 8], 7 - (i * depth + m) % 8)
    ensures Sample(row, i, depth) < Pow2(depth)
  {
    hide Sample, BitAt, Fits, Pow2;
    WithinByte(i, depth, m);
    if depth == 8 { ByteSample(row, i, m); } else { PackedSample(row, i, depth, m); }
  }

  lemma WithinByte(i: nat, depth: nat, m: nat)
    requires (depth == 1 || depth == 2 || depth == 4 || depth == 8) && m < depth
    ensures (i * depth + m) / 8 == ByteOf(i, depth) && (i * depth + m) % 8 == PngSamples.Before(i, depth) + m
  {
    if depth < 8 { SmallFits(i, depth); }
  }

  lemma ByteSample(row: seq<byte>, i: nat, m: nat)
    requires (i + 1) * 8 <= 8 * |row| && m < 8
    ensures Fits(row, i + 1, 8) && Sample(row, i, 8) == row[i] < Pow2(8) && ByteOf(i, 8) == i && PngSamples.Before(i, 8) == 0
  {
    EightBits();
  }

  lemma PackedSample(row: seq<byte>, i: nat, depth: nat, m: nat)
    requires (depth == 1 || depth == 2 || depth == 4) && (i + 1) * depth <= 8 * |row| && m < depth
    ensures Fits(row, i + 1, depth) && ByteOf(i, depth) < |row| && PngSamples.Before(i, depth) + depth <= 8
    ensures Sample(row, i, depth) < Pow2(depth)
    ensures BitAt(Sample(row, i, depth), depth - 1 - m) == BitAt(row[ByteOf(i, depth)], 7 - (PngSamples.Before(i, depth) + m))
  {
    hide Sample, BitAt, Pow2, Take, Drop, ByteOf, PngSamples.Before;
    assert Fits(row, i + 1, depth);
    SampleAt(row, i, depth);
    var v, s := row[ByteOf(i, depth)], 8 - depth - PngSamples.Before(i, depth);
    TakeBit(Drop(v, s), depth, depth - 1 - m);
    DropBit(v, s, depth - 1 - m);
    DropTake(Drop(v, s), depth);
  }

  /** The largest grey sample becomes 255, the others in proportion; other samples stay as they are. */
  lemma ScaleIs(depth: nat, color: nat)
    requires depth == 1 || depth == 2 || depth == 4 || depth == 8
    ensures color == 0 ==> (Pow2(depth) - 1) * Scale(depth, color) == 255
    ensures color != 0 ==> Scale(depth, color) == 1
  {
    assert Pow2(1) == 2 && Pow2(2) == 4 && Pow2(4) == 16;
    EightBits();
  }

  // ---- The output image ----

  lemma {:induction false} OutRunNarrow(row: seq<byte>, k: nat, n: nat, depth: nat, color: nat, m: nat)
    requires (depth == 1 || depth == 2 || depth == 4 || depth == 8) && Fits(row, k + n, depth) && m < n
    ensures Fits(row, k + m + 1, depth) && OutRun(row, k, n, depth, color)[m] == Sample(row, k + m, depth) * Scale(depth, color)
  {
    hide Sample, Scale, Fits;
    FitsLess(row, k + n, k + n - 1, depth);
    FitsLess(row, k + n, k + m + 1, depth);
    if m < n - 1 { OutRunNarrow(row, k, n - 1, depth, color, m); }
  }

  lemma {:induction false} OutRunWide(row: seq<byte>, k: nat, n: nat, color: nat, m: nat)
    requires Fits(row, k + n, 16) && m < n
    ensures 2 * (k + n) <= |row| && |OutRun(row, k, n, 16, color)| == 2 * n
    ensures OutRun(row, k, n, 16, color)[2 * m] == row[2 * (k + m) + 1]
    ensures OutRun(row, k, n, 16, color)[2 * m + 1] == row[2 * (k + m)]
  {
    if m < n - 1 { OutRunWide(row, k, n - 1, color, m); }
  }

  /** Byte `t` of the output pixel in column `i`: a scaled sample, a byte of a sample in host order, or opaque alpha. */
  lemma OutPixelByte(row: seq<byte>, i: nat, imgN: nat, outN: nat, depth: nat, color: nat, t: nat)
    requires Depth(depth) && Channels(imgN, outN) && Fits(row, i * imgN + imgN, depth)
    requires t < if depth == 16 then 2 * outN else outN
    ensures |OutPixel(row, i, imgN, outN, depth, color)| == if depth == 16 then 2 * outN else outN
    ensures depth <= 8 && t < imgN ==>
      && Fits(row, i * imgN + t + 1, depth)
      && OutPixel(row, i, imgN, outN, depth, color)[t] == Sample(row, i * imgN + t, depth) * Scale(depth, color)
    ensures depth <= 8 && t >= imgN ==> OutPixel(row, i, imgN, outN, depth, color)[t] == 255
    ensures depth == 16 && t < 2 * imgN ==>
      && 2 * (i * imgN) + (if t % 2 == 0 then t + 1 else t - 1) < |row|
      && OutPixel(row, i, imgN, outN, depth, color)[t] == row[2 * (i * imgN) + if t % 2 == 0 then t + 1 else t - 1]
    ensures depth == 16 && t >= 2 * imgN ==> OutPixel(row, i, imgN, outN, depth, color)[t] == 255
  {
    hide Sample, Scale, Fits, OutRun;
    if depth == 16 {
      OutRunWide(row, i * imgN, imgN, color, if t < 2 * imgN then t / 2 else 0);
    } else if t < imgN {
      OutRunNarrow(row, i * imgN, imgN, depth, color, t);
    }
  }

  /** Where the bytes of the pixel in row `j` and column `i` stand in the image. */
  lemma PictureByte(rows: seq<seq<byte>>, x: nat, imgN: nat, outN: nat, depth: nat, color: nat,
                    j: nat, i: nat, t: nat, ob: nat, at: nat)
    requires Depth(depth) && Channels(imgN, outN) && j < |rows| && i < x
    requires forall k :: 0 <= k < |rows| ==> Fits(rows[k], x * imgN, depth)
    requires ob == (if depth == 16 then 2 * outN else outN) && t < ob && at == (j * x + i) * ob + t
    ensures Fits(rows[j], i * imgN + imgN, depth) && |OutPixel(rows[j], i, imgN, outN, depth, color)| == ob
    ensures var out := Picture(rows, x, imgN, outN, depth, color);
      |out| == |rows| * (x * ob) && at < |out| && out[at] == OutPixel(rows[j], i, imgN, outN, depth, color)[t]
  {
    hide Sample, Scale, Fits, OutPixel, DestRow, Picture, Pixel;
    PixelOfPicture(rows, x, imgN, outN, depth, color, j, i);
    PixelOfDestRow(rows[j], x, imgN, outN, depth, color, i);
    OutPixelByte(rows[j], i, imgN, outN, depth, color, t);
    Associate(x, outN, Bytes(depth));
    assert outN * Bytes(depth) == ob;
    IndexInside(x, |rows|, j, i);
    Commute(x, |rows|);
    PixelInside(j * x + i, |rows| * x, ob);
    Associate(|rows|, x, ob);
    ByteOfPixel(Picture(rows, x, imgN, outN, depth, color), j * x + i, ob, t);
  }

  // ---- Section 8.2: interlacing ----

  /** The pattern of the seven passes in each block of eight by eight pixels. */
  lemma PassGrid(r: nat, c: nat)
    ensures PassOf(r, c) + 1 == [[1, 6, 4, 6, 2, 6, 4, 6],
                                 [7, 7, 7, 7, 7, 7, 7, 7],
                                 [5, 6, 5, 6, 5, 6, 5, 6],
                                 [7, 7, 7, 7, 7, 7, 7, 7],
                                 [3, 6, 4, 6, 3, 6, 4, 6],
                                 [7, 7, 7, 7, 7, 7, 7, 7],
                                 [5, 6, 5, 6, 5, 6, 5, 6],
                                 [7, 7, 7, 7, 7, 7, 7, 7]][r % 8][c % 8]
  {
    ModEight(r, 2);
    ModEight(c, 2);
    ModEight(r, 4);
    ModEight(c, 4);
    GridInBlock(r % 8, c % 8);
  }

  lemma GridInBlock(r: nat, c: nat)
    requires r < 8 && c < 8
    ensures PassOf(r, c) + 1 == [[1, 6, 4, 6, 2, 6, 4, 6],
                                 [7, 7, 7, 7, 7, 7, 7, 7],
                                 [5, 6, 5, 6, 5, 6, 5, 6],
                                 [7, 7, 7, 7, 7, 7, 7, 7],
                                 [3, 6, 4, 6, 3, 6, 4, 6],
                                 [7, 7, 7, 7, 7, 7, 7, 7],
                                 [5, 6, 5, 6, 5, 6, 5, 6],
                                 [7, 7, 7, 7, 7, 7, 7, 7]][r][c]
  {
    assert r == 0 || r == 1 || r == 2 || r == 3 || r == 4 || r == 5 || r == 6 || r == 7;
    assert c == 0 || c == 1 || c == 2 || c == 3 || c == 4 || c == 5 || c == 6 || c == 7;
  }

  /** Byte `t` of the pixel in row `r` and column `c` of a deinterlaced image, and where it stood in the image of its pass. */
  lemma InterlacedByte(h: Header, data: seq<byte>, out: seq<byte>, r: nat, c: nat, t: nat, ob: nat, at: nat, from: nat)
    requires h.Ok() && r < h.height && c < h.width && FromPass(h, data, out, r, c)
    requires ob == (if h.depth == 16 then 2 * h.outN else h.outN) && t < ob && |out| == h.height * h.width * ob
    requires at == (r * h.width + c) * ob + t
    requires var p := PassOf(r, c);
      p < PASSES && from == (RowIn(p, r) * PassWidth(h.width, p) + ColIn(p, c)) * ob + t
    ensures var p := PassOf(r, c); var sub := PassPicture(h, DataFrom(h, data, p), p);
      at < |out| && from < |sub| && out[at] == sub[from]
  {
    hide PassOf, PassOk, PassPicture, DataFrom, RowIn, ColIn, Pixel, PassWidth;
    assert h.PixelBytes() == ob;
    IndexInside(h.width, h.height, r, c);
    Commute(h.width, h.height);
    PixelInside(r * h.width + c, h.height * h.width, ob);
    ByteOfPixel(out, r * h.width + c, ob, t);
    var p := PassOf(r, c);
    SomePixel(PassPicture(h, DataFrom(h, data, p), p), RowIn(p, r) * PassWidth(h.width, p) + ColIn(p, c), ob, t);
  }

  lemma SomePixel(a: seq<byte>, k: nat, ob: nat, m: nat)
    requires |Pixel(a, k, ob)| == ob && m < ob
    ensures k * ob + m < |a| && a[k * ob + m] == Pixel(a, k, ob)[m]
  {
  }
}
