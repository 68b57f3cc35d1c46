/** From the inflated data of a PNG file to its image, with or without interlacing. */
module Png {
  import opened Adam7
  import opened Bits
  import opened Pixels
  import opened PngFilter
  import opened PngImage
  import opened PngSamples
  import opened Powers

  /** What the image header says, and the number of output channels. */
  datatype Header = Header(width: nat, height: nat, imgN: nat, outN: nat, depth: nat, color: nat) {
    predicate Ok() {
      && 1 <= width <= 0x100_0000 && 1 <= height <= 0x100_0000
      && Depth(depth) && Channels(imgN, outN)
    }

    /** Bytes of an output pixel. */
    function PixelBytes(): nat { outN * Bytes(depth) }

    function Unit(): (fb: nat)
      requires Ok()
      ensures fb >= 1
    {
      FilterUnit(imgN, depth)
    }
  }

  // ---- The data of the passes ----

  predicate Used(h: Header, p: nat)
    requires p < PASSES
  {
    PassWidth(h.width, p) > 0 && PassHeight(h.height, p) > 0
  }

  function PassRowWidth(h: Header, p: nat): nat
    requires p < PASSES
  {
    RowWidth(PassWidth(h.width, p), h.imgN, h.depth)
  }

  function PassLength(h: Header, p: nat): nat
    requires p < PASSES
  {
    if Used(h, p) then (PassRowWidth(h, p) + 1) * PassHeight(h.height, p) else 0
  }

  /** The data from pass `p` on. */
  function DataFrom(h: Header, data: seq<byte>, p: nat): seq<byte>
    requires p <= PASSES
  {
    if p == 0 then data
    else
      var d := DataFrom(h, data, p - 1);
      if PassLength(h, p - 1) <= |d| then d[PassLength(h, p - 1)..] else []
  }

  /** The pass can be decoded from `d` on. */
  predicate PassOk(h: Header, d: seq<byte>, p: nat)
    requires p < PASSES
  {
    Used(h, p) ==>
      && SizesOk(PassWidth(h.width, p), PassHeight(h.height, p), h.imgN, h.outN, h.depth)
      && PassLength(h, p) <= |d| && FiltersOk(d, PassRowWidth(h, p), PassHeight(h.height, p))
  }

  predicate ImageOk(h: Header, data: seq<byte>) {
    && h.width * h.height * h.PixelBytes() <= INT_MAX
    && forall p: nat :: p < PASSES ==> PassOk(h, DataFrom(h, data, p), p)
  }

  /** The rows of the pass. */
  function PassRows(h: Header, d: seq<byte>, p: nat): seq<seq<byte>>
    requires h.Ok() && p < PASSES && Used(h, p) && PassOk(h, d, p)
  {
    Rows(d, PassRowWidth(h, p), h.Unit(), Zeros(PassRowWidth(h, p)), PassHeight(h.height, p))
  }

  predicate Fitting(h: Header, p: nat, rows: seq<seq<byte>>)
    requires p < PASSES
  {
    && |rows| == PassHeight(h.height, p)
    && forall i :: 0 <= i < |rows| ==> Fits(rows[i], PassWidth(h.width, p) * h.imgN, h.depth)
  }

  lemma PassRowsFit(h: Header, d: seq<byte>, p: nat)
    requires h.Ok() && p < PASSES && Used(h, p) && PassOk(h, d, p)
    ensures Fitting(h, p, PassRows(h, d, p))
  {
    hide SizesOk, FiltersOk, Rows, RowWidth, PassWidth, PassHeight;
    WidthFits(PassWidth(h.width, p), h.imgN, h.depth);
  }

  /** The output of the pass. */
  function PassPicture(h: Header, d: seq<byte>, p: nat): seq<byte>
    requires h.Ok() && p < PASSES && PassOk(h, d, p)
  {
    if !Used(h, p) then []
    else
      PassRowsFit(h, d, p);
      Picture(PassRows(h, d, p), PassWidth(h.width, p), h.imgN, h.outN, h.depth, h.color)
  }

  /** The pixel in row `r` and column `c` comes from its pass. */
  ghost predicate FromPass(h: Header, data: seq<byte>, out: seq<byte>, r: nat, c: nat)
    requires h.Ok()
  {
    var p := PassOf(r, c);
    && p < PASSES && PassOk(h, DataFrom(h, data, p), p)
    && Pixel(out, Index(h.width, r, c), h.PixelBytes())
       == Pixel(PassPicture(h, DataFrom(h, data, p), p), Index(PassWidth(h.width, p), RowIn(p, r), ColIn(p, c)),
                h.PixelBytes())
  }

  // ---- Deinterlacing ----

  /** The pixels of the passes before `p` are in place. */
  ghost predicate PassesDone(h: Header, data: seq<byte>, out: seq<byte>, p: nat)
    requires h.Ok()
  {
    && |out| == h.width * h.height * h.PixelBytes()
    && forall r: nat, c: nat {:trigger Index(h.width, r, c)} ::
         r < h.height && c < h.width && PassOf(r, c) < p ==> FromPass(h, data, out, r, c)
  }

  lemma PassesStart(h: Header, data: seq<byte>, out: seq<byte>)
    requires h.Ok() && |out| == h.width * h.height * h.PixelBytes()
    ensures PassesDone(h, data, out, 0)
  {
    hide PassOf, FromPass;
    assert forall r: nat, c: nat :: PassOf(r, c) >= 0;
  }

  lemma PassesStep(h: Header, data: seq<byte>, was: seq<byte>, now: seq<byte>, p: nat)
    requires h.Ok() && p < PASSES && PassOk(h, DataFrom(h, data, p), p) && PassesDone(h, data, was, p)
    requires PassDone(was, now, PassPicture(h, DataFrom(h, data, p), p), h.width, h.height, h.PixelBytes(), p)
    ensures PassesDone(h, data, now, p + 1)
  {
    hide PassOk, PassPicture, DataFrom, Pixel, Index, InPass, PassOf, RowIn, ColIn, PassWidth;
    forall r: nat, c: nat | r < h.height && c < h.width && PassOf(r, c) < p + 1
      ensures FromPass(h, data, now, r, c)
    {
      InPassIs(r, c, p);
      assert PassOf(r, c) < p ==> FromPass(h, data, was, r, c) by { var k := Index(h.width, r, c); }
    }
  }

  lemma PassesEnd(h: Header, data: seq<byte>, out: seq<byte>)
    requires h.Ok() && PassesDone(h, data, out, PASSES)
    ensures forall r: nat, c: nat :: r < h.height && c < h.width ==> FromPass(h, data, out, r, c)
  {
    hide FromPass, PassOf;
    forall r: nat, c: nat | r < h.height && c < h.width
      ensures FromPass(h, data, out, r, c)
    {
      OnePass(r, c);
      var k := Index(h.width, r, c);
    }
  }

  lemma SameSize(x: nat, y: nat, outN: nat, b: nat)
    ensures y * (x * outN * b) == x * y * (outN * b)
  {
    Associate(x, outN, b);
    Associate(x, y, outN * b);
    Associate(y, x, outN * b);
    Commute(x, y);
  }

  method DecodePass(h: Header, d: seq<byte>, p: nat, final: array<byte>, granted: bool) returns (ok: bool)
    requires h.Ok() && p < PASSES && final.Length == h.width * h.height * h.PixelBytes()
    modifies final
    ensures ok <==> PassOk(h, d, p) && (Used(h, p) ==> granted)
    ensures ok ==> PassDone(old(final[..]), final[..], PassPicture(h, d, p), h.width, h.height, h.PixelBytes(), p)
    ensures ok ==> PassLength(h, p) <= |d|
  {
    hide PassDone, SizesOk, FiltersOk, Rows, Picture, RowWidth, PassWidth, PassHeight, Stride;
    var x, y := PassWidth(h.width, p), PassHeight(h.height, p);
    if x == 0 || y == 0 {
      EmptyPass(final[..], [], h.width, h.height, h.PixelBytes(), p);
      return true;
    }
    var sub;
    ok, sub := CreateRaw(d, x, y, h.imgN, h.outN, h.depth, h.color, granted);
    if ok {
      PictureSize(h, d, p);
      PlacePass(sub, final, h.width, h.height, h.PixelBytes(), p);
    }
  }

  lemma PictureSize(h: Header, d: seq<byte>, p: nat)
    requires h.Ok() && p < PASSES && PassOk(h, d, p) && Used(h, p)
    ensures |PassPicture(h, d, p)| == PassWidth(h.width, p) * PassHeight(h.height, p) * h.PixelBytes()
  {
    hide SizesOk, FiltersOk, Rows, RowWidth, PassWidth, PassHeight, Fits;
    PassRowsFit(h, d, p);
    SameSize(PassWidth(h.width, p), PassHeight(h.height, p), h.outN, Bytes(h.depth));
  }

  /** Memory is granted for the image, as number PASSES, and for every pass that has pixels. */
  predicate Granted(h: Header, granted: nat -> bool) {
    granted(PASSES) && forall p: nat :: p < PASSES && Used(h, p) ==> granted(p)
  }

  /** Decodes the seven passes one after the other and puts every pixel in its place. */
  method Deinterlace(h: Header, data: seq<byte>, granted: nat -> bool) returns (ok: bool, out: array<byte>)
    requires h.Ok()
    ensures fresh(out) && (ok <==> ImageOk(h, data) && Granted(h, granted))
    ensures ok ==> out.Length == h.width * h.height * h.PixelBytes()
    ensures ok ==> forall r: nat, c: nat :: r < h.height && c < h.width ==> FromPass(h, data, out[..], r, c)
  {
    hide PassOk, PassLength, PassDone, PassesDone, PassPicture, FromPass, Header.PixelBytes;
    out := new byte[0];
    var total := h.width * h.height * h.PixelBytes();
    if total > INT_MAX || !granted(PASSES) { return false, out; }
    out := new byte[total];
    var d := data;
    PassesStart(h, data, out[..]);
    for p := 0 to PASSES
      invariant d == DataFrom(h, data, p)
      invariant forall q: nat :: q < p ==> PassOk(h, DataFrom(h, data, q), q) && (Used(h, q) ==> granted(q))
      invariant PassesDone(h, data, out[..], p)
    {
      ghost var was := out[..];
      ok := DecodePass(h, d, p, out, granted(p));
      if !ok { return false, out; }
      PassesStep(h, data, was, out[..], p);
      d := d[PassLength(h, p)..];
    }
    PassesEnd(h, data, out[..]);
    ok := true;
  }

  // ---- Round trip ----

  /** Seven lists of rows, with a filter type for each row. */
  predicate Passes(h: Header, rows: seq<seq<seq<byte>>>, fts: seq<seq<byte>>) {
    && |rows| == PASSES && |fts| == PASSES
    && forall p: nat :: p < PASSES && Used(h, p) ==>
         |rows[p]| == PassHeight(h.height, p) && Encodable(rows[p], fts[p], PassRowWidth(h, p))
  }

  /** The stream of an encoder for one pass. */
  function EncodePass(h: Header, rows: seq<seq<seq<byte>>>, fts: seq<seq<byte>>, p: nat): seq<byte>
    requires h.Ok() && Passes(h, rows, fts) && p < PASSES
  {
    var w := PassRowWidth(h, p);
    if Used(h, p) then Encode(rows[p], fts[p], w, h.Unit(), Zeros(w)) else []
  }

  /** The stream of an encoder, from pass `p` on. */
  function EncodePasses(h: Header, rows: seq<seq<seq<byte>>>, fts: seq<seq<byte>>, p: nat): seq<byte>
    requires h.Ok() && Passes(h, rows, fts) && p <= PASSES
    decreases PASSES - p
  {
    if p == PASSES then [] else EncodePass(h, rows, fts, p) + EncodePasses(h, rows, fts, p + 1)
  }

  lemma PassLengthIs(h: Header, rows: seq<seq<seq<byte>>>, fts: seq<seq<byte>>, p: nat)
    requires h.Ok() && Passes(h, rows, fts) && p < PASSES
    ensures |EncodePass(h, rows, fts, p)| == PassLength(h, p)
  {
    hide RowWidth, PassWidth, PassHeight, Encode, Encodable, Zeros;
    var w := PassRowWidth(h, p);
    if Used(h, p) { EncodeLength(rows[p], fts[p], w, h.Unit(), Zeros(w)); }
  }

  lemma PassStream(h: Header, rows: seq<seq<seq<byte>>>, fts: seq<seq<byte>>, rest: seq<byte>, p: nat)
    requires h.Ok() && Passes(h, rows, fts) && p < PASSES
    ensures EncodePasses(h, rows, fts, p) + rest
         == EncodePass(h, rows, fts, p) + (EncodePasses(h, rows, fts, p + 1) + rest)
  {
    hide Passes, EncodePass;
    var one, tail := EncodePass(h, rows, fts, p), EncodePasses(h, rows, fts, p + 1);
    assert one + tail + rest == one + (tail + rest);
  }

  lemma DataStep(h: Header, data: seq<byte>, p: nat, one: seq<byte>, more: seq<byte>)
    requires p < PASSES && DataFrom(h, data, p) == one + more && |one| == PassLength(h, p)
    ensures DataFrom(h, data, p + 1) == more
  {
    hide PassLength;
  }

  lemma {:induction false} DataFromEncode(h: Header, rows: seq<seq<seq<byte>>>, fts: seq<seq<byte>>, rest: seq<byte>, p: nat)
    requires h.Ok() && Passes(h, rows, fts) && p <= PASSES
    ensures DataFrom(h, EncodePasses(h, rows, fts, 0) + rest, p) == EncodePasses(h, rows, fts, p) + rest
  {
    hide Passes, EncodePass, EncodePasses, PassLength;
    if p > 0 {
      DataFromEncode(h, rows, fts, rest, p - 1);
      PassStream(h, rows, fts, rest, p - 1);
      PassLengthIs(h, rows, fts, p - 1);
      DataStep(h, EncodePasses(h, rows, fts, 0) + rest, p - 1, EncodePass(h, rows, fts, p - 1),
               EncodePasses(h, rows, fts, p) + rest);
    }
  }

  /** For every seven lists of rows and every choice of filters, each pass is found again in the stream. */
  lemma PassesRoundTrip(h: Header, rows: seq<seq<seq<byte>>>, fts: seq<seq<byte>>, rest: seq<byte>, p: nat)
    requires h.Ok() && Passes(h, rows, fts) && p < PASSES && Used(h, p)
    requires SizesOk(PassWidth(h.width, p), PassHeight(h.height, p), h.imgN, h.outN, h.depth)
    ensures var d := DataFrom(h, EncodePasses(h, rows, fts, 0) + rest, p);
            PassOk(h, d, p) && PassRows(h, d, p) == rows[p]
  {
    hide RowWidth, PassWidth, PassHeight, SizesOk, DataFrom, EncodePasses, Encode, Encodable, FiltersOk, Rows, Zeros;
    DataFromEncode(h, rows, fts, rest, p);
    PassStream(h, rows, fts, rest, p);
    PassLengthIs(h, rows, fts, p);
    var w, tail := PassRowWidth(h, p), EncodePasses(h, rows, fts, p + 1);
    RowsOfEncode(rows[p], fts[p], w, h.Unit(), Zeros(w), tail + rest);
  }

  /** A pixel of a picture is a pixel of its row. */
  lemma {:induction false} PixelOfPicture(rows: seq<seq<byte>>, x: nat, imgN: nat, outN: nat, depth: nat, color: nat,
                                          j: nat, i: nat)
    requires Depth(depth) && Channels(imgN, outN) && j < |rows| && i < x
    requires forall k :: 0 <= k < |rows| ==> Fits(rows[k], x * imgN, depth)
    ensures Pixel(Picture(rows, x, imgN, outN, depth, color), Index(x, j, i), outN * Bytes(depth))
         == Pixel(DestRow(rows[j], x, imgN, outN, depth, color), i, outN * Bytes(depth))
    decreases |rows|
  {
    hide Fits, DestRow;
    var n, ob := |rows| - 1, outN * Bytes(depth);
    var a, b := Picture(rows[..n], x, imgN, outN, depth, color), DestRow(rows[n], x, imgN, outN, depth, color);
    Associate(x, outN, Bytes(depth));
    Associate(n, x, ob);
    assert |a| == n * x * ob && |b| == x * ob;
    if j < n {
      PixelOfPicture(rows[..n], x, imgN, outN, depth, color, j, i);
      IndexInside(x, n, j, i);
      Commute(x, n);
      PixelInside(Index(x, j, i), n * x, ob);
      PixelOfFirst(a, b, Index(x, j, i), ob);
    } else {
      PixelInside(i, x, ob);
      PixelOfSecond(a, b, n * x, i, ob);
    }
  }

  /** Images of one size with the same pixels are the same. */
  lemma SamePixels(a: seq<byte>, b: seq<byte>, width: nat, height: nat, ob: nat)
    requires |a| == |b| == width * height * ob
    requires forall r: nat, c: nat :: r < height && c < width ==>
      Pixel(a, Index(width, r, c), ob) == Pixel(b, Index(width, r, c), ob)
    ensures a == b
  {
    forall k: nat | k < |a|
      ensures a[k] == b[k]
    {
      SameByte(a, b, width, height, ob, k);
    }
  }

  lemma SameByte(a: seq<byte>, b: seq<byte>, width: nat, height: nat, ob: nat, k: nat)
    requires |a| == |b| == width * height * ob && k < |a|
    requires forall r: nat, c: nat :: r < height && c < width ==>
      Pixel(a, Index(width, r, c), ob) == Pixel(b, Index(width, r, c), ob)
    ensures a[k] == b[k]
  {
    hide Index;
    var r, c, m := Locate(width, height, ob, k);
    ByteOfPixel(a, Index(width, r, c), ob, m);
    ByteOfPixel(b, Index(width, r, c), ob, m);
  }

  /** The pixel that a byte belongs to. */
  lemma Locate(width: nat, height: nat, ob: nat, k: nat) returns (r: nat, c: nat, m: nat)
    requires k < width * height * ob
    ensures r < height && c < width && m < ob
    ensures k == Index(width, r, c) * ob + m && Index(width, r, c) * ob + ob <= width * height * ob
  {
    var q;
    q, m := Divided(k, width * height, ob);
    Commute(width, height);
    r, c := Divided(q, height, width);
    assert q == Index(width, r, c);
    PixelInside(q, width * height, ob);
  }

  // ---- Interlacing changes nothing ----

  /** The bytes of a row are no more than those of its output row. */
  lemma RowFits(x: nat, imgN: nat, outN: nat, depth: nat)
    requires Depth(depth) && Channels(imgN, outN) && 1 <= x <= 0x100_0000
    ensures imgN * x * depth + 7 <= INT_MAX && RowWidth(x, imgN, depth) <= 0x800_0000
    ensures RowWidth(x, imgN, depth) <= x * (outN * Bytes(depth))
  {
    var n := imgN * x;
    assert 1 <= n <= 4 * x by { if imgN == 1 {} else if imgN == 2 {} else if imgN == 3 {} else {} }
    WidthBound(n, depth);
    assert n * Bytes(depth) <= x * (outN * Bytes(depth)) by {
      MulMono(imgN, outN, x);
      Commute(x, outN);
      MulMono(n, x * outN, Bytes(depth));
      Associate(x, outN, Bytes(depth));
    }
  }

  lemma WidthBound(n: nat, depth: nat)
    requires Depth(depth) && n >= 1
    ensures (n * depth + 7) / 8 <= n * Bytes(depth) <= 2 * n && n * depth <= 16 * n
  {
    if depth == 1 {} else if depth == 2 {} else if depth == 4 {} else if depth == 8 {} else {}
  }

  /** If the image is not too large, no pass is: the sizes that the code checks for each pass need no check. */
  lemma PassSizes(h: Header, p: nat)
    requires h.Ok() && p < PASSES && Used(h, p) && h.width * h.height * h.PixelBytes() <= INT_MAX
    ensures SizesOk(PassWidth(h.width, p), PassHeight(h.height, p), h.imgN, h.outN, h.depth)
  {
    hide PassWidth, PassHeight, RowWidth;
    var x, y, ob := PassWidth(h.width, p), PassHeight(h.height, p), h.PixelBytes();
    PassSmaller(h.width, h.height, p);
    RowFits(x, h.imgN, h.outN, h.depth);
    var w := RowWidth(x, h.imgN, h.depth);
    if y == 1 {
      Area(x, 1, h.width, h.height, ob);
    } else {
      Area(x, y, h.width, h.height, ob);
      Area(x, y + 1, h.width, h.height, ob);
      RowArea(w, x, y, ob);
    }
  }

  lemma Area(x: nat, y: nat, width: nat, height: nat, ob: nat)
    requires x <= width && y <= height
    ensures x * y * ob <= width * height * ob
  {
    MulMono(x, width, y);
    MulMono(y, height, width);
    Commute(width, y);
    Commute(width, height);
    MulMono(x * y, width * height, ob);
  }

  lemma RowArea(w: nat, x: nat, y: nat, ob: nat)
    requires w <= x * ob
    ensures w * y + w <= x * (y + 1) * ob
  {
    Distribute(w, y);
    MulMono(w, x * ob, y + 1);
    Associate(x, ob, y + 1);
    Commute(ob, y + 1);
    Associate(x, y + 1, ob);
  }

  /** The rows of an image, each as wide as the header says. */
  predicate ImageRows(h: Header, full: seq<seq<byte>>) {
    |full| == h.height && forall r :: 0 <= r < h.height ==> |full[r]| == RowWidth(h.width, h.imgN, h.depth)
  }

  /** The samples of pixel (j, i) of the pass are those of its pixel in the image. */
  predicate SubPixel(h: Header, full: seq<seq<byte>>, rows: seq<seq<byte>>, p: nat, j: nat, i: nat)
    requires h.Ok() && p < PASSES
  {
    var r, c := RowAt(p, j), ColAt(p, i);
    && j < |rows| && r < |full|
    && SameSamples(rows[j], i * h.imgN, full[r], c * h.imgN, h.imgN, h.depth)
  }

  /** The passes hold the pixels of the image, whatever their rows have in unused bits. */
  predicate SubImages(h: Header, full: seq<seq<byte>>, rows: seq<seq<seq<byte>>>)
    requires h.Ok()
  {
    && |rows| == PASSES
    && forall p: nat, j: nat, i: nat :: p < PASSES && j < PassHeight(h.height, p) && i < PassWidth(h.width, p) ==>
         SubPixel(h, full, rows[p], p, j, i)
  }

  lemma ImageRowsFit(h: Header, full: seq<seq<byte>>)
    requires h.Ok() && ImageRows(h, full)
    ensures forall r :: 0 <= r < |full| ==> Fits(full[r], h.width * h.imgN, h.depth)
  {
    hide RowWidth;
    WidthFits(h.width, h.imgN, h.depth);
  }

  /** The output for the same image without interlacing. */
  function PlainPicture(h: Header, full: seq<seq<byte>>): seq<byte>
    requires h.Ok() && ImageRows(h, full)
  {
    ImageRowsFit(h, full);
    Picture(full, h.width, h.imgN, h.outN, h.depth, h.color)
  }

  /** A pixel of a picture is made of the samples of its pixel. */
  lemma PictureOfSamples(rows: seq<seq<byte>>, x: nat, imgN: nat, outN: nat, depth: nat, color: nat, j: nat, i: nat)
    requires Depth(depth) && Channels(imgN, outN) && j < |rows| && i < x
    requires forall k :: 0 <= k < |rows| ==> Fits(rows[k], x * imgN, depth)
    ensures Fits(rows[j], i * imgN + imgN, depth)
    ensures Pixel(Picture(rows, x, imgN, outN, depth, color), Index(x, j, i), outN * Bytes(depth))
         == OutPixel(rows[j], i, imgN, outN, depth, color)
  {
    hide Picture, DestRow, Fits, OutPixel, Index, Channels;
    PixelOfPicture(rows, x, imgN, outN, depth, color, j, i);
    PixelOfDestRow(rows[j], x, imgN, outN, depth, color, i);
  }

  lemma PassPixel(h: Header, full: seq<seq<byte>>, rows: seq<seq<seq<byte>>>, fts: seq<seq<byte>>, rest: seq<byte>,
                  out: seq<byte>, r: nat, c: nat)
    requires h.Ok() && ImageRows(h, full) && Passes(h, rows, fts) && SubImages(h, full, rows)
    requires h.width * h.height * h.PixelBytes() <= INT_MAX
    requires r < h.height && c < h.width
    requires FromPass(h, EncodePasses(h, rows, fts, 0) + rest, out, r, c)
    ensures Pixel(out, Index(h.width, r, c), h.PixelBytes())
         == Pixel(PlainPicture(h, full), Index(h.width, r, c), h.PixelBytes())
  {
    hide PassWidth, PassHeight, SizesOk, Pixel, Index, EncodePasses, PassOf, RowIn, ColIn, RowWidth, SameSamples;
    hide InPass, RowAt, ColAt, Fits, FiltersOk, DestRow, DataFrom, Picture, OutPixel, Channels, Encodable;
    var p := PassOf(r, c);
    OnePass(r, c);
    PassCells(h.width, h.height, p, r, c);
    var j, i, x := RowIn(p, r), ColIn(p, c), PassWidth(h.width, p);
    assert SubPixel(h, full, rows[p], p, j, i);
    PassSizes(h, p);
    PassesRoundTrip(h, rows, fts, rest, p);
    var d := DataFrom(h, EncodePasses(h, rows, fts, 0) + rest, p);
    PassRowsFit(h, d, p);
    PictureOfSamples(PassRows(h, d, p), x, h.imgN, h.outN, h.depth, h.color, j, i);
    ImageRowsFit(h, full);
    PictureOfSamples(full, h.width, h.imgN, h.outN, h.depth, h.color, r, c);
    SameOutPixel(h, full, rows[p], p, j, i);
  }

  lemma SameOutPixel(h: Header, full: seq<seq<byte>>, rows: seq<seq<byte>>, p: nat, j: nat, i: nat)
    requires h.Ok() && p < PASSES && SubPixel(h, full, rows, p, j, i)
    requires Fits(rows[j], i * h.imgN + h.imgN, h.depth)
    requires Fits(full[RowAt(p, j)], ColAt(p, i) * h.imgN + h.imgN, h.depth)
    ensures OutPixel(rows[j], i, h.imgN, h.outN, h.depth, h.color)
         == OutPixel(full[RowAt(p, j)], ColAt(p, i), h.imgN, h.outN, h.depth, h.color)
  {
    hide SameSamples, Fits, RowAt, ColAt, OutRun, Channels;
    var r, c := RowAt(p, j), ColAt(p, i);
    SameRun(rows[j], i * h.imgN, full[r], c * h.imgN, h.imgN, h.depth, h.color);
  }

  /**
   * For every depth and every number of channels: if the passes hold the pixels of an image, their stream is accepted,
   * and its output, made of the pixels of the passes, is the output for the image without interlacing.
   */
  lemma InterlaceSamePicture(h: Header, full: seq<seq<byte>>, rows: seq<seq<seq<byte>>>, fts: seq<seq<byte>>,
                             rest: seq<byte>, out: seq<byte>)
    requires h.Ok() && ImageRows(h, full) && Passes(h, rows, fts) && SubImages(h, full, rows)
    requires h.width * h.height * h.PixelBytes() <= INT_MAX
    requires |out| == h.width * h.height * h.PixelBytes()
    ensures var data := EncodePasses(h, rows, fts, 0) + rest;
            && ImageOk(h, data)
            && ((forall r: nat, c: nat :: r < h.height && c < h.width ==> FromPass(h, data, out, r, c)) ==>
                  out == PlainPicture(h, full))
  {
    hide PassWidth, PassHeight, SizesOk, Pixel, Index, EncodePasses, PassOf, RowIn, ColIn, SubPixel, FromPass, RowWidth;
    hide PlainPicture, Encodable, DataFrom;
    var data := EncodePasses(h, rows, fts, 0) + rest;
    forall p: nat | p < PASSES
      ensures PassOk(h, DataFrom(h, data, p), p)
    {
      if Used(h, p) {
        PassSizes(h, p);
        PassesRoundTrip(h, rows, fts, rest, p);
      }
    }
    if forall r: nat, c: nat :: r < h.height && c < h.width ==> FromPass(h, data, out, r, c) {
      forall r: nat, c: nat | r < h.height && c < h.width
        ensures Pixel(out, Index(h.width, r, c), h.PixelBytes())
             == Pixel(PlainPicture(h, full), Index(h.width, r, c), h.PixelBytes())
      {
        assert FromPass(h, data, out, r, c);
        PassPixel(h, full, rows, fts, rest, out, r, c);
      }
      PlainSize(h, full);
      SamePixels(out, PlainPicture(h, full), h.width, h.height, h.PixelBytes());
    }
  }

  /**
   * Decoding the interlaced stream of an image, whatever the filters: it succeeds exactly if memory is granted, with the
   * output for the same image without interlacing.
   */
  method DecodeInterlaced(h: Header, data: seq<byte>, granted: nat -> bool, ghost full: seq<seq<byte>>,
                          ghost rows: seq<seq<seq<byte>>>, ghost fts: seq<seq<byte>>, ghost rest: seq<byte>)
    returns (ok: bool, out: array<byte>)
    requires h.Ok() && ImageRows(h, full) && Passes(h, rows, fts) && SubImages(h, full, rows)
    requires h.width * h.height * h.PixelBytes() <= INT_MAX && data == EncodePasses(h, rows, fts, 0) + rest
    ensures fresh(out) && (ok <==> Granted(h, granted))
    ensures ok ==> out[..] == PlainPicture(h, full)
  {
    hide ImageOk, FromPass, PlainPicture, EncodePasses, Passes, SubImages, ImageRows, Granted;
    InterlaceAccepted(h, full, rows, fts, rest);
    ok, out := Deinterlace(h, data, granted);
    if ok { InterlaceSamePicture(h, full, rows, fts, rest, out[..]); }
  }

  lemma InterlaceAccepted(h: Header, full: seq<seq<byte>>, rows: seq<seq<seq<byte>>>, fts: seq<seq<byte>>, rest: seq<byte>)
    requires h.Ok() && ImageRows(h, full) && Passes(h, rows, fts) && SubImages(h, full, rows)
    requires h.width * h.height * h.PixelBytes() <= INT_MAX
    ensures ImageOk(h, EncodePasses(h, rows, fts, 0) + rest)
  {
    hide ImageOk, FromPass, PlainPicture, EncodePasses, Passes, SubImages, ImageRows;
    InterlaceSamePicture(h, full, rows, fts, rest, Zeros(h.width * h.height * h.PixelBytes()));
  }

  lemma PlainSize(h: Header, full: seq<seq<byte>>)
    requires h.Ok() && ImageRows(h, full)
    ensures |PlainPicture(h, full)| == h.width * h.height * h.PixelBytes()
  {
    hide RowWidth, Picture;
    ImageRowsFit(h, full);
    SameSize(h.width, h.height, h.outN, Bytes(h.depth));
  }

  // ---- Round trip of the pixels of an 8-bit image without added alpha ----

  /** Row `j` of the pass taken from the image `img`, up to column `n`. */
  function SubRow(h: Header, img: seq<byte>, p: nat, j: nat, n: nat): seq<byte>
    requires p < PASSES
  {
    if n == 0 then []
    else
      SubRow(h, img, p, j, n - 1)
      + Pixel(img, Index(h.width, RowAt(p, j), ColAt(p, n - 1)), h.PixelBytes())
  }

  /** The rows of the pass taken from the image. */
  function SubRows(h: Header, img: seq<byte>, p: nat): seq<seq<byte>>
    requires p < PASSES
  {
    seq(PassHeight(h.height, p), j requires 0 <= j => SubRow(h, img, p, j, PassWidth(h.width, p)))
  }

  lemma {:induction false} SubRowLength(h: Header, img: seq<byte>, p: nat, j: nat, n: nat)
    requires h.Ok() && |img| == h.width * h.height * h.PixelBytes()
    requires p < PASSES && n <= PassWidth(h.width, p) && j < PassHeight(h.height, p)
    ensures |SubRow(h, img, p, j, n)| == n * h.PixelBytes()
  {
    hide PassWidth, PassHeight, RowAt, ColAt, Index, Pixel;
    if n > 0 {
      SubRowLength(h, img, p, j, n - 1);
      CellPixel(h, img, p, j, n - 1);
      OneMore(n, h.PixelBytes());
    }
  }

  /** The pixel of a cell of the pass lies inside the image. */
  lemma CellPixel(h: Header, img: seq<byte>, p: nat, j: nat, i: nat)
    requires h.Ok() && |img| == h.width * h.height * h.PixelBytes()
    requires p < PASSES && i < PassWidth(h.width, p) && j < PassHeight(h.height, p)
    ensures |Pixel(img, Index(h.width, RowAt(p, j), ColAt(p, i)), h.PixelBytes())| == h.PixelBytes()
  {
    hide PassWidth, PassHeight, RowAt, ColAt, Index, RowIn, ColIn, InPass, Pixel;
    var ob, r, c := h.PixelBytes(), RowAt(p, j), ColAt(p, i);
    CellInPass(p, j, i);
    PassCells(h.width, h.height, p, r, c);
    IndexInside(h.width, h.height, r, c);
    PixelInside(Index(h.width, r, c), h.width * h.height, ob);
    PixelSlice(img, Index(h.width, r, c), ob);
  }

  lemma {:induction false} PixelOfSubRow(h: Header, img: seq<byte>, p: nat, j: nat, n: nat)
    requires h.Ok() && |img| == h.width * h.height * h.PixelBytes()
    requires p < PASSES && n <= PassWidth(h.width, p) && j < PassHeight(h.height, p)
    ensures |SubRow(h, img, p, j, n)| == n * h.PixelBytes()
    ensures forall i: nat :: i < n ==>
      Pixel(SubRow(h, img, p, j, n), i, h.PixelBytes())
      == Pixel(img, Index(h.width, RowAt(p, j), ColAt(p, i)), h.PixelBytes())
  {
    hide PassWidth, PassHeight, RowAt, ColAt, Index, Pixel;
    SubRowLength(h, img, p, j, n);
    if n > 0 {
      PixelOfSubRow(h, img, p, j, n - 1);
      var ob, r, c := h.PixelBytes(), RowAt(p, j), ColAt(p, n - 1);
      CellPixel(h, img, p, j, n - 1);
      LastPixel(SubRow(h, img, p, j, n - 1), Pixel(img, Index(h.width, r, c), ob), n - 1, ob);
    }
  }

  predicate GoodFilters(h: Header, fts: seq<seq<byte>>) {
    && |fts| == PASSES
    && forall p: nat :: p < PASSES ==>
         |fts[p]| == PassHeight(h.height, p) && forall j :: 0 <= j < |fts[p]| ==> fts[p][j] <= PAETH
  }

  function AllSubRows(h: Header, img: seq<byte>): seq<seq<seq<byte>>> {
    seq(PASSES, p requires 0 <= p < PASSES => SubRows(h, img, p))
  }

  lemma SubRowsPasses(h: Header, img: seq<byte>, fts: seq<seq<byte>>)
    requires h.Ok() && h.depth == 8 && h.imgN == h.outN && |img| == h.width * h.height * h.PixelBytes()
    requires GoodFilters(h, fts)
    ensures Passes(h, AllSubRows(h, img), fts)
  {
    hide PassWidth, PassHeight, RowWidth, SubRow, Pixel;
    forall p: nat | p < PASSES && Used(h, p)
      ensures Encodable(SubRows(h, img, p), fts[p], PassRowWidth(h, p))
    {
      WidthFits(PassWidth(h.width, p), h.imgN, 8);
      forall j: nat | j < PassHeight(h.height, p)
        ensures |SubRows(h, img, p)[j]| == PassRowWidth(h, p)
      {
        PixelOfSubRow(h, img, p, j, PassWidth(h.width, p));
      }
    }
  }

  /** Bytes of a row of an 8-bit image. */
  function RowLength(h: Header): nat { h.width * h.PixelBytes() }

  /** The rows of an 8-bit image. */
  function Slices(h: Header, img: seq<byte>): seq<seq<byte>> {
    seq(h.height, r requires 0 <= r => Pixel(img, r, RowLength(h)))
  }

  lemma SliceInside(h: Header, r: nat)
    requires r < h.height
    ensures r * RowLength(h) + RowLength(h) <= h.width * h.height * h.PixelBytes()
  {
    PixelInside(r, h.height, RowLength(h));
    Associate(h.height, h.width, h.PixelBytes());
    Commute(h.height, h.width);
  }

  lemma PixelOfSlice(h: Header, img: seq<byte>, r: nat, c: nat)
    requires |img| == h.width * h.height * h.PixelBytes() && r < h.height && c < h.width
    ensures var ob := h.PixelBytes();
            && |Slices(h, img)| == h.height && c * ob + ob <= |Slices(h, img)[r]| == RowLength(h)
            && Pixel(Slices(h, img)[r], c, ob) == Pixel(img, Index(h.width, r, c), ob)
  {
    hide Pixel;
    var ob := h.PixelBytes();
    SliceInside(h, r);
    PixelInside(c, h.width, ob);
    Offsets(h.width, r, c, ob);
    Associate(r, h.width, ob);
    InnerPixel(img, r, RowLength(h), c, ob, Index(h.width, r, c));
  }

  lemma SlicesRows(h: Header, img: seq<byte>)
    requires h.Ok() && h.depth == 8 && h.imgN == h.outN && |img| == h.width * h.height * h.PixelBytes()
    ensures ImageRows(h, Slices(h, img))
  {
    hide RowWidth, Pixel;
    WidthFits(h.width, h.imgN, 8);
    forall r: nat | r < h.height
      ensures |Slices(h, img)[r]| == RowLength(h)
    {
      PixelOfSlice(h, img, r, 0);
    }
  }

  lemma SlicesSubPixel(h: Header, img: seq<byte>, p: nat, j: nat, i: nat)
    requires h.Ok() && h.depth == 8 && h.imgN == h.outN && |img| == h.width * h.height * h.PixelBytes()
    requires p < PASSES && j < PassHeight(h.height, p) && i < PassWidth(h.width, p)
    ensures SubPixel(h, Slices(h, img), SubRows(h, img, p), p, j, i)
  {
    hide PassWidth, PassHeight, RowAt, ColAt, Index, RowIn, ColIn, InPass, SubRow, SubRows, Slices, SameSamples, Pixel;
    var r, c, ob := RowAt(p, j), ColAt(p, i), h.PixelBytes();
    CellInPass(p, j, i);
    PassCells(h.width, h.height, p, r, c);
    SubRowPixel(h, img, p, j, i);
    PixelOfSlice(h, img, r, c);
    SamePixelBytes(SubRows(h, img, p)[j], i, Slices(h, img)[r], c, ob);
  }

  lemma SubRowPixel(h: Header, img: seq<byte>, p: nat, j: nat, i: nat)
    requires h.Ok() && |img| == h.width * h.height * h.PixelBytes()
    requires p < PASSES && j < PassHeight(h.height, p) && i < PassWidth(h.width, p)
    ensures |SubRows(h, img, p)| == PassHeight(h.height, p)
    ensures i * h.PixelBytes() + h.PixelBytes() <= |SubRows(h, img, p)[j]|
    ensures Pixel(SubRows(h, img, p)[j], i, h.PixelBytes())
         == Pixel(img, Index(h.width, RowAt(p, j), ColAt(p, i)), h.PixelBytes())
  {
    hide PassWidth, PassHeight, RowAt, ColAt, Index, SubRow, Pixel;
    PixelOfSubRow(h, img, p, j, PassWidth(h.width, p));
    PixelInside(i, PassWidth(h.width, p), h.PixelBytes());
  }

  lemma SamePixelBytes(row: seq<byte>, i: nat, other: seq<byte>, c: nat, n: nat)
    requires i * n + n <= |row| && c * n + n <= |other| && Pixel(row, i, n) == Pixel(other, c, n)
    ensures SameSamples(row, i * n, other, c * n, n, 8)
  {
    hide SameSamples;
    SameBytes(row, i * n, other, c * n, n);
  }

  lemma SlicesPicture(h: Header, img: seq<byte>)
    requires h.Ok() && h.depth == 8 && h.imgN == h.outN && |img| == h.width * h.height * h.PixelBytes()
    requires ImageRows(h, Slices(h, img))
    ensures PlainPicture(h, Slices(h, img)) == img
  {
    hide RowWidth, Slices, Pixel, Index, Fits, DestRow, Picture;
    var full := Slices(h, img);
    ImageRowsFit(h, full);
    PlainSize(h, full);
    forall r: nat, c: nat | r < h.height && c < h.width
      ensures Pixel(PlainPicture(h, full), Index(h.width, r, c), h.PixelBytes())
           == Pixel(img, Index(h.width, r, c), h.PixelBytes())
    {
      PixelOfPicture(full, h.width, h.imgN, h.outN, h.depth, h.color, r, c);
      PixelOfSlice(h, img, r, c);
      SameRow(full[r], h.width, h.imgN, h.color);
    }
    SamePixels(PlainPicture(h, full), img, h.width, h.height, h.PixelBytes());
  }

  lemma SameRow(row: seq<byte>, x: nat, imgN: nat, color: nat)
    requires Channels(imgN, imgN) && Fits(row, x * imgN, 8) && |row| == x * (imgN * Bytes(8))
    ensures DestRow(row, x, imgN, imgN, 8, color) == row
  {
    SamplesOfBytes(row, x * imgN, color);
  }

  /**
   * Interlacing an 8-bit image, filtering the rows of its passes in any way and decoding the stream gives the image
   * back: the stream is accepted, and an output made of the pixels of its passes is the image.
   */
  lemma InterlaceRoundTrip(h: Header, img: seq<byte>, fts: seq<seq<byte>>, rest: seq<byte>, out: seq<byte>)
    requires h.Ok() && h.depth == 8 && h.imgN == h.outN && |img| == h.width * h.height * h.PixelBytes()
    requires GoodFilters(h, fts) && |out| == |img| <= INT_MAX
    ensures Passes(h, AllSubRows(h, img), fts)
    ensures var data := EncodePasses(h, AllSubRows(h, img), fts, 0) + rest;
            && ImageOk(h, data)
            && ((forall r: nat, c: nat :: r < h.height && c < h.width ==> FromPass(h, data, out, r, c)) ==> out == img)
  {
    hide PassWidth, PassHeight, SizesOk, Passes, EncodePasses, ImageRows, ImageOk, FromPass, SubPixel, PlainPicture;
    hide SubRows;
    SubRowsPasses(h, img, fts);
    SlicesRows(h, img);
    forall p: nat, j: nat, i: nat | p < PASSES && j < PassHeight(h.height, p) && i < PassWidth(h.width, p)
      ensures SubPixel(h, Slices(h, img), AllSubRows(h, img)[p], p, j, i)
    {
      SlicesSubPixel(h, img, p, j, i);
    }
    InterlaceSamePicture(h, Slices(h, img), AllSubRows(h, img), fts, rest, out);
    SlicesPicture(h, img);
  }
}
