/** Unfiltering a whole image through a working buffer of two rows. */
module PngImage {
  import opened Bits
  import opened PngFilter
  import opened PngSamples
  import opened Powers

  const INT_MAX := 0x7FFF_FFFF

  // ---- A filtered image as a stream of rows ----

  /** `n` rows of `w` bytes are present, each after a filter byte of 0 to 4. */
  predicate FiltersOk(raw: seq<byte>, w: nat, n: nat) {
    n == 0 || (|raw| >= w + 1 && raw[0] <= PAETH && FiltersOk(raw[w + 1..], w, n - 1))
  }

  /** The rows that a stream stands for, below the row `above`. */
  function Rows(raw: seq<byte>, w: nat, fb: nat, above: seq<byte>, n: nat): (rows: seq<seq<byte>>)
    requires FiltersOk(raw, w, n) && |above| == w && fb >= 1
    ensures |rows| == n && forall i :: 0 <= i < n ==> |rows[i]| == w
    decreases n
  {
    if n == 0 then []
    else
      var row := Recon(raw[0], fb, raw[1..w + 1], above, w);
      [row] + Rows(raw[w + 1..], w, fb, row, n - 1)
  }

  predicate Encodable(rows: seq<seq<byte>>, fts: seq<byte>, w: nat) {
    && |fts| == |rows|
    && forall i :: 0 <= i < |rows| ==> |rows[i]| == w && fts[i] <= PAETH
  }

  /** The stream of an encoder that chooses filter type `fts[i]` for row `i`. */
  function Encode(rows: seq<seq<byte>>, fts: seq<byte>, w: nat, fb: nat, above: seq<byte>): (raw: seq<byte>)
    requires Encodable(rows, fts, w) && |above| == w && fb >= 1
  {
    if rows == [] then []
    else [fts[0]] + Filter(fts[0], fb, rows[0], above) + Encode(rows[1..], fts[1..], w, fb, rows[0])
  }

  /** For every image and every choice of filters, the rows come back; what follows the image is not looked at. */
  lemma {:induction false} RowsOfEncode(rows: seq<seq<byte>>, fts: seq<byte>, w: nat, fb: nat, above: seq<byte>,
                                        rest: seq<byte>)
    requires Encodable(rows, fts, w) && |above| == w && fb >= 1
    ensures var raw := Encode(rows, fts, w, fb, above) + rest;
            FiltersOk(raw, w, |rows|) && Rows(raw, w, fb, above, |rows|) == rows
    decreases |rows|
  {
    hide Filter, Recon;
    if rows != [] {
      var f, tail := Filter(fts[0], fb, rows[0], above), Encode(rows[1..], fts[1..], w, fb, rows[0]);
      RowsOfEncode(rows[1..], fts[1..], w, fb, rows[0], rest);
      StreamParts(fts[0], f, tail, rest);
      ReconFilter(fts[0], fb, rows[0], above, w);
      assert rows[0][..w] == rows[0];
    }
  }

  lemma StreamParts(ft: byte, f: seq<byte>, tail: seq<byte>, rest: seq<byte>)
    ensures var raw := [ft] + f + tail + rest;
            raw[0] == ft && raw[1..|f| + 1] == f && raw[|f| + 1..] == tail + rest
  {
  }

  lemma {:induction false} EncodeLength(rows: seq<seq<byte>>, fts: seq<byte>, w: nat, fb: nat, above: seq<byte>)
    requires Encodable(rows, fts, w) && |above| == w && fb >= 1
    ensures |Encode(rows, fts, w, fb, above)| == (w + 1) * |rows|
    decreases |rows|
  {
    if rows != [] {
      EncodeLength(rows[1..], fts[1..], w, fb, rows[0]);
      Distribute(w + 1, |rows| - 1);
    }
  }

  /** The filter bytes of the rows. */
  function FilterBytes(raw: seq<byte>, w: nat, n: nat): (fts: seq<byte>)
    requires FiltersOk(raw, w, n)
    ensures |fts| == n && forall i :: 0 <= i < n ==> fts[i] <= PAETH
    decreases n
  {
    if n == 0 then [] else [raw[0]] + FilterBytes(raw[w + 1..], w, n - 1)
  }

  /** No other image with the same choice of filters has the same stream. */
  lemma {:induction false} EncodeOfRows(raw: seq<byte>, w: nat, fb: nat, above: seq<byte>, n: nat)
    requires FiltersOk(raw, w, n) && |above| == w && fb >= 1
    ensures var rows := Rows(raw, w, fb, above, n); var fts := FilterBytes(raw, w, n);
            Encode(rows, fts, w, fb, above) <= raw
    decreases n
  {
    hide Filter, Recon;
    if n > 0 {
      var row := Recon(raw[0], fb, raw[1..w + 1], above, w);
      FilterRecon(raw[0], fb, raw[1..w + 1], above);
      EncodeOfRows(raw[w + 1..], w, fb, row, n - 1);
      var rows, fts := Rows(raw, w, fb, above, n), FilterBytes(raw, w, n);
      assert rows[1..] == Rows(raw[w + 1..], w, fb, row, n - 1) && fts[1..] == FilterBytes(raw[w + 1..], w, n - 1);
      assert raw == [raw[0]] + raw[1..w + 1] + raw[w + 1..];
    }
  }

  // ---- The output image ----

  /** Bytes of a row of the stream, without its filter byte. */
  function RowWidth(x: nat, imgN: nat, depth: nat): nat { (imgN * x * depth + 7) / 8 }

  function FilterUnit(imgN: nat, depth: nat): nat { if depth < 8 then 1 else imgN * Bytes(depth) }

  function Stride(x: nat, outN: nat, depth: nat): nat { x * outN * Bytes(depth) }

  /** The output rows one after the other. */
  function Picture(rows: seq<seq<byte>>, x: nat, imgN: nat, outN: nat, depth: nat, color: nat): (r: seq<byte>)
    requires Depth(depth) && Channels(imgN, outN)
    requires forall i :: 0 <= i < |rows| ==> Fits(rows[i], x * imgN, depth)
    ensures |r| == |rows| * Stride(x, outN, depth)
  {
    if rows == [] then []
    else
      OneMore(|rows|, Stride(x, outN, depth));
      Picture(rows[..|rows| - 1], x, imgN, outN, depth, color)
      + DestRow(rows[|rows| - 1], x, imgN, outN, depth, color)
  }

  /** The sizes that the code computes with; they all stay below 2^31. */
  predicate SizesOk(x: nat, y: nat, imgN: nat, outN: nat, depth: nat) {
    var w := RowWidth(x, imgN, depth);
    && x * y * (outN * Bytes(depth)) <= INT_MAX && imgN * x * depth + 7 <= INT_MAX
    && w * y + w <= INT_MAX && w * 2 <= INT_MAX
  }

  lemma WidthFits(x: nat, imgN: nat, depth: nat)
    requires Depth(depth) && imgN >= 1 && x >= 1
    ensures var w := RowWidth(x, imgN, depth);
            && x * imgN * depth <= 8 * w
            && (depth >= 8 ==> w == x * imgN * Bytes(depth))
            && 1 <= FilterUnit(imgN, depth) <= w
  {
    Commute(x, imgN);
    MulMono(1, imgN, x);
    var n := x * imgN;
    assert n >= 1;
    if depth == 8 {
      MulMono(1, x, imgN);
    } else if depth == 16 {
      MulMono(1, x, imgN);
    } else {
      MulMono(1, n, depth);
    }
  }

  // ---- Creating the image ----

  /** `j` rows, `done`, have been read up to `pos`; the last one, or zeros, is `above`. */
  ghost predicate Progress(raw: seq<byte>, w: nat, fb: nat, y: nat, j: nat, pos: nat, done: seq<seq<byte>>, above: seq<byte>)
  {
    && fb >= 1 && |above| == w && j <= y && |done| == j && pos == j * (w + 1) && (w + 1) * y <= |raw|
    && (forall i :: 0 <= i < j ==> |done[i]| == w)
    && pos <= |raw| && (FiltersOk(raw, w, y) <==> FiltersOk(raw[pos..], w, y - j))
    && (FiltersOk(raw, w, y) ==> Rows(raw, w, fb, Zeros(w), y) == done + Rows(raw[pos..], w, fb, above, y - j))
  }

  lemma ProgressStart(raw: seq<byte>, w: nat, fb: nat, y: nat)
    requires fb >= 1 && (w + 1) * y <= |raw|
    ensures Progress(raw, w, fb, y, 0, 0, [], Zeros(w))
  {
    assert raw[0..] == raw;
  }

  /** There is another row; if its filter byte is good, reading it is progress. */
  lemma ProgressStep(raw: seq<byte>, w: nat, fb: nat, y: nat, j: nat, pos: nat, done: seq<seq<byte>>, above: seq<byte>)
    requires Progress(raw, w, fb, y, j, pos, done, above) && j < y
    ensures pos + 1 + w <= |raw|
    ensures raw[pos] > PAETH ==> !FiltersOk(raw, w, y)
    ensures raw[pos] <= PAETH ==>
      var row := Recon(raw[pos], fb, raw[pos + 1..pos + 1 + w], above, w);
      Progress(raw, w, fb, y, j + 1, pos + 1 + w, done + [row], row)
  {
    hide Recon;
    MulMono(j + 1, y, w + 1);
    Commute(y, w + 1);
    OneMore(j + 1, w + 1);
    RestParts(raw, pos, w);
    var rest := raw[pos..];
    if raw[pos] <= PAETH && FiltersOk(raw, w, y) {
      var row := Recon(raw[pos], fb, raw[pos + 1..pos + 1 + w], above, w);
      assert Rows(rest, w, fb, above, y - j) == [row] + Rows(rest[w + 1..], w, fb, row, y - j - 1);
    }
  }

  lemma RestParts(raw: seq<byte>, pos: nat, w: nat)
    requires pos + 1 + w <= |raw|
    ensures raw[pos..][0] == raw[pos] && raw[pos..][1..w + 1] == raw[pos + 1..pos + 1 + w]
    ensures raw[pos..][w + 1..] == raw[pos + 1 + w..]
  {
  }

  lemma ProgressEnd(raw: seq<byte>, w: nat, fb: nat, y: nat, pos: nat, done: seq<seq<byte>>, above: seq<byte>)
    requires Progress(raw, w, fb, y, y, pos, done, above)
    ensures FiltersOk(raw, w, y) && Rows(raw, w, fb, Zeros(w), y) == done
  {
  }

  /** The row above is in the other half of the working buffer, or this is the first row. */
  ghost predicate Above(prior: seq<byte>, j: nat, above: seq<byte>) {
    |above| == |prior| && above == if j == 0 then Zeros(|prior|) else prior
  }

  /** The output row made of `row` stands at `at`, and nothing else has changed. */
  ghost predicate RowStored(was: seq<byte>, now: seq<byte>, at: nat, row: seq<byte>,
                            x: nat, imgN: nat, outN: nat, depth: nat, color: nat)
    requires Depth(depth) && Channels(imgN, outN) && Fits(row, x * imgN, depth)
  {
    var s := Stride(x, outN, depth);
    && at + s <= |was| && SameOutside(was, now, at, at + s) && now[at..at + s] == DestRow(row, x, imgN, outN, depth, color)
  }

  /** The row at `raw`, after its filter byte `ft`, is unfiltered at `cur` and stored at `at`. */
  method CreateRow(buf: array<byte>, cur: nat, prior: nat, out: array<byte>, at: nat, j: nat, ft: byte, raw: seq<byte>,
                   x: nat, imgN: nat, outN: nat, depth: nat, color: nat, ghost above: seq<byte>)
    requires buf != out && Depth(depth) && Channels(imgN, outN) && x >= 1 && |raw| == RowWidth(x, imgN, depth)
    requires (cur + |raw| <= prior || prior + |raw| <= cur) && cur + |raw| <= buf.Length && prior + |raw| <= buf.Length
    requires ft <= PAETH && Above(buf[prior..prior + |raw|], j, above)
    requires at + Stride(x, outN, depth) <= out.Length
    modifies buf, out
    ensures FilterUnit(imgN, depth) >= 1 && |above| == |raw|
    ensures var row := Recon(ft, FilterUnit(imgN, depth), raw, above, |raw|);
            && buf[cur..cur + |raw|] == row && Fits(row, x * imgN, depth)
            && RowStored(old(out[..]), out[..], at, row, x, imgN, outN, depth, color)
  {
    hide Recon, DestRow, SameOutside, RowWidth;
    WidthFits(x, imgN, depth);
    var filter: nat := ft;
    if j == 0 { filter := FirstRowFilter(filter); }
    UnfilterRow(buf, cur, prior, FilterUnit(imgN, depth), filter, raw, ft, above);
    StoreRow(buf, cur, out, at, x, imgN, outN, depth, color, Recon(ft, FilterUnit(imgN, depth), raw, above, |raw|));
  }

  /** Which half of the working buffer row `j` goes to. */
  function Half(j: nat, w: nat): nat { if j % 2 == 0 then 0 else w }

  /** The output rows and the row above, after `j` rows. */
  ghost predicate Stored(buf: seq<byte>, out: seq<byte>, j: nat, w: nat, done: seq<seq<byte>>, above: seq<byte>,
                         x: nat, imgN: nat, outN: nat, depth: nat, color: nat)
    requires Depth(depth) && Channels(imgN, outN)
  {
    && |buf| == w * 2 && Above(buf[Half(j + 1, w)..Half(j + 1, w) + w], j, above)
    && (forall i :: 0 <= i < |done| ==> Fits(done[i], x * imgN, depth))
    && |done| == j && Stride(x, outN, depth) * j <= |out|
    && out[..Stride(x, outN, depth) * j] == Picture(done, x, imgN, outN, depth, color)
  }

  lemma StoredStart(buf: seq<byte>, out: seq<byte>, w: nat, x: nat, imgN: nat, outN: nat, depth: nat, color: nat)
    requires Depth(depth) && Channels(imgN, outN) && |buf| == w * 2
    ensures Stored(buf, out, 0, w, [], Zeros(w), x, imgN, outN, depth, color)
  {
  }

  lemma StoredStep(buf: seq<byte>, out: seq<byte>, buf': seq<byte>, out': seq<byte>, j: nat, y: nat, w: nat,
                   done: seq<seq<byte>>, above: seq<byte>, row: seq<byte>, at: nat,
                   x: nat, imgN: nat, outN: nat, depth: nat, color: nat)
    requires Depth(depth) && Channels(imgN, outN) && Fits(row, x * imgN, depth)
    requires j < y && |row| == w && at == Stride(x, outN, depth) * j && |out| == Stride(x, outN, depth) * y
    requires Stored(buf, out, j, w, done, above, x, imgN, outN, depth, color)
    requires |buf'| == w * 2 && Half(j, w) + w <= |buf'| && buf'[Half(j, w)..Half(j, w) + w] == row
    requires RowStored(out, out', at, row, x, imgN, outN, depth, color)
    ensures Stored(buf', out', j + 1, w, done + [row], row, x, imgN, outN, depth, color)
  {
    hide DestRow, Fits, Stride;
    var s := Stride(x, outN, depth);
    Distribute(s, j);
    assert (done + [row])[..j] == done;
    assert out'[..s * j] == out[..s * j];
    assert out'[..s * j + s] == out'[..s * j] + out'[s * j..s * j + s];
  }

  /** Where output row `j` of `y` begins; there is room for it. */
  method RowStart(s: nat, j: nat, y: nat) returns (at: nat)
    requires j < y
    ensures at == s * j && at + s <= s * y
  {
    at := s * j;
    MulMono(j + 1, y, s);
    Commute(s, y);
    Commute(s, j + 1);
    Distribute(s, j);
  }

  method NextRow(raw: seq<byte>, buf: array<byte>, out: array<byte>, j: nat, y: nat, pos: nat, w: nat,
                 x: nat, imgN: nat, outN: nat, depth: nat, color: nat, ghost done: seq<seq<byte>>, ghost above: seq<byte>)
    returns (ok: bool, ghost row: seq<byte>)
    requires buf != out && Depth(depth) && Channels(imgN, outN) && x >= 1 && j < y && w == RowWidth(x, imgN, depth)
    requires out.Length == Stride(x, outN, depth) * y
    requires Progress(raw, w, FilterUnit(imgN, depth), y, j, pos, done, above)
    requires Stored(buf[..], out[..], j, w, done, above, x, imgN, outN, depth, color)
    modifies buf, out
    ensures !ok ==> !FiltersOk(raw, w, y)
    ensures ok ==> Progress(raw, w, FilterUnit(imgN, depth), y, j + 1, pos + 1 + w, done + [row], row)
    ensures ok ==> Stored(buf[..], out[..], j + 1, w, done + [row], row, x, imgN, outN, depth, color)
  {
    hide Recon, RowStored, RowWidth, Progress, FiltersOk, Stride, Fits, Picture;
    ghost var b, o := buf[..], out[..];
    ProgressStep(raw, w, FilterUnit(imgN, depth), y, j, pos, done, above);
    var at := RowStart(Stride(x, outN, depth), j, y);
    row := [];
    if raw[pos] > PAETH { return false, row; }
    assert b[Half(j + 1, w)..Half(j + 1, w) + w] == buf[Half(j + 1, w)..Half(j + 1, w) + w];
    CreateRow(buf, Half(j, w), Half(j + 1, w), out, at, j, raw[pos], raw[pos + 1..pos + 1 + w],
              x, imgN, outN, depth, color, above);
    row := Recon(raw[pos], FilterUnit(imgN, depth), raw[pos + 1..pos + 1 + w], above, w);
    StoredStep(b, o, buf[..], out[..], j, y, w, done, above, row, at, x, imgN, outN, depth, color);
    ok := true;
  }

  /**
   * Succeeds exactly if the image and the working buffer are granted, the sizes are in range, the data is long enough,
   * and every filter byte is one of the five.
   */
  method CreateRaw(raw: seq<byte>, x: nat, y: nat, imgN: nat, outN: nat, depth: nat, color: nat, granted: bool)
    returns (ok: bool, out: array<byte>)
    requires Depth(depth) && Channels(imgN, outN) && x >= 1
    ensures fresh(out) && FilterUnit(imgN, depth) >= 1
    ensures var w := RowWidth(x, imgN, depth);
            && (ok <==> granted && SizesOk(x, y, imgN, outN, depth) && |raw| >= (w + 1) * y && FiltersOk(raw, w, y))
            && (ok ==>
                  var rows := Rows(raw, w, FilterUnit(imgN, depth), Zeros(w), y);
                  && (forall i :: 0 <= i < y ==> Fits(rows[i], x * imgN, depth))
                  && out[..] == Picture(rows, x, imgN, outN, depth, color))
  {
    hide RowWidth, Progress, Stored, FiltersOk, Rows, Picture, Stride, SizesOk, Fits;
    WidthFits(x, imgN, depth);
    var w := RowWidth(x, imgN, depth);
    out := new byte[0];
    if !granted || !SizesOk(x, y, imgN, outN, depth) || |raw| < (w + 1) * y { return false, out; }
    out := new byte[Stride(x, outN, depth) * y];
    var buf := new byte[w * 2];
    var pos: nat := 0;
    ghost var done, above := [], Zeros(w);
    ProgressStart(raw, w, FilterUnit(imgN, depth), y);
    StoredStart(buf[..], out[..], w, x, imgN, outN, depth, color);
    for j := 0 to y
      invariant Progress(raw, w, FilterUnit(imgN, depth), y, j, pos, done, above)
      invariant Stored(buf[..], out[..], j, w, done, above, x, imgN, outN, depth, color)
    {
      ghost var row;
      ok, row := NextRow(raw, buf, out, j, y, pos, w, x, imgN, outN, depth, color, done, above);
      if !ok { return false, out; }
      done, above := done + [row], row;
      pos := pos + 1 + w;
    }
    ProgressEnd(raw, w, FilterUnit(imgN, depth), y, pos, done, above);
    StoredEnd(buf[..], out[..], y, w, done, above, x, imgN, outN, depth, color);
    ok := true;
  }

  lemma StoredEnd(buf: seq<byte>, out: seq<byte>, y: nat, w: nat, done: seq<seq<byte>>, above: seq<byte>,
                  x: nat, imgN: nat, outN: nat, depth: nat, color: nat)
    requires Depth(depth) && Channels(imgN, outN) && |out| == Stride(x, outN, depth) * y
    requires Stored(buf, out, y, w, done, above, x, imgN, outN, depth, color)
    ensures forall i :: 0 <= i < |done| ==> Fits(done[i], x * imgN, depth)
    ensures out == Picture(done, x, imgN, outN, depth, color)
  {
  }
}
