/** The five row filters of section 9 of the PNG specification (second edition), and their inverse in place. */
module PngFilter {
  import opened Bits

  const NONE := 0
  const SUB := 1
  const UP := 2
  const AVERAGE := 3
  const PAETH := 4
  const AVERAGE_FIRST := 5

  // ---- The Paeth predictor ----

  function Abs(x: int): nat { if x < 0 then -x else x }

  /** Section 9.4: the neighbour nearest to a + b - c, ties going to a, then to b. */
  function PaethPredictor(a: int, b: int, c: int): int {
    var p := a + b - c;
    var pa, pb, pc := Abs(p - a), Abs(p - b), Abs(p - c);
    if pa <= pb && pa <= pc then a else if pb <= pc then b else c
  }

  /** The predictor with its absolute values removed. */
  function Paeth(a: int, b: int, c: int): int {
    var thresh := c * 3 - (a + b);
    var lo := if a < b then a else b;
    var hi := if a < b then b else a;
    var t0 := if hi <= thresh then lo else c;
    if thresh <= lo then hi else t0
  }

  lemma PaethIsPredictor(a: int, b: int, c: int)
    ensures Paeth(a, b, c) == PaethPredictor(a, b, c)
  {
    if c >= a && c >= b {
    } else if c <= a && c <= b {
    } else {
    }
  }

  // ---- Filtering and reconstruction ----

  /** The byte `fb` places to the left; there are only zeros left of a row. */
  function Left(row: seq<byte>, i: nat, fb: nat): byte
    requires i <= |row| && fb >= 1
  {
    if i < fb then 0 else row[i - fb]
  }

  function Predict(ft: nat, a: byte, b: byte, c: byte): int
    requires ft <= PAETH
  {
    if ft == NONE then 0
    else if ft == SUB then a
    else if ft == UP then b
    else if ft == AVERAGE then (a + b) / 2
    else PaethPredictor(a, b, c)
  }

  /** What an encoder stores for `row`, given the row above it. */
  function Filter(ft: nat, fb: nat, row: seq<byte>, above: seq<byte>): (raw: seq<byte>)
    requires ft <= PAETH && fb >= 1 && |above| == |row|
    ensures |raw| == |row|
  {
    seq(|row|, i requires 0 <= i < |row| =>
      (row[i] - Predict(ft, Left(row, i, fb), above[i], Left(above, i, fb))) % 256)
  }

  /** The first `k` bytes of the row whose filtered form is `raw`. */
  function Recon(ft: nat, fb: nat, raw: seq<byte>, above: seq<byte>, k: nat): (row: seq<byte>)
    requires ft <= PAETH && fb >= 1 && |above| == |raw| && k <= |raw|
    ensures |row| == k
  {
    if k == 0 then []
    else
      var row := Recon(ft, fb, raw, above, k - 1);
      row + [(raw[k - 1] + Predict(ft, Left(row, k - 1, fb), above[k - 1], Left(above, k - 1, fb))) % 256]
  }

  /** Reconstruction undoes filtering. */
  lemma {:induction false} ReconFilter(ft: nat, fb: nat, row: seq<byte>, above: seq<byte>, k: nat)
    requires ft <= PAETH && fb >= 1 && |above| == |row| && k <= |row|
    ensures Recon(ft, fb, Filter(ft, fb, row, above), above, k) == row[..k]
  {
    if k > 0 {
      ReconFilter(ft, fb, row, above, k - 1);
      assert Left(row[..k - 1], k - 1, fb) == Left(row, k - 1, fb);
      AddBack(row[k - 1], Predict(ft, Left(row, k - 1, fb), above[k - 1], Left(above, k - 1, fb)));
      assert row[..k] == row[..k - 1] + [row[k - 1]];
    }
  }

  /** Filtering undoes reconstruction, so that no other row has the same filtered form. */
  lemma FilterRecon(ft: nat, fb: nat, raw: seq<byte>, above: seq<byte>)
    requires ft <= PAETH && fb >= 1 && |above| == |raw|
    ensures Filter(ft, fb, Recon(ft, fb, raw, above, |raw|), above) == raw
  {
    var row := Recon(ft, fb, raw, above, |raw|);
    forall i: nat | i < |raw|
      ensures Filter(ft, fb, row, above)[i] == raw[i]
    {
      ReconAt(ft, fb, raw, above, i, |raw|);
      TakeAway(raw[i], Predict(ft, Left(row, i, fb), above[i], Left(above, i, fb)));
    }
  }

  lemma {:induction false} ReconAt(ft: nat, fb: nat, raw: seq<byte>, above: seq<byte>, i: nat, k: nat)
    requires ft <= PAETH && fb >= 1 && |above| == |raw| && i < k <= |raw|
    ensures var row := Recon(ft, fb, raw, above, k);
            row[i] == (raw[i] + Predict(ft, Left(row, i, fb), above[i], Left(above, i, fb))) % 256
    decreases k
  {
    if i < k - 1 { ReconAt(ft, fb, raw, above, i, k - 1); }
  }

  lemma AddBack(x: byte, p: int)
    ensures ((x - p) % 256 + p) % 256 == x
  {
  }

  lemma TakeAway(x: byte, p: int)
    ensures ((x + p) % 256 - p) % 256 == x
  {
  }

  // ---- Rows without a row above ----

  function Zeros(n: nat): (z: seq<byte>)
    ensures |z| == n
  {
    seq(n, i => 0)
  }

  /** The filter used instead on the first row, so that no row above it is read. */
  function FirstRowFilter(ft: nat): nat
    requires ft <= PAETH
  {
    [NONE, SUB, NONE, AVERAGE_FIRST, SUB][ft]
  }

  /** What the code adds to a byte: `a`, `b` and `c` are the neighbours, 0 outside the row. */
  function Added(filter: nat, a: byte, b: byte, c: byte): int
    requires filter <= AVERAGE_FIRST
  {
    if filter == NONE then 0
    else if filter == SUB then a
    else if filter == UP then b
    else if filter == AVERAGE then (a + b) / 2
    else if filter == PAETH then Paeth(a, b, c)
    else a / 2
  }

  /** `filter` does the work of filter type `ft` below the row `above`. */
  predicate Suits(filter: nat, ft: nat, above: seq<byte>, prior: seq<byte>) {
    && ft <= PAETH && |above| == |prior|
    && ((filter == ft && above == prior) || (filter == FirstRowFilter(ft) && above == Zeros(|prior|)))
  }

  /** The substitution on the first row is the same as a row of zeros above it. */
  lemma SuitsAdds(filter: nat, ft: nat, fb: nat, above: seq<byte>, prior: seq<byte>, k: nat, a: byte)
    requires Suits(filter, ft, above, prior) && k < |prior| && fb >= 1
    ensures filter <= AVERAGE_FIRST
    ensures Added(filter, a, prior[k], Left(prior, k, fb)) == Predict(ft, a, above[k], Left(above, k, fb))
  {
    PaethIsPredictor(a, above[k], Left(above, k, fb));
  }

  // ---- Unfiltering a row in place ----

  /** The row in the working buffer at `cur` has its first `k` bytes reconstructed. */
  ghost predicate Done(buf: array<byte>, cur: nat, ft: nat, fb: nat, raw: seq<byte>, above: seq<byte>, k: nat)
    reads buf
  {
    && ft <= PAETH && fb >= 1 && |above| == |raw| && k <= |raw| && cur + |raw| <= buf.Length
    && buf[cur..cur + k] == Recon(ft, fb, raw, above, k)
  }

  /** The two rows of the working buffer. */
  ghost predicate TwoRows(buf: array<byte>, cur: nat, prior: nat, nk: nat, fb: nat) {
    && (cur + nk <= prior || prior + nk <= cur) && cur + nk <= buf.Length && prior + nk <= buf.Length
    && 1 <= fb <= nk
  }

  method PutByte(buf: array<byte>, cur: nat, k: nat, v: int, filter: nat, ghost ft: nat, fb: nat, raw: seq<byte>,
                 ghost above: seq<byte>, prior: nat)
    requires TwoRows(buf, cur, prior, |raw|, fb) && k < |raw|
    requires Suits(filter, ft, above, buf[prior..prior + |raw|]) && Done(buf, cur, ft, fb, raw, above, k)
    requires filter <= AVERAGE_FIRST
    requires v == if k < fb then Added(filter, 0, buf[prior + k], 0)
                  else Added(filter, buf[cur + k - fb], buf[prior + k], buf[prior + k - fb])
    modifies buf
    ensures Done(buf, cur, ft, fb, raw, above, k + 1)
    ensures forall i :: 0 <= i < buf.Length && i != cur + k ==> buf[i] == old(buf[i])
  {
    ghost var row, p := Recon(ft, fb, raw, above, k), buf[prior..prior + |raw|];
    assert k >= fb ==> row[k - fb] == buf[cur..cur + k][k - fb] && p[k - fb] == buf[prior + k - fb];
    assert p[k] == buf[prior + k];
    SuitsAdds(filter, ft, fb, above, p, k, Left(row, k, fb));
    buf[cur + k] := (raw[k] + v) % 256;
    assert buf[cur..cur + k] == row;
    assert buf[cur..cur + k + 1] == buf[cur..cur + k] + [buf[cur + k]];
  }

  /** What is added to a byte without a left neighbour. */
  function FirstAdded(filter: nat, b: byte): int {
    if filter == AVERAGE then b / 2
    else if filter == UP || filter == PAETH then b
    else 0
  }

  lemma FirstAddedIs(filter: nat, b: byte)
    requires filter <= AVERAGE_FIRST
    ensures FirstAdded(filter, b) == Added(filter, 0, b, 0)
  {
  }

  /**
   * Unfilters one row; `above` is the row above, or zeros on the first row. The choice between the filters is made
   * for each byte here, and once for the row in the source.
   */
  method UnfilterRow(buf: array<byte>, cur: nat, prior: nat, fb: nat, filter: nat, raw: seq<byte>,
                     ghost ft: nat, ghost above: seq<byte>)
    requires TwoRows(buf, cur, prior, |raw|, fb)
    requires Suits(filter, ft, above, buf[prior..prior + |raw|])
    modifies buf
    ensures buf[cur..cur + |raw|] == Recon(ft, fb, raw, above, |raw|)
    ensures forall i :: 0 <= i < buf.Length && !(cur <= i < cur + |raw|) ==> buf[i] == old(buf[i])
  {
    hide Suits, Recon, Added, FirstAdded, Done;
    var nk := |raw|;
    ghost var p := buf[prior..prior + nk];
    SuitsMeans(filter, ft, fb, raw, above, p);
    DoneStart(buf, cur, ft, fb, raw, above);
    for k := 0 to fb
      invariant Done(buf, cur, ft, fb, raw, above, k)
      invariant forall i :: 0 <= i < buf.Length && !(cur <= i < cur + nk) ==> buf[i] == old(buf[i])
      invariant buf[prior..prior + nk] == p
    {
      FirstAddedIs(filter, buf[prior + k]);
      PutByte(buf, cur, k, FirstAdded(filter, buf[prior + k]), filter, ft, fb, raw, above, prior);
    }
    for k := fb to nk
      invariant Done(buf, cur, ft, fb, raw, above, k)
      invariant forall i :: 0 <= i < buf.Length && !(cur <= i < cur + nk) ==> buf[i] == old(buf[i])
      invariant buf[prior..prior + nk] == p
    {
      var v := Added(filter, buf[cur + k - fb], buf[prior + k], buf[prior + k - fb]);
      PutByte(buf, cur, k, v, filter, ft, fb, raw, above, prior);
    }
    DoneEnd(buf, cur, ft, fb, raw, above);
  }

  lemma DoneStart(buf: array<byte>, cur: nat, ft: nat, fb: nat, raw: seq<byte>, above: seq<byte>)
    requires ft <= PAETH && fb >= 1 && |above| == |raw| && cur + |raw| <= buf.Length
    ensures Done(buf, cur, ft, fb, raw, above, 0)
  {
  }

  lemma DoneEnd(buf: array<byte>, cur: nat, ft: nat, fb: nat, raw: seq<byte>, above: seq<byte>)
    requires ft <= PAETH && fb >= 1 && |above| == |raw| && cur + |raw| <= buf.Length
    requires Done(buf, cur, ft, fb, raw, above, |raw|)
    ensures buf[cur..cur + |raw|] == Recon(ft, fb, raw, above, |raw|)
  {
  }

  lemma SuitsMeans(filter: nat, ft: nat, fb: nat, raw: seq<byte>, above: seq<byte>, prior: seq<byte>)
    requires Suits(filter, ft, above, prior) && |raw| == |prior| && fb >= 1
    ensures filter <= AVERAGE_FIRST && ft <= PAETH && |above| == |raw|
    ensures Recon(ft, fb, raw, above, 0) == []
  {
  }
}
