/** Images and rows as byte strings: pixel `k` of `ob` bytes. */
module Pixels {
  import opened Bits
  import opened Powers

  function Pixel(img: seq<byte>, k: nat, ob: nat): seq<byte> {
    if k * ob + ob <= |img| then img[k * ob..k * ob + ob] else []
  }

  /** Where pixel `k` begins. */
  function ByteAt(k: nat, ob: nat): nat { k * ob }

  lemma PixelInside(k: nat, count: nat, ob: nat)
    requires k < count
    ensures k * ob + ob <= count * ob
  {
    MulMono(k + 1, count, ob);
    OneMore(k + 1, ob);
  }

  lemma PixelSlice(s: seq<byte>, k: nat, ob: nat)
    requires k * ob + ob <= |s|
    ensures Pixel(s, k, ob) == s[k * ob..k * ob + ob]
  {
  }

  lemma ByteOfPixel(a: seq<byte>, k: nat, ob: nat, m: nat)
    requires k * ob + ob <= |a| && m < ob
    ensures |Pixel(a, k, ob)| == ob && a[k * ob + m] == Pixel(a, k, ob)[m]
  {
  }

  lemma PixelOfFirst(a: seq<byte>, b: seq<byte>, k: nat, ob: nat)
    requires k * ob + ob <= |a|
    ensures Pixel(a + b, k, ob) == Pixel(a, k, ob)
  {
    SliceOfFirst(a, b, k * ob, k * ob + ob);
  }

  lemma PixelOfSecond(a: seq<byte>, b: seq<byte>, n: nat, i: nat, ob: nat)
    requires |a| == n * ob && i * ob + ob <= |b|
    ensures Pixel(a + b, n + i, ob) == Pixel(b, i, ob)
  {
    assert (n + i) * ob == |a| + i * ob;
  }

  /** Appending a pixel to `n` pixels. */
  lemma LastPixel(s: seq<byte>, px: seq<byte>, n: nat, ob: nat)
    requires |s| == n * ob && |px| == ob
    ensures Pixel(s + px, n, ob) == px
    ensures forall i: nat :: i < n ==> Pixel(s + px, i, ob) == Pixel(s, i, ob)
  {
    forall i: nat | i < n
      ensures Pixel(s + px, i, ob) == Pixel(s, i, ob)
    {
      PixelInside(i, n, ob);
      PixelOfFirst(s, px, i, ob);
    }
  }

  lemma SliceOfFirst(a: seq<byte>, b: seq<byte>, lo: nat, hi: nat)
    requires lo <= hi <= |a|
    ensures (a + b)[lo..hi] == a[lo..hi]
  {
  }

  /** A slice of a slice is a slice. */
  lemma SubSlice(s: seq<byte>, from: nat, part: seq<byte>, lo: nat, hi: nat)
    requires from + |part| <= |s| && s[from..from + |part|] == part && lo <= hi <= |part|
    ensures s[from + lo..from + hi] == part[lo..hi]
  {
    forall i: nat | i < hi - lo
      ensures s[from + lo..from + hi][i] == part[lo..hi][i]
    {
      assert s[from..from + |part|][lo + i] == part[lo + i];
    }
  }

  /** A pixel of a row is a pixel of the image. */
  lemma InnerPixel(img: seq<byte>, r: nat, w: nat, c: nat, ob: nat, k: nat)
    requires r * w + w <= |img| && c * ob + ob <= w && k * ob == r * w + c * ob
    ensures |Pixel(img, r, w)| == w
    ensures Pixel(Pixel(img, r, w), c, ob) == Pixel(img, k, ob) == Pixel(img, r, w)[c * ob..c * ob + ob]
  {
    hide Pixel;
    PixelSlice(img, r, w);
    PixelSlice(Pixel(img, r, w), c, ob);
    PixelSlice(img, k, ob);
    SubSlice(img, r * w, Pixel(img, r, w), c * ob, c * ob + ob);
  }
}
