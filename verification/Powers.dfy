/** Powers of two and alignment, shared by the models. */
module Powers {

  const TWO32 := 0x1_0000_0000
  const TWO64 := 0x1_0000_0000_0000_0000

  function Pow2(n: nat): (p: nat)
    ensures 1 <= p
  {
    if n == 0 then 1 else 2 * Pow2(n - 1)
  }

  lemma {:induction false} Pow2Mono(n: nat, m: nat)
    requires n <= m
    ensures 1 <= Pow2(n) <= Pow2(m)
  {
    if n > 0 { Pow2Mono(n - 1, m - 1); }
    else if m > 0 { Pow2Mono(0, m - 1); }
  }

  lemma {:induction false} Pow2Twice(n: nat, m: nat)
    requires n <= 2 * m
    ensures Pow2(n) <= Pow2(m) * Pow2(m)
  {
    if m > 0 {
      Pow2Twice(if n >= 2 then n - 2 else 0, m - 1);
      assert Pow2(m) * Pow2(m) == 4 * (Pow2(m - 1) * Pow2(m - 1));
      if n >= 2 { assert Pow2(n) == 4 * Pow2(n - 2); }
      else { assert Pow2(n) <= 2 * Pow2(0); }
    }
  }

  lemma {:induction false} Pow2Add(n: nat, m: nat)
    ensures Pow2(n + m) == Pow2(n) * Pow2(m)
  {
    if n > 0 {
      Pow2Add(n - 1, m);
      assert 2 * (Pow2(n - 1) * Pow2(m)) == (2 * Pow2(n - 1)) * Pow2(m);
    }
  }

  lemma {:induction false} MulMono(a: nat, b: nat, k: nat)
    requires a <= b
    ensures a * k <= b * k
  {
    if k > 0 {
      MulMono(a, b, k - 1);
      assert a * k == a * (k - 1) + a && b * k == b * (k - 1) + b;
    }
  }

  lemma Associate(x: nat, y: nat, z: nat)
    ensures x * y * z == x * (y * z)
  {
  }

  lemma Commute(x: nat, y: nat)
    ensures x * y == y * x
  {
  }

  lemma OneMore(x: nat, n: nat)
    requires x > 0
    ensures x * n == (x - 1) * n + n
  {
  }

  lemma Distribute(s: nat, j: nat)
    ensures s * (j + 1) == s * j + s
  {
  }

  lemma SquareMono(p: nat, n: nat)
    requires p <= n
    ensures p * p <= n * n
  {
    MulMono(p, n, p);
    MulMono(p, n, n);
    assert n * p == p * n;
  }

  /** Quotient and remainder are unique. */
  lemma DivModIs(x: int, m: nat, q: int, r: nat)
    requires x == q * m + r && r < m
    ensures x / m == q && x % m == r
  {
    var q', r' := x / m, x % m;
    assert x == q' * m + r';
    assert (q - q') * m == r' - r;
    if q > q' {
      assert (q - q') * m >= m by { MulMono(1, q - q', m); }
    } else if q < q' {
      assert (q' - q) * m >= m by { MulMono(1, q' - q, m); }
    }
  }

  /** A multiple of the divisor is divided out. */
  lemma DivSum(q: nat, m: nat, f: nat)
    requires m > 0
    ensures (q * m + f) / m == q + f / m && (q * m + f) % m == f % m
  {
    var d, r := f / m, f % m;
    assert f == d * m + r;
    assert (q + d) * m == q * m + d * m;
    DivModIs(q * m + f, m, q + d, r);
  }

  lemma DivNat(n: nat, d: nat)
    requires d > 0
    ensures n / d >= 0
  {
  }

  /** Where a quotient lies is where the dividend lies. */
  lemma DivBounds(k: nat, p: nat, lo: nat, hi: nat)
    requires p > 0
    ensures lo * p <= k < hi * p <==> lo <= k / p < hi
  {
    var c, r := k / p, k % p;
    assert k == c * p + r;
    assert (c + 1) * p == c * p + p;
    if c < lo { MulMono(c + 1, lo, p); } else { MulMono(lo, c, p); }
    if c < hi { MulMono(c + 1, hi, p); } else { MulMono(hi, c, p); }
  }

  lemma Positive(x: nat, y: nat)
    requires x * y > 0
    ensures x > 0 && y > 0
  {
  }

  lemma Divided(k: nat, n: nat, p: nat) returns (q: nat, r: nat)
    requires k < n * p
    ensures q < n && r < p && k == q * p + r
  {
    Positive(n, p);
    q, r := k / p, k % p;
    DivBounds(k, p, 0, n);
  }

  /** The `k` low bits of `p` are zero. */
  predicate Aligned(p: nat, k: nat) { k == 0 || (p % 2 == 0 && Aligned(p / 2, k - 1)) }

  /** `p` with bit `k` inverted, that is the exclusive or of `p` and 2^k. */
  function FlipBit(p: nat, k: nat): nat {
    if k == 0 then (if p % 2 == 0 then p + 1 else p - 1) else 2 * FlipBit(p / 2, k - 1) + p % 2
  }

  lemma {:induction false} AlignedMod(p: nat, k: nat)
    ensures Aligned(p, k) <==> p % Pow2(k) == 0
  {
    if k > 0 {
      AlignedMod(p / 2, k - 1);
      HalfMod(p, Pow2(k - 1));
    }
  }

  lemma HalfMod(p: nat, m: nat)
    requires m > 0
    ensures p % (2 * m) == 2 * (p / 2 % m) + p % 2
  {
    var q, r := p / 2 / m, p / 2 % m;
    assert p / 2 == q * m + r;
    assert 2 * (q * m) == q * (2 * m);
    DivModIs(p, 2 * m, q, 2 * r + p % 2);
  }

  /** Both halves of an aligned block are aligned blocks. */
  lemma {:induction false} HalvesAligned(p: nat, k: nat)
    requires Aligned(p, k + 1)
    ensures Aligned(p, k) && Aligned(p + Pow2(k), k)
  {
    if k > 0 {
      HalvesAligned(p / 2, k - 1);
      assert (p + Pow2(k)) / 2 == p / 2 + Pow2(k - 1) && (p + Pow2(k)) % 2 == p % 2;
    }
  }

  /** The two halves of a block are what FlipBit exchanges. */
  lemma {:induction false} FlipFacts(p: nat, k: nat)
    requires Aligned(p, k)
    ensures Aligned(FlipBit(p, k), k) && FlipBit(FlipBit(p, k), k) == p
    ensures FlipBit(p, k) == if Aligned(p, k + 1) then p + Pow2(k) else p - Pow2(k)
    ensures !Aligned(p, k + 1) ==> Aligned(FlipBit(p, k), k + 1)
  {
    if k > 0 { FlipFacts(p / 2, k - 1); }
  }

  /** Aligned blocks of one size that meet are the same. */
  lemma {:induction false} SameBlock(a: nat, h: nat, k: nat, x: nat)
    requires Aligned(a, k) && Aligned(h, k)
    requires a <= x < a + Pow2(k) && h <= x < h + Pow2(k)
    ensures a == h
  {
    if k > 0 { SameBlock(a / 2, h / 2, k - 1, x / 2); }
  }

  /** Aligned blocks that meet are nested, the smaller in the larger. */
  lemma {:induction false} Nested(a: nat, i: nat, h: nat, j: nat, x: nat)
    requires i <= j && Aligned(a, i) && Aligned(h, j)
    requires a <= x < a + Pow2(i) && h <= x < h + Pow2(j)
    ensures h <= a && a + Pow2(i) <= h + Pow2(j)
    decreases j - i
  {
    if i == j {
      SameBlock(a, h, i, x);
    } else {
      FlipFacts(a, i);
      Nested(if Aligned(a, i + 1) then a else FlipBit(a, i), i + 1, h, j, x);
    }
  }
}
