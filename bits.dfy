/**
 * Unsigned 64-bit (size_t) arithmetic needed by the buffer: powers of two,
 * the word size, bitwise AND on naturals, and the fact that AND-ing with
 * ~(2^k - 1) clears the k low bits, i.e. rounds down to a multiple of 2^k.
 */
module Bits {

  function Pow2(k: nat): (r: nat)
    ensures r >= 1
  {
    if k == 0 then 1 else 2 * Pow2(k - 1)
  }

  /** Width of a size_t in bits. */
  const WordBits: nat := 64

  /** Number of distinct size_t values: size_t arithmetic is modulo Word. */
  const Word: nat := Pow2(WordBits)

  /** `p` is a multiple of `a` (an address or a size aligned to `a`). */
  predicate IsAligned(p: nat, a: nat)
    requires a >= 1
  {
    p % a == 0
  }

  /** Bitwise AND of two naturals, bit by bit from the least significant one. */
  function And(x: nat, y: nat): nat
    decreases x
  {
    if x == 0 || y == 0 then 0
    else 2 * And(x / 2, y / 2) + (if x % 2 == 1 && y % 2 == 1 then 1 else 0)
  }

  lemma {:induction false} Pow2Monotonic(k: nat, w: nat)
    requires k <= w
    ensures Pow2(k) <= Pow2(w)
    ensures k < w ==> Pow2(k) < Pow2(w)
  {
    if k < w {
      Pow2Monotonic(k, w - 1);
    }
  }

  lemma {:induction false} Pow2Add(k: nat, j: nat)
    ensures Pow2(k + j) == Pow2(k) * Pow2(j)
  {
    if j > 0 {
      Pow2Add(k, j - 1);
      assert Pow2(k + j) == 2 * (Pow2(k) * Pow2(j - 1));
    }
  }

  /** An address aligned to a power of two is aligned to every smaller power of two. */
  lemma AlignedToSmallerPower(p: nat, k: nat, m: nat)
    requires Pow2(k) <= Pow2(m) && IsAligned(p, Pow2(m))
    ensures IsAligned(p, Pow2(k))
  {
    if k > m {
      Pow2Monotonic(m, k);
      assert false;
    }
    Pow2Add(k, m - k);
    MultipleOfFactor(p, Pow2(k), Pow2(m - k));
  }

  /** A multiple of a * b is a multiple of a. */
  lemma MultipleOfFactor(p: nat, a: nat, b: nat)
    requires a >= 1 && b >= 1 && IsAligned(p, a * b)
    ensures IsAligned(p, a)
  {
    var j := p / (a * b);
    assert p == (a * b) * j;
    assert p == a * (b * j);
    DivModUnique(p, a, b * j, 0);
  }

  lemma MulAtLeast(d: int, n: int)
    requires d > 0 && n >= 1
    ensures d * n >= d
  {
  }

  lemma MulLessCancel(d: int, m: int, n: int)
    requires d > 0 && d * m < d * n
    ensures m < n
  {
    if m >= n {
      assert d * m - d * n == d * (m - n);
      MulAtLeast(d, m - n + 1);
    }
  }

  lemma MulMonotonic(d: nat, m: int, n: int)
    requires m <= n
    ensures d * m <= d * n
  {
    assert d * n - d * m == d * (n - m);
  }

  lemma DivModUnique(x: int, d: int, q: int, r: int)
    requires d > 0 && 0 <= r < d && x == d * q + r
    ensures x / d == q && x % d == r
  {
    var q', r' := x / d, x % d;
    assert x == d * q' + r' && 0 <= r' < d;
    if q' < q {
      assert d * (q - q') == d * q - d * q';
      MulAtLeast(d, q - q');
    } else if q' > q {
      assert d * (q' - q) == d * q' - d * q;
      MulAtLeast(d, q' - q);
    }
  }

  /** Rounding x down to a multiple of d removes the remainder only. */
  lemma RoundDown(x: nat, d: nat)
    requires d >= 1
    ensures x - x % d == d * (x / d) == (x / d) * d
    ensures IsAligned(x - x % d, d)
    ensures x - d < x - x % d <= x
  {
    DivModUnique(x - x % d, d, x / d, 0);
  }

  /** On a 64-bit word that did not wrap, `x & ~(2^k - 1)` rounds x down to a multiple of 2^k. */
  lemma WordMaskRoundsDown(x: nat, k: nat)
    requires k < WordBits && x < Word
    ensures Pow2(k) < Word
    ensures And(x % Word, Word - Pow2(k)) == x - x % Pow2(k)
  {
    Pow2Monotonic(k, WordBits);
    DivModUnique(x, Word, 0, x);
    AndMask(x, WordBits, k);
  }

  /**
   * `(n + (a - 1)) & ~(a - 1)` over 64-bit words, for `a = 2^k` and a sum that
   * does not wrap, is `n` rounded up to the next multiple of `a`.
   */
  lemma MaskedRoundUp(n: nat, k: nat)
    requires k < WordBits && n + Pow2(k) - 1 < Word
    ensures Pow2(k) < Word
    ensures var a := Pow2(k);
            var r := And((n + (a - 1)) % Word, Word - a);
            && r == ((n + a - 1) / a) * a
            && IsAligned(r, a)
            && n <= r < n + a
  {
    var a := Pow2(k);
    var x := n + (a - 1);
    WordMaskRoundsDown(x, k);
    RoundDown(x, a);
  }

  /** Rounding up a multiple of `2^k` with the mask leaves it unchanged. */
  lemma MaskedRoundUpOfAligned(n: nat, k: nat)
    requires k < WordBits && n + Pow2(k) - 1 < Word && IsAligned(n, Pow2(k))
    ensures Pow2(k) < Word && And((n + (Pow2(k) - 1)) % Word, Word - Pow2(k)) == n
  {
    var a := Pow2(k);
    MaskedRoundUp(n, k);
    RoundDown(n, a);
    DivModUnique(n + a - 1, a, n / a, a - 1);
  }

  /** A multiple of a multiple of d is a multiple of d. */
  lemma MultipleOfMultiple(n: nat, m: nat, d: nat)
    requires d >= 1 && IsAligned(m, d)
    ensures n * m == d * (n * (m / d))
  {
    var j := m / d;
    assert m == d * j;
    calc {
      n * m;
      n * (d * j);
      d * (n * j);
    }
  }

  /** The k+1 low bits of x are the k low bits of x / 2, shifted, plus bit 0 of x. */
  lemma ModDouble(x: nat, p: nat)
    requires p >= 1
    ensures x % (2 * p) == 2 * ((x / 2) % p) + x % 2
  {
    var q, b := x / 2, x % 2;
    var t, u := q / p, q % p;
    assert x == (2 * p) * t + (2 * u + b) by {
      assert q == p * t + u;
      assert x == 2 * q + b;
    }
    DivModUnique(x, 2 * p, t, 2 * u + b);
  }

  /**
   * For x below 2^w, x & (2^w - 2^k) -- x with every bit from k up to w - 1
   * kept -- is x rounded down to a multiple of 2^k.
   */
  lemma {:induction false} AndMask(x: nat, w: nat, k: nat)
    requires k <= w && x < Pow2(w)
    ensures Pow2(k) <= Pow2(w) && And(x, Pow2(w) - Pow2(k)) == x - x % Pow2(k)
  {
    Pow2Monotonic(k, w);
    var m := Pow2(w) - Pow2(k);
    if x == 0 {
    } else if k == w {
      DivModUnique(x, Pow2(k), 0, x);
    } else {
      assert m > 0;
      assert x / 2 < Pow2(w - 1);
      if k == 0 {
        AndMask(x / 2, w - 1, 0);
        DivModUnique(m, 2, Pow2(w - 1) - 1, 1);
        assert And(x / 2, m / 2) == x / 2;
        assert And(x, m) == 2 * (x / 2) + x % 2;
      } else {
        AndMask(x / 2, w - 1, k - 1);
        DivModUnique(m, 2, Pow2(w - 1) - Pow2(k - 1), 0);
        ModDouble(x, Pow2(k - 1));
        assert And(x, m) == 2 * (x / 2 - (x / 2) % Pow2(k - 1));
      }
    }
  }
}
