/** Powers of two, shifts by them and the low bits of a number, by recursion on the number of bits. */
module Powers {

  function Pow2(k: nat): (r: nat)
    ensures r >= 1
  {
    if k == 0 then 1 else 2 * Pow2(k - 1)
  }

  /** x << k */
  function Shl(x: nat, k: nat): nat
  {
    if k == 0 then x else 2 * Shl(x, k - 1)
  }

  /** x >> k */
  function Shr(x: nat, k: nat): nat
    decreases k
  {
    if k == 0 then x else Shr(x / 2, k - 1)
  }

  /** Bit i of x. */
  predicate Bit(x: nat, i: nat)
    decreases i
  {
    if i == 0 then x % 2 == 1 else Bit(x / 2, i - 1)
  }

  /** The number made of the low k bits of x. */
  function Low(x: nat, k: nat): nat
    decreases k
  {
    if k == 0 then 0 else 2 * Low(x / 2, k - 1) + x % 2
  }

  /** x is a multiple of 2^k. */
  predicate Aligned(x: nat, k: nat) { Low(x, k) == 0 }

  lemma {:induction false} Pow2Step(k: nat)
    ensures Pow2(k + 1) == 2 * Pow2(k)
  {
  }

  lemma {:induction false} Pow2Monotone(a: nat, b: nat)
    requires a < b
    ensures 2 * Pow2(a) <= Pow2(b)
    decreases b
  {
    if a + 1 < b {
      Pow2Monotone(a, b - 1);
    }
  }

  lemma {:induction false} Pow2Order(a: nat, b: nat)
    requires Pow2(a) < Pow2(b)
    ensures a < b
  {
    if b < a { Pow2Monotone(b, a); }
  }

  // ---------------------------------------------------------------- shifts

  lemma {:induction false} ShlChild(q: nat, k: nat)
    ensures Shl(2 * q, k) == 2 * Shl(q, k)
    ensures Shl(2 * q + 1, k) == 2 * Shl(q, k) + Pow2(k)
  {
    if k > 0 {
      ShlChild(q, k - 1);
    }
  }

  lemma {:induction false} ShlZero(k: nat)
    ensures Shl(0, k) == 0
  {
    if k > 0 { ShlZero(k - 1); }
  }

  lemma {:induction false} ShlOrder(a: nat, b: nat, k: nat)
    requires Shl(a, k) < Shl(b, k)
    ensures a < b
  {
    if k > 0 { ShlOrder(a, b, k - 1); }
  }

  lemma {:induction false} ShrShl(x: nat, k: nat)
    ensures Shr(Shl(x, k), k) == x && Aligned(Shl(x, k), k)
  {
    if k > 0 {
      ShrShl(x, k - 1);
      assert Shl(x, k) / 2 == Shl(x, k - 1);
    }
  }

  lemma {:induction false} ShlShr(x: nat, k: nat)
    ensures Shl(Shr(x, k), k) + Low(x, k) == x
    decreases k
  {
    if k > 0 {
      ShlShr(x / 2, k - 1);
    }
  }

  lemma {:induction false} ShrBound(x: nat, k: nat, h: nat)
    requires k <= h && x < Pow2(h)
    ensures Shr(x, k) < Pow2(h - k)
    decreases k
  {
    if k > 0 {
      ShrBound(x / 2, k - 1, h - 1);
    }
  }

  // ---------------------------------------------------------------- low bits

  lemma {:induction false} LowStep(x: nat, k: nat)
    ensures Low(x, k + 1) == Low(x, k) + if Bit(x, k) then Pow2(k) else 0
    decreases k
  {
    if k > 0 {
      LowStep(x / 2, k - 1);
    }
  }

  lemma {:induction false} LowSmall(x: nat, k: nat)
    requires x < Pow2(k)
    ensures Low(x, k) == x && !Bit(x, k)
    decreases k
  {
    if k > 0 {
      LowSmall(x / 2, k - 1);
    }
  }

  lemma {:induction false} LowPow(k: nat)
    ensures Low(Pow2(k), k) == 0 && Bit(Pow2(k), k)
  {
    if k > 0 {
      LowPow(k - 1);
      assert Pow2(k) / 2 == Pow2(k - 1);
    }
  }

  lemma {:induction false} LowZero(x: nat, m: nat, j: nat)
    requires j <= m && Low(x, m) == 0
    ensures Low(x, j) == 0
    decreases m
  {
    if j < m {
      LowStep(x, m - 1);
      LowZero(x, m - 1, j);
    }
  }

  lemma {:induction false} AlignedPlus(x: nat, k: nat)
    requires Aligned(x, k)
    ensures Aligned(x + Pow2(k), k)
    decreases k
  {
    if k > 0 {
      AlignedPlus(x / 2, k - 1);
      assert (x + Pow2(k)) / 2 == x / 2 + Pow2(k - 1);
    }
  }

  /** The next multiple of 2^m is at least 2^m away. */
  lemma {:induction false} AlignedClose(x: nat, t: nat, m: nat)
    requires m <= t && Low(x, m) == 0 && x <= Pow2(t) < x + Pow2(m)
    ensures x == Pow2(t)
    decreases m
  {
    if m > 0 {
      AlignedClose(x / 2, t - 1, m - 1);
    }
  }

  // ---------------------------------------------------------------- the same in terms of division

  lemma {:induction false} LowIsRemainder(x: nat, k: nat)
    ensures Low(x, k) == x % Pow2(k)
  {
    ShlShr(x, k);
    ShlIsProduct(Shr(x, k), k);
    LowBound(x, k);
    RemainderUnique(x, Pow2(k), Shr(x, k), Low(x, k));
  }

  lemma {:induction false} LowBound(x: nat, k: nat)
    ensures Low(x, k) < Pow2(k)
    decreases k
  {
    if k > 0 { LowBound(x / 2, k - 1); }
  }

  lemma {:induction false} ShlIsProduct(x: nat, k: nat)
    ensures Shl(x, k) == x * Pow2(k)
  {
    if k > 0 {
      ShlIsProduct(x, k - 1);
      assert 2 * (x * Pow2(k - 1)) == x * (2 * Pow2(k - 1));
    }
  }

  lemma {:induction false} MulLe(a: int, b: int, k: nat)
    requires a <= b
    ensures a * k <= b * k
  {
  }

  lemma {:induction false} RemainderUnique(x: nat, k: nat, q: nat, r: nat)
    requires k > 0 && x == q * k + r && r < k
    ensures x % k == r
  {
    var p := x / k;
    assert x == p * k + x % k;
    if q < p {
      MulLe(q + 1, p, k);
    } else if p < q {
      MulLe(p + 1, q, k);
    }
  }
}
