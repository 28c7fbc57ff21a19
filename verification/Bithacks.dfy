/** Bit tricks on unsigned machine words of 32 or 64 bits; a word is a number below 2^32 or 2^64. */
module Bithacks {
  import opened Basics
  import opened Powers

  /** a | b */
  function Or(a: nat, b: nat): nat
    decreases a + b
  {
    if a == 0 && b == 0 then 0 else 2 * Or(a / 2, b / 2) + One(a % 2 == 1 || b % 2 == 1)
  }

  /** a & b */
  function And(a: nat, b: nat): nat
  {
    if a == 0 || b == 0 then 0 else 2 * And(a / 2, b / 2) + One(a % 2 == 1 && b % 2 == 1)
  }

  /** One line of the rounding: v |= v >> k. */
  function Fold(v: nat, k: nat): nat { Or(v, Shr(v, k)) }

  /** The middle of roundup_next_power_of_2: the highest bit of v in all places below it. */
  function Smeared(v: nat, wide: bool): nat
  {
    var u := Fold(Fold(Fold(Fold(Fold(v, 1), 2), 4), 8), 16);
    if wide then Fold(u, 32) else u
  }

  /** How many bits a word has. */
  function Width(wide: bool): nat { if wide then 64 else 32 }

  /** roundup_next_power_of_2; the sums wrap around. */
  function RoundUp(v: nat, wide: bool): nat
    requires v < Pow2(Width(wide))
  {
    var m := Pow2(Width(wide));
    Up(Smeared(Down(v, m), wide), m)
  }

  /** v - 1 and v + 1 on words below m; they wrap around. */
  function Down(v: nat, m: nat): nat
    requires v < m
  {
    if v == 0 then m - 1 else v - 1
  }

  function Up(v: nat, m: nat): nat { if v + 1 == m then 0 else v + 1 }

  /** log2_for_power_of_2.  Only the line for 64 bits looks at the upper half of the word. */
  function Log2(v: nat, wide: bool): nat
  {
    var a := One(And(v, 0xAAAA_AAAA) != 0);
    var b := if wide then Or(a, 32 * One(And(v, 0xFFFF_FFFF_0000_0000) != 0)) else a;
    var c := Or(b, 16 * One(And(v, 0xFFFF_0000) != 0));
    var d := Or(c, 8 * One(And(v, 0xFF00_FF00) != 0));
    var e := Or(d, 4 * One(And(v, 0xF0F0_F0F0) != 0));
    Or(e, 2 * One(And(v, 0xCCCC_CCCC) != 0))
  }

  // ---------------------------------------------------------------- rounding up

  lemma {:induction false} OrZero(a: nat)
    ensures Or(a, 0) == a && Or(0, a) == a
  {
    if a > 0 { OrZero(a / 2); }
  }

  /** Or fills the low m bits under n - m ones. */
  lemma {:induction false} OrTop(a: nat, b: nat, m: nat, n: nat)
    requires m <= n && Pow2(n) - Pow2(m) <= a < Pow2(n) && b < Pow2(m)
    ensures Pow2(n) - Pow2(m) + b <= Or(a, b) < Pow2(n)
    decreases m
  {
    if m == 0 {
      OrZero(a);
    } else if a > 0 || b > 0 {
      OrTop(a / 2, b / 2, m - 1, n - 1);
    }
  }

  lemma {:induction false} ShrTop(a: nat, m: nat, n: nat, k: nat)
    requires m <= n && k <= n && Pow2(n) - Pow2(m) <= a < Pow2(n)
    ensures Pow2(n - k) - Pow2(if k <= m then m - k else 0) <= Shr(a, k) < Pow2(n - k)
    decreases k
  {
    if k > 0 {
      if m == 0 {
        ShrTop(a / 2, 0, n - 1, k - 1);
      } else {
        ShrTop(a / 2, m - 1, n - 1, k - 1);
      }
    }
  }

  /** The n bits of v from the highest one on, all but m of them ones: so many more are ones after a fold. */
  lemma {:induction false} FoldTop(v: nat, n: nat, k: nat)
    requires 0 < k <= n && Pow2(n) - Pow2(n - k) <= v < Pow2(n)
    ensures var m := if k <= n - k then n - k - k else 0; Pow2(n) - Pow2(m) <= Fold(v, k) < Pow2(n)
  {
    ShrTop(v, n - k, n, k);
    OrTop(v, Shr(v, k), n - k, n);
  }

  /** All ones stay all ones. */
  lemma {:induction false} FoldOnes(n: nat, k: nat)
    ensures Fold(Pow2(n) - 1, k) == Pow2(n) - 1
  {
    ShrSmaller(Pow2(n) - 1, k);
    OrOnes(n, Shr(Pow2(n) - 1, k));
  }

  lemma {:induction false} ShrSmaller(a: nat, k: nat)
    ensures Shr(a, k) <= a
    decreases k
  {
    if k > 0 { ShrSmaller(a / 2, k - 1); }
  }

  lemma {:induction false} OrHalves(a: nat, b: nat, h: nat)
    requires a == 2 * h + 1
    ensures Or(a, b) == 2 * Or(h, b / 2) + 1
  {
    assert a / 2 == h;
  }

  lemma {:induction false} OrOnes(n: nat, b: nat)
    requires b < Pow2(n)
    ensures Or(Pow2(n) - 1, b) == Pow2(n) - 1
  {
    if n > 0 {
      OrOnes(n - 1, b / 2);
      OrHalves(Pow2(n) - 1, b, Pow2(n - 1) - 1);
    }
  }

  /** One fold, whether or not all bits are ones already: k ones become 2 k. */
  lemma {:induction false} FoldStep(v: nat, n: nat, k: nat)
    requires 0 < k && 0 < n && Pow2(n) - Pow2(if k <= n then n - k else 0) <= v < Pow2(n)
    ensures Pow2(n) - Pow2(if 2 * k <= n then n - 2 * k else 0) <= Fold(v, k) < Pow2(n)
  {
    if k <= n {
      FoldTop(v, n, k);
    } else {
      FoldOnes(n, k);
    }
  }

  /** The smeared word is all ones below the highest bit of v. */
  lemma {:induction false} SmearedIs(v: nat, n: nat, wide: bool)
    requires 0 < n <= Width(wide) && Pow2(n - 1) <= v < Pow2(n)
    ensures Smeared(v, wide) == Pow2(n) - 1
  {
    FoldStep(v, n, 1);
    var a := Fold(v, 1);
    FoldStep(a, n, 2);
    var b := Fold(a, 2);
    FoldStep(b, n, 4);
    var c := Fold(b, 4);
    FoldStep(c, n, 8);
    var d := Fold(c, 8);
    FoldStep(d, n, 16);
    if wide { FoldStep(Fold(d, 16), n, 32); }
  }

  lemma {:induction false} SmearedZero(wide: bool)
    ensures Smeared(0, wide) == 0
  {
    forall k ensures Fold(0, k) == 0 { ShrSmaller(0, k); }
  }

  /** The exponent of the least power of two that is not less than n. */
  function CeilLog2(n: nat): (t: nat)
    ensures Pow2(t) >= n
    ensures t > 0 ==> Pow2(t - 1) < n
  {
    if n <= 1 then 0 else 1 + CeilLog2((n + 1) / 2)
  }

  lemma {:induction false} CeilLog2Least(n: nat, t: nat)
    requires n <= Pow2(t)
    ensures CeilLog2(n) <= t
  {
    var c := CeilLog2(n);
    if c > 0 { Pow2Order(c - 1, t); }
  }

  lemma {:induction false} SmearedLess(v: nat, wide: bool)
    requires 2 <= v < Pow2(Width(wide))
    ensures CeilLog2(v) <= Width(wide) && Smeared(v - 1, wide) == Pow2(CeilLog2(v)) - 1
  {
    CeilLog2Least(v, Width(wide));
    SmearedIs(v - 1, CeilLog2(v), wide);
  }

  /** Which power of two does not fit. */
  lemma {:induction false} CeilLog2Fits(v: nat, w: nat)
    requires 0 < w && v <= Pow2(w)
    ensures CeilLog2(v) <= w && (CeilLog2(v) == w <==> v > Pow2(w - 1))
  {
    CeilLog2Least(v, w);
    if v <= Pow2(w - 1) { CeilLog2Least(v, w - 1); }
    if CeilLog2(v) < w - 1 { Pow2Monotone(CeilLog2(v), w - 1); }
  }

  /** The increment at the end, on words of w bits. */
  lemma {:induction false} Incremented(v: nat, s: nat, w: nat)
    requires 0 < w && v < Pow2(w)
    requires s == if v == 0 then Pow2(w) - 1 else Pow2(CeilLog2(v)) - 1
    ensures Up(s, Pow2(w)) == if v == 0 || v > Pow2(w - 1) then 0 else Pow2(CeilLog2(v))
  {
    CeilLog2Fits(v, w);
    if CeilLog2(v) < w { Pow2Monotone(CeilLog2(v), w); }
  }

  /** The word before it. */
  lemma {:induction false} SmearedBefore(v: nat, wide: bool)
    requires v < Pow2(Width(wide))
    ensures Smeared(Down(v, Pow2(Width(wide))), wide)
         == if v == 0 then Pow2(Width(wide)) - 1 else Pow2(CeilLog2(v)) - 1
  {
    var w := Width(wide);
    if v == 0 {
      SmearedIs(Pow2(w) - 1, w, wide);
    } else if v == 1 {
      SmearedZero(wide);
    } else {
      SmearedLess(v, wide);
    }
  }

  /** The rounding gives that power of two, unless it does not fit a word; then, and for 0, the result is 0. */
  lemma {:induction false} RoundUpIs(v: nat, wide: bool)
    requires v < Pow2(Width(wide))
    ensures RoundUp(v, wide) == if v == 0 || v > Pow2(Width(wide) - 1) then 0 else Pow2(CeilLog2(v))
  {
    var w := Width(wide);
    SmearedBefore(v, wide);
    Incremented(v, Smeared(Down(v, Pow2(w)), wide), w);
  }

  // ---------------------------------------------------------------- the logarithm

  lemma {:induction false} AndBit(k: nat, m: nat)
    ensures And(Pow2(k), m) != 0 <==> Bit(m, k)
  {
    if m == 0 {
      LowSmall(0, k);
    } else if k > 0 {
      AndBit(k - 1, m / 2);
      assert Pow2(k) / 2 == Pow2(k - 1);
    } else {
      assert And(0, m / 2) == 0;
    }
  }

  lemma {:induction false} BitOfSum(hi: nat, lo: nat, n: nat, k: nat)
    requires lo < Pow2(n)
    ensures Bit(Shl(hi, n) + lo, k) <==> if k < n then Bit(lo, k) else Bit(hi, k - n)
    decreases n
  {
    if n > 0 {
      var x := Shl(hi, n) + lo;
      assert x / 2 == Shl(hi, n - 1) + lo / 2 && x % 2 == lo % 2;
      if k > 0 { BitOfSum(hi, lo / 2, n - 1, k - 1); }
    }
  }

  lemma {:induction false} OnesBit(n: nat, k: nat)
    requires k < n
    ensures Bit(Pow2(n) - 1, k)
  {
    if k > 0 {
      OnesBit(n - 1, k - 1);
      assert (Pow2(n) - 1) / 2 == Pow2(n - 1) - 1;
    }
  }

  /** w zeros under w ones. */
  ghost function Block(w: nat): nat { Shl(Pow2(w) - 1, w) }

  lemma {:induction false} BlockBit(w: nat, k: nat)
    requires k < 2 * w
    ensures Bit(Block(w), k) <==> k >= w
  {
    BitOfSum(Pow2(w) - 1, 0, w, k);
    if k < w { LowSmallBit(k); } else { OnesBit(w, k - w); }
  }

  lemma {:induction false} LowSmallBit(k: nat)
    ensures !Bit(0, k)
  {
    LowSmall(0, k);
  }

  lemma {:induction false} BlockSmall(w: nat)
    ensures Block(w) < Pow2(2 * w)
  {
    ShlIsProduct(Pow2(w) - 1, w);
    Pow2Sum(w, w);
    ShlIsProduct(Pow2(w), w);
    assert (Pow2(w) - 1) * Pow2(w) < Pow2(w) * Pow2(w);
  }

  lemma {:induction false} Pow2Sum(a: nat, b: nat)
    ensures Pow2(a + b) == Shl(Pow2(a), b)
  {
    if b > 0 { Pow2Sum(a, b - 1); }
  }

  /** n such blocks. */
  ghost function Blocks(w: nat, n: nat): nat
    decreases n
  {
    if n == 0 then 0 else Shl(Blocks(w, n - 1), 2 * w) + Block(w)
  }

  /** Bit r of block q, which starts at bit p. */
  lemma {:induction false} BlocksBit(w: nat, n: nat, q: nat, p: nat, r: nat)
    requires w > 0 && q < n && r < 2 * w && p == Product(2 * w, q)
    ensures Bit(Blocks(w, n), p + r) <==> r >= w
    decreases q
  {
    BlockSmall(w);
    BitOfSum(Blocks(w, n - 1), Block(w), 2 * w, p + r);
    if q == 0 {
      BlockBit(w, r);
    } else {
      BlocksBit(w, n - 1, q - 1, p - 2 * w, r);
    }
  }

  /** a * q, by addition. */
  ghost function Product(a: nat, q: nat): nat
  {
    if q == 0 then 0 else Product(a, q - 1) + a
  }

  lemma {:induction false} ProductIs(a: nat, q: nat)
    ensures Product(a, q) == a * q
  {
    if q > 0 { ProductIs(a, q - 1); }
  }

  // The masks are made of such blocks.

  function Rep(f: nat, c: nat, n: nat): nat
    decreases n
  {
    if n == 0 then 0 else f * Rep(f, c, n - 1) + c
  }

  lemma {:induction false} BlocksRep(w: nat, n: nat, f: nat, c: nat)
    requires Pow2(2 * w) == f && Block(w) == c
    ensures Blocks(w, n) == Rep(f, c, n)
    decreases n
  {
    if n > 0 {
      BlocksRep(w, n - 1, f, c);
      ShlIsProduct(Blocks(w, n - 1), 2 * w);
      assert Blocks(w, n - 1) * f == f * Rep(f, c, n - 1);
    }
  }

  lemma {:induction false} BlockIs(w: nat, p: nat)
    requires Pow2(w) == p
    ensures Block(w) == (p - 1) * p && Pow2(2 * w) == p * p
  {
    ShlIsProduct(p - 1, w);
    Pow2Sum(w, w);
    ShlIsProduct(p, w);
  }

  lemma {:induction false} Powers16()
    ensures Pow2(8) == 0x100 && Pow2(16) == 0x1_0000 && Pow2(32) == 0x1_0000_0000
  {
    assert Pow2(8) == 0x100;
    BlockIs(8, 0x100);
    BlockIs(16, 0x1_0000);
  }

  lemma {:induction false} MaskA()
    ensures Blocks(1, 16) == 0xAAAA_AAAA
  {
    BlockIs(1, 2);
    BlocksRep(1, 16, 4, 2);
    assert Rep(4, 2, 8) == 0xAAAA;
  }

  lemma {:induction false} MaskC()
    ensures Blocks(2, 8) == 0xCCCC_CCCC
  {
    BlockIs(2, 4);
    BlocksRep(2, 8, 16, 12);
  }

  lemma {:induction false} MaskF()
    ensures Blocks(4, 4) == 0xF0F0_F0F0
  {
    BlockIs(4, 16);
    BlocksRep(4, 4, 0x100, 0xF0);
  }

  lemma {:induction false} MaskFF()
    ensures Blocks(8, 2) == 0xFF00_FF00 && Blocks(16, 1) == 0xFFFF_0000 && Blocks(32, 1) == 0xFFFF_FFFF_0000_0000
  {
    Powers16();
    BlockIs(8, 0x100);
    BlocksRep(8, 2, 0x1_0000, 0xFF00);
    BlockIs(16, 0x1_0000);
    BlocksRep(16, 1, 0x1_0000_0000, 0xFFFF_0000);
    BlockIs(32, 0x1_0000_0000);
    BlocksRep(32, 1, 0x1_0000_0000_0000_0000, 0xFFFF_FFFF_0000_0000);
  }

  /** Whether the mask of blocks of w has bit k is a bit of k. */
  lemma {:induction false} MaskBit(w: nat, n: nat, k: nat)
    requires w > 0 && k < 2 * w * n
    ensures Bit(Blocks(w, n), k) <==> k % (2 * w) >= w
  {
    var q, r := k / (2 * w), k % (2 * w);
    assert k == 2 * w * q + r;
    if q >= n { MulLe(n, q, 2 * w); }
    ProductIs(2 * w, q);
    BlocksBit(w, n, q, 2 * w * q, r);
  }

  // The or of numbers that have no bit in common is their sum.

  lemma {:induction false} OrAdd(x: nat, j: nat)
    requires !Bit(x, j)
    ensures Or(x, Pow2(j)) == x + Pow2(j)
    decreases j
  {
    if j == 0 {
      OrZero(x / 2);
    } else {
      OrAdd(x / 2, j - 1);
      assert Pow2(j) / 2 == Pow2(j - 1);
    }
  }

  /** A flag f at bit j of a number that has bits above and below it only. */
  lemma {:induction false} OrFlag(x: nat, hi: nat, lo: nat, j: nat, f: nat)
    requires x == Shl(hi, j + 1) + lo && lo < Pow2(j) && (f == 0 || f == Pow2(j))
    ensures Or(x, f) == x + f
  {
    BitOfSum(hi, lo, j + 1, j);
    LowSmall(lo, j);
    if f == 0 { OrZero(x); } else { OrAdd(x, j); }
  }

  lemma {:induction false} SmallShifts(h: nat)
    ensures Pow2(1) == 2 && Pow2(2) == 4 && Pow2(3) == 8 && Pow2(4) == 16
    ensures Shl(h, 2) == 4 * h && Shl(h, 3) == 8 * h && Shl(h, 4) == 16 * h
  {
    assert Shl(h, 2) == 2 * Shl(h, 1);
    assert Shl(h, 3) == 2 * Shl(h, 2);
  }

  /** Five flags make up a number of five bits. */
  lemma {:induction false} Flag16(a: nat, f: nat)
    requires a <= 1 && (f == 0 || f == 16)
    ensures Or(a, f) == a + f
  {
    SmallShifts(0);
    ShlZero(5);
    OrFlag(a, 0, a, 4, f);
  }

  lemma {:induction false} Flag8(x: nat, a: nat, h: nat, f: nat)
    requires x == a + 16 * h && a <= 1 && (f == 0 || f == 8)
    ensures Or(x, f) == x + f
  {
    SmallShifts(h);
    OrFlag(x, h, a, 3, f);
  }

  lemma {:induction false} Flag4(x: nat, a: nat, h: nat, f: nat)
    requires x == a + 8 * h && a <= 1 && (f == 0 || f == 4)
    ensures Or(x, f) == x + f
  {
    SmallShifts(h);
    OrFlag(x, h, a, 2, f);
  }

  lemma {:induction false} Flag2(x: nat, a: nat, h: nat, f: nat)
    requires x == a + 4 * h && a <= 1 && (f == 0 || f == 2)
    ensures Or(x, f) == x + f
  {
    SmallShifts(h);
    OrFlag(x, h, a, 1, f);
  }

  lemma {:induction false} FlagChain(a: nat, b: nat, c: nat, d: nat, e: nat, x: nat, y: nat, z: nat, u: nat)
    requires Or(a, e) == x && Or(x, d) == y && Or(y, c) == z && Or(z, b) == u
    ensures Or(Or(Or(Or(a, e), d), c), b) == u
  {
  }

  lemma {:induction false} FiveBits(k: nat)
    requires k < 32
    ensures k == One(k % 2 >= 1) + 2 * One(k % 4 >= 2) + 4 * One(k % 8 >= 4) + 8 * One(k % 16 >= 8)
      + 16 * One(k % 32 >= 16)
  {
  }

  /** Bit k of the masks for the lower half. */
  lemma {:induction false} LowMasks(k: nat)
    requires k < 32
    ensures Bit(0xAAAA_AAAA, k) <==> k % 2 >= 1
    ensures Bit(0xCCCC_CCCC, k) <==> k % 4 >= 2
    ensures Bit(0xF0F0_F0F0, k) <==> k % 8 >= 4
    ensures Bit(0xFF00_FF00, k) <==> k % 16 >= 8
    ensures Bit(0xFFFF_0000, k) <==> k % 32 >= 16
  {
    MaskA();
    MaskC();
    MaskF();
    MaskFF();
    MaskBit(1, 16, k);
    MaskBit(2, 8, k);
    MaskBit(4, 4, k);
    MaskBit(8, 2, k);
    MaskBit(16, 1, k);
  }

  lemma {:induction false} HighMask(k: nat)
    requires k < 64
    ensures Bit(0xFFFF_FFFF_0000_0000, k) <==> k >= 32
  {
    MaskFF();
    MaskBit(32, 1, k);
  }

  lemma {:induction false} NoBitAbove(m: nat, k: nat)
    requires m < 0x1_0000_0000 && k >= 32
    ensures !Bit(m, k)
  {
    Powers16();
    if k > 32 { Pow2Monotone(32, k); }
    LowSmall(m, k);
  }

  /** The logarithm from the bits of the masks. */
  function LogOf(a: bool, b: bool, c: bool, d: bool, e: bool, f: bool): nat
  {
    Or(Or(Or(Or(Or(One(a), 32 * One(f)), 16 * One(e)), 8 * One(d)), 4 * One(c)), 2 * One(b))
  }

  lemma {:induction false} LogOfBits(k: nat, wide: bool)
    requires k < Width(wide)
    ensures Log2(Pow2(k), wide)
         == LogOf(Bit(0xAAAA_AAAA, k), Bit(0xCCCC_CCCC, k), Bit(0xF0F0_F0F0, k), Bit(0xFF00_FF00, k),
                  Bit(0xFFFF_0000, k), k >= 32)
  {
    AndBit(k, 0xAAAA_AAAA);
    AndBit(k, 0xFFFF_FFFF_0000_0000);
    AndBit(k, 0xFFFF_0000);
    AndBit(k, 0xFF00_FF00);
    AndBit(k, 0xF0F0_F0F0);
    AndBit(k, 0xCCCC_CCCC);
    HighMask(k);
    OrZero(One(Bit(0xAAAA_AAAA, k)));
  }

  lemma {:induction false} LogOfLow(a: bool, b: bool, c: bool, d: bool, e: bool)
    ensures LogOf(a, b, c, d, e, false) == One(a) + 2 * One(b) + 4 * One(c) + 8 * One(d) + 16 * One(e)
  {
    OrZero(One(a));
    FlagSum(One(a), 2 * One(b), 4 * One(c), 8 * One(d), 16 * One(e), One(e), 2 * One(e) + One(d),
            4 * One(e) + 2 * One(d) + One(c));
  }

  lemma {:induction false} FlagSum(a: nat, b: nat, c: nat, d: nat, e: nat, h: nat, i: nat, j: nat)
    requires a <= 1 && (b == 0 || b == 2) && (c == 0 || c == 4) && (d == 0 || d == 8) && (e == 0 || e == 16)
    requires 16 * h == e && 8 * i == e + d && 4 * j == e + d + c
    ensures Or(Or(Or(Or(a, e), d), c), b) == a + b + c + d + e
  {
    var x := a + e;
    var y := x + d;
    var z := y + c;
    Flag16(a, e);
    Flag8(x, a, h, d);
    Flag4(y, a, i, c);
    Flag2(z, a, j, b);
    FlagChain(a, b, c, d, e, x, y, z, z + b);
  }

  lemma {:induction false} LogOfHigh()
    ensures LogOf(false, false, false, false, false, true) == 32
  {
    OrZero(32);
    Or32(Or(0, 32), 0);
  }

  lemma {:induction false} Or32(x: nat, f: nat)
    requires x == 32 && f == 0
    ensures Or(Or(Or(Or(x, f), f), f), f) == x
  {
    OrZero(x);
  }

  /** Exactly when the logarithm is right: the low masks do not look at the upper half of a 64-bit word. */
  lemma {:induction false} Log2Is(k: nat, wide: bool)
    requires k < Width(wide)
    ensures Log2(Pow2(k), wide) == if k < 32 then k else 32
    ensures Log2(Pow2(k), wide) == k <==> k <= 32
  {
    LogOfBits(k, wide);
    if k < 32 {
      LowMasks(k);
      LogOfLow(k % 2 >= 1, k % 4 >= 2, k % 8 >= 4, k % 16 >= 8, k % 32 >= 16);
      FiveBits(k);
    } else {
      NoBitAbove(0xAAAA_AAAA, k);
      NoBitAbove(0xCCCC_CCCC, k);
      NoBitAbove(0xF0F0_F0F0, k);
      NoBitAbove(0xFF00_FF00, k);
      NoBitAbove(0xFFFF_0000, k);
      LogOfHigh();
    }
  }
}
