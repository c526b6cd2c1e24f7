/**
 * The C bit operations the driver uses on unsigned values, on natural
 * numbers: `&`, `>>`, `<<`, `__ffs` and the power-of-two test
 * `x & (x - 1)`. For values below 2^64 they are exactly the C results.
 */
module Bits {
  import opened Arith

  function Pow2(k: nat): (p: nat)
    ensures p >= 1
  {
    if k == 0 then 1 else 2 * Pow2(k - 1)
  }

  /** `a & b`, bit by bit from the lowest. */
  function And(a: nat, b: nat): nat
    decreases a
  {
    if a == 0 || b == 0 then 0 else 2 * And(a / 2, b / 2) + (a % 2) * (b % 2)
  }

  /** `x >> k`. */
  function Shr(x: nat, k: nat): nat
  {
    if k == 0 then x else Shr(x / 2, k - 1)
  }

  /** `x << k`, for results that do not overflow. */
  function Shl(x: nat, k: nat): nat
    decreases k
  {
    if k == 0 then x else Shl(2 * x, k - 1)
  }

  /** A power of two. */
  predicate IsPow2(x: nat)
    decreases x
  {
    x == 1 || (x >= 2 && x % 2 == 0 && IsPow2(x / 2))
  }

  /** `__ffs(x)`: the index of the lowest set bit of a non-zero `x`. */
  function Ffs(x: nat): nat
    requires x > 0
    decreases x
  {
    if x % 2 == 1 then 0 else 1 + Ffs(x / 2)
  }

  /** Halving `x` and reassembling it from the halves' quotient and remainder by `p`. */
  lemma HalfSplit(x: nat, p: nat)
    requires p > 0
    ensures x / (2 * p) == (x / 2) / p && x % (2 * p) == 2 * ((x / 2) % p) + x % 2
  {
    var h, q, r := x / 2, (x / 2) / p, (x / 2) % p;
    assert x == 2 * h + x % 2;
    assert h == q * p + r;
    assert 2 * (q * p) == q * (2 * p);
    DivModUnique(x, 2 * p, q, 2 * r + x % 2);
  }

  /** One step of `And`: the low bits multiply, the rest is the halves' `And`. */
  lemma AndStep(a: nat, b: nat)
    requires b > 0
    ensures And(a, b) == 2 * And(a / 2, b / 2) + (a % 2) * (b % 2)
  {
  }

  lemma MaskHalves(p: nat)
    requires p > 0
    ensures (2 * p - 1) / 2 == p - 1 && (2 * p - 1) % 2 == 1
  {
  }

  /** Masking with `2^k - 1` keeps the remainder modulo `2^k`. */
  lemma {:induction false} AndLowMask(x: nat, k: nat)
    ensures And(x, Pow2(k) - 1) == x % Pow2(k)
  {
    if k == 0 {
      assert And(x, 0) == 0;
      DivModUnique(x, 1, x, 0);
    } else if x == 0 {
      DivModUnique(0, Pow2(k), 0, 0);
    } else {
      var p := Pow2(k - 1);
      assert Pow2(k) == 2 * p;
      AndLowMask(x / 2, k - 1);
      AndLowStep(x, p);
    }
  }

  /** The step of AndLowMask: a mask with its low bit set keeps the low bit and the halves' bits. */
  lemma AndLowStep(x: nat, p: nat)
    requires p > 0 && And(x / 2, p - 1) == (x / 2) % p
    ensures And(x, 2 * p - 1) == x % (2 * p)
  {
    var m := 2 * p - 1;
    MaskHalves(p);
    AndStep(x, m);
    assert And(x, m) == 2 * And(x / 2, p - 1) + (x % 2) * 1;
    HalfSplit(x, p);
  }

  /** The complement of `x` in a `w`-bit word (`~x`). */
  function Not(x: nat, w: nat): nat
    requires x < Pow2(w)
  {
    Pow2(w) - 1 - x
  }

  lemma {:induction false} Pow2Le(k: nat, w: nat)
    requires k <= w
    ensures Pow2(k) <= Pow2(w)
  {
    if k < w {
      Pow2Le(k, w - 1);
    }
  }

  /** Masking a number below `2^w` with `~(2^k - 1)` clears its low `k` bits. */
  lemma {:induction false} AndHighMask(x: nat, w: nat, k: nat)
    requires k <= w && x < Pow2(w) && Pow2(k) <= Pow2(w)
    ensures And(x, Not(Pow2(k) - 1, w)) == x - x % Pow2(k)
  {
    if k == 0 {
      AndFullMask(x, w);
    } else if x == 0 {
      AndZero(Not(Pow2(k) - 1, w), Pow2(k));
    } else {
      var p := Pow2(k - 1);
      assert Pow2(k) == 2 * p && Pow2(w) == 2 * Pow2(w - 1);
      Pow2Le(k - 1, w - 1);
      var h := Not(p - 1, w - 1);
      assert Not(Pow2(k) - 1, w) == 2 * h;
      if h == 0 {
        AndHighTop(x, p);
      } else {
        AndHighMask(x / 2, w - 1, k - 1);
        AndHighStep(x, p, h);
      }
    }
  }

  lemma AndZero(m: nat, q: nat)
    requires q > 0
    ensures And(0, m) == 0 - 0 % q
  {
    DivModUnique(0, q, 0, 0);
  }

  /** With `k = 0` the mask is all ones. */
  lemma AndFullMask(x: nat, w: nat)
    requires x < Pow2(w)
    ensures And(x, Not(Pow2(0) - 1, w)) == x - x % Pow2(0)
  {
    AndLowMask(x, w);
    ModSmall(x, Pow2(w));
    DivModUnique(x, 1, x, 0);
  }

  /** With `k = w` the mask is empty and so is every number's high part. */
  lemma AndHighTop(x: nat, p: nat)
    requires p > 0 && x < 2 * p
    ensures And(x, 2 * 0) == x - x % (2 * p)
  {
    ModSmall(x, 2 * p);
  }

  /** The step of AndHighMask: a mask with a clear low bit keeps the halves' masked bits, doubled. */
  lemma AndHighStep(x: nat, p: nat, h: nat)
    requires p > 0 && h > 0 && And(x / 2, h) == x / 2 - (x / 2) % p
    ensures And(x, 2 * h) == x - x % (2 * p)
  {
    var m := 2 * h;
    assert m / 2 == h && m % 2 == 0;
    AndStep(x, m);
    HalfSplit(x, p);
    assert x == 2 * (x / 2) + x % 2;
  }

  /** Shifting right by `k` divides by `2^k`. */
  lemma {:induction false} ShrDiv(x: nat, k: nat)
    ensures Shr(x, k) == x / Pow2(k)
  {
    if k > 0 {
      ShrDiv(x / 2, k - 1);
      HalfSplit(x, Pow2(k - 1));
    }
  }

  /** Shifting left by `k` multiplies by `2^k`. */
  lemma {:induction false} ShlMul(x: nat, k: nat)
    ensures Shl(x, k) == x * Pow2(k)
    decreases k
  {
    if k > 0 {
      ShlMul(2 * x, k - 1);
      assert (2 * x) * Pow2(k - 1) == x * (2 * Pow2(k - 1));
    }
  }

  /** A number and itself have all their bits in common. */
  lemma {:induction false} AndSelf(x: nat)
    ensures And(x, x) == x
  {
    if x > 0 {
      AndSelf(x / 2);
      assert (x % 2) * (x % 2) == x % 2;
    }
  }

  /** `x & (x - 1)` is zero exactly for the powers of two (for `x > 0`). */
  lemma {:induction false} PowerOfTwoTest(x: nat)
    requires x > 0
    ensures And(x, x - 1) == 0 <==> IsPow2(x)
  {
    if x == 1 {
      assert And(1, 0) == 0;
    } else if x % 2 == 0 {
      assert (x - 1) / 2 == x / 2 - 1 && (x - 1) % 2 == 1;
      PowerOfTwoTest(x / 2);
    } else {
      assert (x - 1) / 2 == x / 2 && (x - 1) % 2 == 0;
      AndSelf(x / 2);
      assert !IsPow2(x);
    }
  }

  /** A power of two is 2 to the index of its only set bit. */
  lemma {:induction false} FfsPow2(x: nat)
    requires x > 0 && IsPow2(x)
    ensures Pow2(Ffs(x)) == x
  {
    if x != 1 {
      FfsPow2(x / 2);
    }
  }

  /** Every `2^k` passes the power-of-two test and has `k` as its lowest set bit. */
  lemma {:induction false} Pow2Ffs(k: nat)
    ensures IsPow2(Pow2(k)) && Ffs(Pow2(k)) == k
  {
    if k > 0 {
      Pow2Ffs(k - 1);
      assert Pow2(k) / 2 == Pow2(k - 1) && Pow2(k) % 2 == 0;
    }
  }

  lemma Pow2Add(a: nat, b: nat)
    ensures Pow2(a + b) == Pow2(a) * Pow2(b)
    decreases a
  {
    if a > 0 {
      Pow2Add(a - 1, b);
    }
  }

  /** The width of `sector_t`. */
  lemma Pow2Of64()
    ensures Pow2(64) == 0x1_0000_0000_0000_0000
  {
    assert Pow2(8) == 256;
    Pow2Add(8, 8);
    Pow2Add(16, 16);
    Pow2Add(32, 32);
  }
}
