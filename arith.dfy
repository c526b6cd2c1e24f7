/** Facts about Euclidean division that the placement proofs use. */
module Arith {
  /**
   * Quotient and remainder of unsigned division (`sector_div` and the C
   * operators on unsigned values). Keeping them behind function names
   * keeps the solver from expanding every product in a placement formula.
   */
  function Div(x: nat, d: nat): nat
    requires d > 0
  {
    x / d
  }

  function Mul(a: nat, b: nat): nat
  {
    a * b
  }

  function Mod(x: int, d: nat): (r: nat)
    requires d > 0
    ensures r < d
  {
    x % d
  }

  lemma MulAtLeast(a: int, n: nat)
    requires a >= 1
    ensures a * n >= n
  {
  }

  lemma MulStrict(a: nat, b: nat, c: nat)
    requires a < b && c > 0
    ensures a * c < b * c
  {
    MulAtLeast(b - a, c);
  }

  /** Division and remainder are determined by any decomposition `x = q * n + r`, `0 <= r < n`. */
  lemma DivModUnique(x: int, n: nat, q: int, r: int)
    requires 0 < n && 0 <= r < n && x == q * n + r
    ensures x / n == q && x % n == r
  {
    var q', r' := x / n, x % n;
    assert (q - q') * n == r' - r;
    if q > q' {
      MulAtLeast(q - q', n);
    } else if q < q' {
      MulAtLeast(q' - q, n);
    }
  }

  /** Two numbers less than `n` apart have different remainders. */
  lemma SameRemainder(x: nat, y: nat, n: nat)
    requires 0 < n && y < x < y + n
    ensures x % n != y % n
  {
    if x % n == y % n {
      var d, r := x / n - y / n, x % n;
      assert x == (x / n) * n + r && y == (y / n) * n + r;
      assert x - y == d * n;
      if d >= 1 { MulAtLeast(d, n); }
    }
  }

  /** A value below the divisor is its own remainder. */
  lemma ModSmall(x: nat, n: nat)
    requires x < n
    ensures x % n == x && x / n == 0
  {
    DivModUnique(x, n, 0, x);
  }

  /** Adding `k` to `x` moves its remainder by `k` while it stays below `n`, and wraps once otherwise. */
  lemma ModAdd(x: nat, k: nat, n: nat)
    requires 0 < n && k < n
    ensures x % n + k < n ==> (x + k) % n == x % n + k && (x + k) / n == x / n
    ensures x % n + k >= n ==> (x + k) % n == x % n + k - n && (x + k) / n == x / n + 1
  {
    var q, r := x / n, x % n;
    assert x == q * n + r;
    if r + k < n {
      DivModUnique(x + k, n, q, r + k);
    } else {
      assert x + k == (q + 1) * n + (r + k - n);
      DivModUnique(x + k, n, q + 1, r + k - n);
    }
  }

  /** The remainder of the successor, as the recovery loops step through the devices. */
  lemma ModSucc(x: nat, n: nat)
    requires 0 < n
    ensures (x + 1) % n == (x % n + 1) % n
  {
    if n == 1 {
      DivModUnique(x + 1, 1, x + 1, 0);
      DivModUnique(x % n + 1, 1, x % n + 1, 0);
    } else {
      ModAdd(x, 1, n);
      if x % n + 1 < n { ModSmall(x % n + 1, n); } else { DivModUnique(n, n, 1, 0); }
    }
  }

  /** Row-major numbering `d + b * n` with `d < n` is one-to-one. */
  lemma RowMajorInjective(b1: nat, d1: nat, b2: nat, d2: nat, n: nat)
    requires d1 < n && d2 < n && (b1 != b2 || d1 != d2)
    ensures d1 + b1 * n != d2 + b2 * n
  {
    if d1 + b1 * n == d2 + b2 * n {
      DivModUnique(d1 + b1 * n, n, b1, d1);
      DivModUnique(d2 + b2 * n, n, b2, d2);
    }
  }

  /** Reducing before adding does not change the remainder. */
  lemma ModAddMod(x: nat, k: nat, n: nat)
    requires 0 < n
    ensures (x % n + k) % n == (x + k) % n
  {
    var q, r := x / n, x % n;
    var q', r' := (r + k) / n, (r + k) % n;
    assert x + k == (q + q') * n + r';
    DivModUnique(x + k, n, q + q', r');
  }

  /** Distinct offsets below `n` from the same start reach distinct remainders. */
  lemma ModInjective(start: nat, a: nat, b: nat, n: nat)
    requires 0 < n && a < n && b < n && a != b
    ensures (start + a) % n != (start + b) % n
  {
    if a < b { SameRemainder(start + b, start + a, n); } else { SameRemainder(start + a, start + b, n); }
  }

  /** Distributivity, for rows of `width` lanes followed by `extra` more. */
  lemma Distribute(lane: nat, width: nat, extra: nat)
    ensures lane * width + extra * lane == lane * (width + extra)
  {
  }

  /** Adding the offset within the chunk to a chunk boundary keeps that offset. */
  lemma OffsetKept(row: nat, chunk: nat, sector: nat)
    requires chunk > 0
    ensures (row * chunk + sector % chunk) % chunk == sector % chunk
    ensures (row * chunk + sector % chunk) / chunk == row
  {
    DivModUnique(row * chunk + sector % chunk, chunk, row, sector % chunk);
  }

  /** A number is its quotient times the divisor plus its remainder. */
  lemma DivModSplit(x: nat, d: nat)
    requires d > 0
    ensures x == Mul(Div(x, d), d) + Mod(x, d)
  {
  }

  lemma MulLe(a: nat, b: nat, c: nat)
    requires a <= b
    ensures a * c <= b * c
  {
    if a < b && c > 0 { MulStrict(a, b, c); }
  }

  lemma DivMonotone(a: nat, b: nat, d: nat)
    requires a <= b && d > 0
    ensures Div(a, d) <= Div(b, d)
  {
    if Div(a, d) > Div(b, d) {
      MulLe(Div(b, d) + 1, Div(a, d), d);
      assert (Div(b, d) + 1) * d == Div(b, d) * d + d;
      DivModSplit(a, d);
      DivModSplit(b, d);
    }
  }

  lemma ModOrder(a: nat, b: nat, d: nat)
    requires a < b && d > 0 && Div(a, d) == Div(b, d)
    ensures Mod(a, d) < Mod(b, d)
  {
    DivModSplit(a, d);
    DivModSplit(b, d);
  }

  /** An entry of a row lies before every entry of any later row. */
  lemma RowBefore(q1: nat, q2: nat, w: nat, x: nat)
    requires q1 < q2 && x < w
    ensures Mul(q1, w) + x < Mul(q2, w)
  {
    MulLe(q1 + 1, q2, w);
    assert (q1 + 1) * w == q1 * w + w;
  }

  /** A lane `x - n` lanes after the start of row `block` sits on device `x mod n`. */
  lemma RowsAway(empty: nat, x: nat, block: nat, n: nat)
    requires n > 0 && empty + n == block * n + x
    ensures empty % n == x % n
  {
    var q, r := x / n, x % n;
    assert empty == (block + q - 1) * n + r;
    DivModUnique(empty, n, block + q - 1, r);
  }
}
