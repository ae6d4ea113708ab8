/** Facts about products, quotients and remainders, each small enough to be
    used without exposing the solver to non-linear terms. */
module Arithmetic {
  // One more than the largest `unsigned int`.
  const WORD: nat := 0x1_0000_0000

  lemma MulMono(a: int, b: int, d: int)
    requires a < b && d > 0
    ensures a * d + d <= b * d
  {
    MulNonNegative(b - a - 1, d);
  }

  lemma MulNonNegative(a: int, d: int)
    requires a >= 0 && d > 0
    ensures a * d >= 0
  {
  }

  /** Quotient and remainder are determined by the division equation. */
  lemma DivMod(x: int, d: int, q: int, r: int)
    requires d > 0 && 0 <= r < d && x == q * d + r
    ensures x / d == q && x % d == r
  {
    if q < x / d {
      MulMono(q, x / d, d);
    } else if x / d < q {
      MulMono(x / d, q, d);
    }
  }

  lemma Euclid(x: int, d: int) returns (q: int, r: int)
    requires d > 0
    ensures x == q * d + r && 0 <= r < d
    ensures x / d == q && x % d == r
    ensures x >= 0 ==> q >= 0
  {
    q, r := x / d, x % d;
  }

  lemma ModPlus(x: int, step: int, size: int)
    requires size > 0
    ensures (x % size + step) % size == (x + step) % size
  {
    var q, r := Euclid(x, size);
    var q', r' := Euclid(r + step, size);
    DivMod(x + step, size, q + q', r');
  }

  /** Reducing modulo a multiple of the size first changes nothing. */
  lemma ModOfMultiple(x: nat, size: nat, w: nat)
    requires size > 0 && w > 0 && w % size == 0
    ensures (x % w) % size == x % size
  {
    var a, z := Euclid(w, size);
    var q, r := Euclid(x, w);
    var c, e := Euclid(r, size);
    assert q * w == q * a * size;
    DivMod(x, size, q * a + c, e);
  }

  lemma HalveBoth(n: nat, e: nat)
    requires e > 0 && e % 2 == 0
    ensures (n / 2) / (e / 2) == n / e
  {
    var f := e / 2;
    var q, r := Euclid(n, e);
    assert q * e == 2 * (q * f);
    DivMod(n / 2, f, q, r / 2);
  }

  lemma HalveCommutes(n: nat, d: nat)
    requires d > 0
    ensures (n / 2) / d == (n / d) / 2
  {
    var q, r := Euclid(n, d);
    var p := q / 2;
    DoubleTimes(p, d);
    if q == 2 * p {
      DivMod(n / 2, d, p, r / 2);
    } else {
      TimesNext(2 * p, d);
      DivMod(n / 2, d, p, (d + r) / 2);
    }
  }

  lemma DoubleTimes(h: int, b: int)
    ensures (2 * h) * b == 2 * (h * b)
  {
  }

  lemma TimesNext(a: int, d: int)
    ensures (a + 1) * d == a * d + d
  {
  }

  // ----- powers of two -----

  ghost predicate PowerOfTwo(n: nat) {
    n == 1 || (n > 0 && n % 2 == 0 && PowerOfTwo(n / 2))
  }

  lemma {:induction false} PowersDivide(a: nat, b: nat)
    requires PowerOfTwo(a) && PowerOfTwo(b) && a <= b
    ensures b % a == 0
  {
    if a > 1 {
      PowersDivide(a / 2, b / 2);
      var q, r := Euclid(b / 2, a / 2);
      DivMod(b, a, q, 0);
    } else {
      DivMod(b, 1, b, 0);
    }
  }

  lemma TwicePower(n: nat)
    requires PowerOfTwo(n)
    ensures PowerOfTwo(2 * n)
  {
  }

  lemma {:induction false} PowersMultiply(a: nat, b: nat)
    requires PowerOfTwo(a) && PowerOfTwo(b)
    ensures PowerOfTwo(a * b)
  {
    if a > 1 {
      var h := a / 2;
      PowersMultiply(h, b);
      DoubleTimes(h, b);
      TwicePower(h * b);
    }
  }
}
