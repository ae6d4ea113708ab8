/** Number theory behind the open-addressing table: sizes are powers of two and
    the increment is odd, so the increment walks over every slot. */
module Probing {
  import opened Arithmetic

  lemma WordIsPower()
    ensures PowerOfTwo(0x1_0000) && PowerOfTwo(WORD)
  {
    PowersMultiply(256, 256);
    PowersMultiply(0x1_0000, 0x1_0000);
  }

  lemma LongIsPower()
    ensures PowerOfTwo(LONG) && PowerOfTwo(LONG / 2)
  {
    WordIsPower();
    PowersMultiply(WORD, WORD);
  }

  /** Slot looked at by probe number n. */
  function Probe(start: nat, step: nat, size: nat, n: nat): (p: nat)
    requires size > 0
    ensures p < size
  {
    (start + n * step) % size
  }

  lemma ModHalf(x: nat, h: nat, d: nat)
    requires h > 0 && d == 2 * h
    ensures x % h == if x % d < h then x % d else x % d - h
  {
    var q, r := Euclid(x, d);
    if r < h {
      DivMod(x, h, 2 * q, r);
    } else {
      DivMod(x, h, 2 * q + 1, r - h);
    }
  }

  /** Half the table's worth of odd steps lands in the opposite half. */
  lemma OppositeHalf(x: nat, step: nat, h: nat, d: nat)
    requires h > 0 && step % 2 == 1 && d == 2 * h
    ensures (x + h * step) % d == if x % d < h then x % d + h else x % d - h
  {
    var q, r := Euclid(x, d);
    var s := step / 2;
    assert h * step == s * d + h by { assert step == 2 * s + 1; }
    if r < h {
      DivMod(x + h * step, d, q + s, r + h);
    } else {
      DivMod(x + h * step, d, q + s + 1, r - h);
    }
  }

  /** A probe of the right slot in half the table is one in the table, or half the table later. */
  lemma NowOrLater(start: nat, step: nat, h: nat, size: nat, n: nat, target: nat)
    requires h > 0 && step % 2 == 1 && size == 2 * h && target < size
    requires Probe(start, step, h, n) == target % h
    ensures Probe(start, step, size, n) == target || Probe(start, step, size, n + h) == target
  {
    var x := start + n * step;
    ModHalf(x, h, size);
    ModHalf(target, h, size);
    DivMod(target, size, 0, target);
    OppositeHalf(x, step, h, size);
    TimesSum(n, h, step);
  }

  lemma TimesSum(n: nat, h: nat, step: nat)
    ensures (n + h) * step == n * step + h * step
  {
  }

  /** An odd step modulo a power of two reaches every slot within `size` probes. */
  lemma {:induction false} OddStepHitsEverySlot(start: nat, step: nat, size: nat, target: nat) returns (n: nat)
    requires PowerOfTwo(size) && step % 2 == 1 && target < size
    ensures n < size && Probe(start, step, size, n) == target
  {
    if size == 1 {
      n := 0;
    } else {
      var h := size / 2;
      n := OddStepHitsEverySlot(start, step, h, target % h);
      NowOrLater(start, step, h, size, n, target);
      if Probe(start, step, size, n) != target {
        n := n + h;
      }
    }
  }

  /** Adding the step moves from probe n to probe n + 1, even though the
      position is an `unsigned int` that wraps around. */
  lemma NextProbe(start: nat, step: nat, size: nat, n: nat)
    requires size > 0 && PowerOfTwo(size) && size <= WORD
    ensures ((Probe(start, step, size, n) + step) % WORD) % size == Probe(start, step, size, n + 1)
  {
    OneStep(start, step, size, n);
    WrappedStep(Probe(start, step, size, n) + step, size, Probe(start, step, size, n + 1));
  }

  lemma OneStep(start: nat, step: nat, size: nat, n: nat)
    requires size > 0
    ensures (Probe(start, step, size, n) + step) % size == Probe(start, step, size, n + 1)
  {
    TimesSum(n, 1, step);
    ModPlus(start + n * step, step, size);
  }

  lemma WrappedStep(x: nat, size: nat, slot: nat)
    requires size > 0 && PowerOfTwo(size) && size <= WORD && x % size == slot
    ensures (x % WORD) % size == slot
  {
    WrapKeepsSlot(x, size);
  }

  lemma WrapKeepsSlot(x: nat, size: nat)
    requires size > 0 && PowerOfTwo(size) && size <= WORD
    ensures (x % WORD) % size == x % size
  {
    WordIsPower();
    PowersDivide(size, WORD);
    ModOfMultiple(x, size, WORD);
  }

  /** The probes reach every slot exactly when the table is no larger than the 32 bits of the
      probe index allow. */
  lemma EverySlotProbedExactlyWhen(start: nat, step: nat, size: nat)
    requires PowerOfTwo(size) && step % 2 == 1
    ensures (forall target: nat :: target < size ==> IsProbed(start, step, size, target)) <==> size <= WORD
  {
    if size <= WORD {
      forall target: nat | target < size ensures IsProbed(start, step, size, target) {
        var n := OddStepHitsEverySlot(start, step, size, target);
        WrapKeepsSlot(start + n * step, size);
        assert Wrapped(start, step, size, n) == target;
      }
    } else {
      forall n: nat ensures Wrapped(start, step, size, n) != WORD {
        SmallMod((start + n * step) % WORD, size);
      }
      assert !IsProbed(start, step, size, WORD);
    }
  }

  /** Slot looked at by probe n when the sum is kept in 32 bits. */
  function Wrapped(start: nat, step: nat, size: nat, n: nat): nat
    requires size > 0
  {
    ((start + n * step) % WORD) % size
  }

  ghost predicate IsProbed(start: nat, step: nat, size: nat, target: nat)
    requires size > 0
  {
    exists n: nat :: Wrapped(start, step, size, n) == target
  }

  lemma SmallMod(x: nat, size: nat)
    requires size > 0
    ensures x % size <= x
  {
    var q, r := Euclid(x, size);
    if q > 0 { MulMono(0, q, size); }
  }

  // ----- round_up_2 -----

  /** Bitwise or. */
  function Or(a: nat, b: nat): nat {
    if a == 0 then b
    else if b == 0 then a
    else 2 * Or(a / 2, b / 2) + if a % 2 == 1 || b % 2 == 1 then 1 else 0
  }

  /** Shifting right by k bits is division by d, 2 to the k. */
  function Shr(n: nat, d: nat): nat
    requires d > 0
  {
    n / d
  }

  /** Or a number with itself shifted right. */
  function Smear(n: nat, d: nat): nat
    requires d > 0
  {
    Or(n, Shr(n, d))
  }

  // One more than the largest `unsigned long`.
  const LONG: nat := 0x1_0000_0000_0000_0000

  /** Smear by 1, 2, 4, 8, 16 and 32 bits, and add one. It is a power of two above the number
      exactly when there is one in 64 bits; otherwise the addition wraps around. */
  function RoundUp2(n: nat): (r: nat)
    requires n < LONG
    ensures PowerOfTwo(r) && n < r <==> n < LONG / 2
    ensures if n < LONG / 2 then (n > 0 ==> r <= 2 * n) else r == 0
  {
    var smeared := Smear(Smear(Smear(Smear(Smear(Smear(n, 2), 4), 16), 256), 0x1_0000), WORD);
    SmearAll(n);
    FullSpread(n, LONG);
    LongIsPower();
    TopBit(n, smeared + 1, LONG / 2, LONG);
    Wrap64(smeared + 1)
  }

  /** The value of a sum in 64 bits. */
  function Wrap64(x: nat): (r: nat)
    ensures x < LONG ==> r == x
    ensures x == LONG ==> r == 0
  {
    x % LONG
  }

  /** The power of two just above a number with its top bit set needs one bit more. */
  lemma TopBit(n: nat, r: nat, half: nat, full: nat)
    requires PowerOfTwo(half) && PowerOfTwo(full) && full == 2 * half && n < full
    requires PowerOfTwo(r) && n < r && (if n > 0 then r <= 2 * n else r == 1)
    ensures r < full <==> n < half
    ensures n >= half ==> r == full
  {
    if n >= half {
      PowersDivide(half, r);
      if r < full {
        DivMod(r, half, 1, r - half);
      } else {
        PowersDivide(full, r);
        DivMod(r, full, 1, r - full);
      }
    } else if n == 0 {
      assert half >= 1;
    }
  }

  /** Bit i is set when one of the bits [i, i + w) of n is, where d is 2 to the w. */
  ghost function Spread(n: nat, d: nat): nat
    requires d > 0
  {
    if n == 0 then 0 else 2 * Spread(n / 2, d) + if n % d != 0 then 1 else 0
  }

  lemma {:induction false} SpreadShift(n: nat, d: nat, e: nat)
    requires d > 0 && e > 0 && PowerOfTwo(e)
    ensures Spread(n, d) / e == Spread(Shr(n, e), d)
  {
    if e > 1 {
      SpreadShift(n / 2, d, e / 2);
      HalveBoth(n, e);
      HalveBoth(Spread(n, d), e);
      assert Spread(n, d) / 2 == Spread(n / 2, d);
    } else {
      DivMod(n, 1, n, 0);
      DivMod(Spread(n, d), 1, Spread(n, d), 0);
    }
  }

  lemma WiderWindow(n: nat, d: nat, e: nat)
    requires d > 0 && e == d * d
    ensures e > 0 && (n % e != 0) == (n % d != 0 || Shr(n, d) % d != 0)
  {
    var q, r := Euclid(n, d);
    var q', r' := Euclid(q, d);
    assert q * d == q' * e + r' * d;
    MulMono(r', d, d);
    MulNonNegative(r', d);
    DivMod(n, e, q', r' * d + r);
    if r' > 0 { MulMono(0, r', d); }
  }

  lemma OrSplits(a: nat, b: nat)
    ensures Or(a, b) == 2 * Or(a / 2, b / 2) + if a % 2 == 1 || b % 2 == 1 then 1 else 0
  {
  }

  lemma SpreadBits(n: nat, d: nat)
    requires d > 0
    ensures Spread(n, d) / 2 == Spread(n / 2, d)
    ensures Spread(n, d) % 2 == if n % d != 0 then 1 else 0
  {
    if n == 0 { DivMod(0, d, 0, 0); }
  }

  /** Or-ing in the bits one window further on doubles the window. */
  lemma {:induction false} SpreadOr(n: nat, d: nat, e: nat)
    requires d > 0 && e > 0
    requires forall m: nat {:trigger m % e} :: (m % e != 0) == (m % d != 0 || Shr(m, d) % d != 0)
    ensures Or(Spread(n, d), Spread(Shr(n, d), d)) == Spread(n, e)
  {
    if n > 0 {
      SpreadOr(n / 2, d, e);
      HalveCommutes(n, d);
      var m := Shr(n, d);
      assert Shr(n / 2, d) == m / 2;
      SpreadBits(n, d);
      SpreadBits(m, d);
      OrSplits(Spread(n, d), Spread(m, d));
    } else {
      DivMod(0, d, 0, 0);
    }
  }

  lemma SpreadStep(n: nat, d: nat, e: nat)
    requires d > 0 && PowerOfTwo(d) && e == d * d
    ensures e > 0 && Smear(Spread(n, d), d) == Spread(n, e)
  {
    SpreadShift(n, d, d);
    forall m: nat ensures e > 0 && (m % e != 0) == (m % d != 0 || Shr(m, d) % d != 0) {
      WiderWindow(m, d, e);
    }
    SpreadOr(n, d, e);
  }

  lemma {:induction false} SpreadOne(n: nat)
    ensures Spread(n, 2) == n
  {
    if n > 0 { SpreadOne(n / 2); }
  }

  /** The six steps spread every bit over a window of 64. */
  lemma SmearAll(n: nat)
    ensures Smear(Smear(Smear(Smear(Smear(Smear(n, 2), 4), 16), 256), 0x1_0000), WORD)
         == Spread(n, LONG)
  {
    SpreadOne(n);
    SpreadStep(n, 2, 4);
    SpreadStep(n, 4, 16);
    SpreadStep(n, 16, 256);
    SmearTop(n);
  }

  lemma SmearTop(n: nat)
    ensures Smear(Smear(Smear(Spread(n, 256), 256), 0x1_0000), WORD) == Spread(n, LONG)
  {
    WordIsPower();
    SpreadStep(n, 256, 0x1_0000);
    SpreadStep(n, 0x1_0000, WORD);
    SpreadStep(n, WORD, LONG);
  }

  lemma {:induction false} FullSpread(n: nat, d: nat)
    requires n < d
    ensures PowerOfTwo(Spread(n, d) + 1)
    ensures n <= Spread(n, d) && (n > 0 ==> Spread(n, d) < 2 * n) && (n == 0 ==> Spread(n, d) == 0)
  {
    if n > 0 {
      FullSpread(n / 2, d);
      DivMod(n, d, 0, n);
      assert Spread(n, d) == 2 * Spread(n / 2, d) + 1;
      TwicePower(Spread(n / 2, d) + 1);
    }
  }

  /** The smallest power of two above a 32-bit number still fits the probe index. */
  lemma BelowWord(n: nat, size: nat)
    requires n < WORD && size > 0 && PowerOfTwo(size) && (n > 0 ==> size <= 2 * n)
    requires n == 0 ==> size == 1
    ensures size <= WORD
  {
    if size > WORD {
      WordIsPower();
      PowersDivide(WORD, size);
    }
  }
}
