/** The fixed-precision 3-adic integers: an element is a raw 64-bit unsigned
    word standing for its residue modulo 3^40, the largest power of 3 below
    2^64.  Because 2^64 is not a power of 3, machine wrap-around is not the
    ring's reduction, and every operation reduces by hand.  C++ `uint64_t`
    arithmetic is written out with `Wrap` (reduction modulo 2^64) wherever
    the source performs it. */
module Z3Ring {
  import opened ModArith

  /** MAX3 = 3^40, the modulus. */
  const Max3: nat := 12157665459056928801
  /** SQRT_MAX3 = 3^20, the limb size of `Multiply`. */
  const SqrtMax3: nat := 3486784401
  /** MAX_INT64 = 2^64 - 1, the largest word. */
  const MaxInt64: nat := 18446744073709551615
  /** 2^64, the modulus of machine arithmetic. */
  const Word: nat := 18446744073709551616
  /** The sentinel `valuation` returns for the ring's zero. */
  const MaxVal: nat := 35536

  /** uint64_t */
  type u64 = x: int | 0 <= x < 0x1_0000_0000_0000_0000
  /** int */
  type int32 = x: int | -0x8000_0000 <= x < 0x8000_0000

  /** The value C++ gives an integer converted to, or computed in, uint64_t. */
  function Wrap(x: int): (r: u64)
    ensures 0 <= x < Word ==> r == x
    ensures Cong(r, x, Word)
  {
    CongMod(x, Word);
    x % Word
  }

  /** int64_t y = x: the two's-complement reading of a word. */
  function ToInt64(x: u64): (y: int)
    ensures -0x8000_0000_0000_0000 <= y < 0x8000_0000_0000_0000
    ensures Wrap(y) == x
  {
    if x < 0x8000_0000_0000_0000 then x else x - Word
  }

  lemma ConstantsArePowers()
    ensures Max3 == Pow3(40) && SqrtMax3 == Pow3(20)
    ensures SqrtMax3 * SqrtMax3 == Max3
    ensures Max3 < Word < 2 * Max3
  {
    Pow3Values();
  }

  lemma LimbModulus()
    ensures SqrtMax3 * SqrtMax3 == Max3 && Max3 <= Word
  {
  }

  lemma ModulusIsPow3()
    ensures Pow3(40) == Max3
  {
    ConstantsArePowers();
  }

  /** add(a, b): the residue of a + b, computed without losing the carry out
      of 64 bits.  The rvalue overload has the same body. */
  function Add(a: u64, b: u64): (r: u64)
    ensures r < Max3
    ensures r == (a + b) % Max3
  {
    var x := a % Max3;
    var y := b % Max3;
    CongMod(a, Max3);
    CongMod(b, Max3);
    CongAdd(x, a, y, b, Max3);
    if y <= Wrap(MaxInt64 - x) then
      Wrap(x + y) % Max3
    else if Wrap(x + y) == 0 then
      Wrap(Wrap(MaxInt64 - Max3) + 1)
    else
      AddWrapBranch(x, y);
      Wrap(Wrap(x + y) + Wrap(Wrap(MaxInt64 - Max3) + 1))
  }

  /** The third branch of `add`: the sum carried out of 64 bits, so adding
      2^64 - 3^40 modulo 2^64 subtracts 3^40. */
  lemma AddWrapBranch(x: int, y: int)
    requires 0 <= x < Max3 && 0 <= y < Max3 && x + y > MaxInt64
    ensures Wrap(Wrap(x + y) + Wrap(Wrap(MaxInt64 - Max3) + 1)) == (x + y) % Max3
  {
    DivModUnique(x + y, Word, 1, x + y - Word);
    DivModUnique(x + y, Max3, 1, x + y - Max3);
  }

  /** The branch of `add` for x + y == 2^64 gives what the general wrap-around
      branch would give: it is redundant. */
  lemma AddZeroSumBranchRedundant(x: u64, y: u64)
    requires x < Max3 && y < Max3 && Wrap(x + y) == 0 && y > Wrap(MaxInt64 - x)
    ensures Wrap(Wrap(x + y) + Wrap(Wrap(MaxInt64 - Max3) + 1)) == Wrap(Wrap(MaxInt64 - Max3) + 1)
    ensures Wrap(Wrap(MaxInt64 - Max3) + 1) == Word - Max3
  {
  }

  /** multiply(x, y): the residue of the mathematical product x * y.  Both
      operands are split into limbs below 3^20 so that no partial product
      leaves 64 bits. */
  function Multiply(x: u64, y: u64): (r: u64)
    ensures r < Max3
    ensures r == (x * y) % Max3
  {
    var x0 := x % SqrtMax3;
    var x1 := x / SqrtMax3;
    var y0 := y % SqrtMax3;
    var y1 := y / SqrtMax3;
    var x0y1 := Wrap(x0 * (y1 % SqrtMax3));
    var y0x1 := Wrap(y0 * (x1 % SqrtMax3));
    var low, mid1, mid2 := Wrap(x0 * y0), Wrap(SqrtMax3 * (x0y1 % SqrtMax3)), Wrap(SqrtMax3 * (y0x1 % SqrtMax3));
    var partial := Add(low, mid1);
    LimbModulus();
    LimbMultiplyResidue(x, y, SqrtMax3, Word, x0y1, y0x1, low, mid1, mid2, partial);
    Add(partial, mid2)
  }

  /** Every partial product `multiply` forms is below 3^40, so fits in 64 bits. */
  lemma MultiplyIntermediatesFit(x: u64, y: u64)
    ensures (x % SqrtMax3) * (y % SqrtMax3) < Max3
    ensures (x % SqrtMax3) * ((y / SqrtMax3) % SqrtMax3) < Max3
    ensures (y % SqrtMax3) * ((x / SqrtMax3) % SqrtMax3) < Max3
    ensures forall t: int :: 0 <= t < SqrtMax3 ==> SqrtMax3 * t < Max3
  {
    ConstantsArePowers();
    MulStrictBound(x % SqrtMax3, y % SqrtMax3, SqrtMax3);
    MulStrictBound(x % SqrtMax3, (y / SqrtMax3) % SqrtMax3, SqrtMax3);
    MulStrictBound(y % SqrtMax3, (x / SqrtMax3) % SqrtMax3, SqrtMax3);
  }

  /** unit(n): the C++ `int` is converted to uint64_t before it is reduced. */
  function Unit(n: int32): (r: u64)
    ensures r < Max3
    ensures n >= 0 ==> r == n
    ensures n < 0 ==> r == n + Word - Max3
  {
    ConstantsArePowers();
    DivModUnique(Wrap(n), Max3, if n >= 0 then 0 else 1, if n >= 0 then n else n + Word - Max3);
    Wrap(n) % Max3
  }

  /** The conversion `unit` evidently intends: the residue of n modulo 3^40,
      so that a negative n stands for its negation in the ring.  It agrees
      with `Unit` on non-negative arguments, so the scalar unit(3) of the
      extension engine is the same under either reading. */
  function UnitResidue(n: int32): (r: u64)
    ensures r < Max3 && Cong(r, n, Max3)
    ensures n >= 0 ==> r == Unit(n)
  {
    ConstantsArePowers();
    CongMod(n, Max3);
    n % Max3
  }

  /** isZero(x): x stands for the ring's zero.  Since 2^64 < 2 * 3^40 the
      only such words are 0 and 3^40 itself. */
  function IsZero(x: u64): (r: bool)
    ensures r <==> x == 0 || x == Max3
  {
    ZeroWords(x);
    x % Max3 == 0
  }

  lemma ZeroWords(x: u64)
    ensures x % Max3 == 0 <==> x == 0 || x == Max3
    ensures x < Max3 ==> x % Max3 == x
    ensures x >= Max3 ==> x % Max3 == x - Max3
  {
    ConstantsArePowers();
    if x < Max3 {
      DivModUnique(x, Max3, 0, x);
    } else {
      DivModUnique(x, Max3, 1, x - Max3);
    }
  }

  /** zero() */
  function Zero(): (r: u64)
    ensures r < Max3 && IsZero(r)
  {
    0
  }

  /** minus(x) = 3^40 - (x mod 3^40): an additive inverse, non-canonical
      (equal to 3^40) exactly when x is zero. */
  function Minus(x: u64): (r: u64)
    ensures 0 < r <= Max3
    ensures (x + r) % Max3 == 0
    ensures r == Max3 <==> IsZero(x)
  {
    CongMod(x, Max3);
    CongAdd(x, x % Max3, Max3 - x % Max3, Max3 - x % Max3, Max3);
    Wrap(Max3 - x % Max3)
  }

  /** invertible(x): prime() is the `int` 3, converted to uint64_t.  Whether
      x is a unit depends only on its residue modulo 3^40. */
  function Invertible(x: u64): (r: bool)
    ensures r <==> (x % Max3) % 3 != 0
  {
    ConstantsArePowers();
    Pow3Divides(1, 40);
    CongMod(x, Max3);
    CongWeaken(x % Max3, x, Max3, 3);
    x % Wrap(3) != 0
  }

  /** valuation(x): MaxVal for zero, 0 for a unit, otherwise one more than
      the valuation of x / 3.  For a nonzero word the result is the exact
      number of factors 3 in x, and it is below the precision 40. */
  function Valuation(x: u64): (r: nat)
    ensures IsZero(x) ==> r == MaxVal
    ensures Invertible(x) ==> r == 0
    ensures !IsZero(x) ==> r < 40 && x % Pow3(r) == 0 && x % Pow3(r + 1) != 0
    decreases x
  {
    if IsZero(x) then MaxVal
    else if Invertible(x) then
      UnitHasNoFactorThree(x);
      0
    else
      ThirdIsNonzero(x);
      var v := Valuation(x / 3);
      DivideOutThree(x, v);
      ValuationBound(x, v + 1);
      v + 1
  }

  lemma UnitHasNoFactorThree(x: u64)
    ensures Invertible(x) <==> x % 3 != 0
    ensures x % Pow3(0) == 0
  {
  }

  /** The argument of the recursive call of `valuation` is again nonzero. */
  lemma ThirdIsNonzero(x: u64)
    requires !IsZero(x) && !Invertible(x)
    ensures x % 3 == 0 && !IsZero(x / 3)
  {
  }

  /** A nonzero word has fewer than 40 factors 3. */
  lemma ValuationBound(x: u64, v: nat)
    requires !IsZero(x) && x % Pow3(v) == 0
    ensures v < 40
  {
    if v >= 40 {
      ConstantsArePowers();
      Pow3DividesWeaken(x, 40, v);
      ZeroWords(x);
      assert false;
    }
  }

  /** power_p(n): 3^n by repeated raw `*`, which wraps modulo 2^64 and not
      modulo 3^40; a negative exponent reports and gives 0. */
  function PowerP(n: int32): (r: u64)
    ensures n < 0 ==> r == 0
    ensures n >= 0 ==> r == Pow3(n) % Word
    ensures 0 <= n <= 40 ==> r == Pow3(n)
    ensures n >= 0 ==> r % 2 == 1
    decreases if n < 0 then 0 else n
  {
    if n == 0 then Unit(1)
    else if n > 0 then
      var p := Unit(3);
      PowerPStep(n, PowerP(n - 1));
      Wrap(PowerP(n - 1) * p)
    else 0
  }

  lemma PowerPStep(n: nat, prev: u64)
    requires 1 <= n && prev == Pow3(n - 1) % Word
    ensures Wrap(prev * 3) == Pow3(n) % Word
    ensures n <= 40 ==> Wrap(prev * 3) == Pow3(n)
    ensures Wrap(prev * 3) % 2 == 1
  {
    CongMod(Pow3(n - 1), Word);
    CongMul(prev, Pow3(n - 1), 3, 3, Word);
    CongMod(Pow3(n), Word);
    if n <= 40 {
      ConstantsArePowers();
      Pow3Divides(n, 40);
    }
    Pow3Odd(n);
    CongMod(Pow3(n), Word);
    CongWeaken(Pow3(n) % Word, Pow3(n), Word, 2);
  }

  /** divide(x, n): the word is read as int64_t, but dividing by the
      uint64_t power converts it straight back, so this is unsigned floor
      division of x by power_p(n).  A negative n makes power_p(n) zero and
      the division undefined, so callers must pass n >= 0. */
  function Divide(x: u64, n: int32): (r: u64)
    requires n >= 0
    ensures Pow3(n) % Word != 0 && r == x / (Pow3(n) % Word)
    ensures n <= 40 ==> r == x / Pow3(n)
    ensures r <= x
  {
    var y := ToInt64(x);
    DivAtMost(x, PowerP(n));
    Wrap(y) / PowerP(n)
  }

  /** inverse(x): six Newton steps u := u * (2 - x * u), which square the
      error x * u - 1 each time, so its precision 1, 2, 4, ..., 64 covers the
      40 digits.  For x = 2 modulo 3 the steps run on -x and the result is
      negated.  A non-unit makes the source throw; here it gives None. */
  method Inverse(x: u64) returns (r: Option<u64>)
    ensures r.None? <==> !Invertible(x)
    ensures r.Some? ==> r.value < Max3 && Multiply(x, r.value) == 1
  {
    if x % 3 == 1 {
      var u: u64 := 1;
      for i := 0 to 6
        invariant u < Max3
        invariant Cong(x * u, 1, Pow3(Precision(i)))
      {
        NewtonStep(x, u, i);
        u := Multiply(u, Add(2, Minus(Multiply(x, u))));
      }
      HenselDone(x, u);
      r := Some(u);
    } else if x % 3 == 2 {
      var u: u64 := 1;
      CongFromWitness((-(x as int)) * u, 1, -(x / 3) - 1, 3);
      for i := 0 to 6
        invariant u < Max3
        invariant Cong((-(x as int)) * u, 1, Pow3(Precision(i)))
      {
        NegatedNewtonStep(x, u, i);
        u := Multiply(u, Add(2, Multiply(x, u)));
      }
      NegatedHenselDone(x, u);
      r := Some(Minus(u));
    } else {
      r := None;
    }
  }

  datatype Option<T> = None | Some(value: T)

  /** The number of 3-adic digits of x * u - 1 known to vanish after i Newton
      steps, capped at the precision 40. */
  function Precision(i: nat): (k: nat)
    ensures 1 <= k <= 40
  {
    if i == 0 then 1 else if 2 * Precision(i - 1) < 40 then 2 * Precision(i - 1) else 40
  }

  lemma NewtonStep(x: u64, u: u64, i: nat)
    requires u < Max3 && Cong(x * u, 1, Pow3(Precision(i)))
    ensures Cong(x * Multiply(u, Add(2, Minus(Multiply(x, u)))), 1, Pow3(Precision(i + 1)))
  {
    var k := Precision(i);
    assert Precision(i + 1) == if 2 * k < 40 then 2 * k else 40;
    var w := Multiply(x, u);
    var mw := Minus(w);
    var s := Add(2, mw);
    var r := Multiply(u, s);
    ModulusIsPow3();
    NewtonIteration(x, u, w, mw, s, r, k, Max3, 40);
  }

  lemma NegatedNewtonStep(x: u64, u: u64, i: nat)
    requires u < Max3 && Cong((-(x as int)) * u, 1, Pow3(Precision(i)))
    ensures Cong((-(x as int)) * Multiply(u, Add(2, Multiply(x, u))), 1, Pow3(Precision(i + 1)))
  {
    var k := Precision(i);
    assert Precision(i + 1) == if 2 * k < 40 then 2 * k else 40;
    var w := Multiply(x, u);
    var s := Add(2, w);
    var r := Multiply(u, s);
    ModulusIsPow3();
    NegatedNewtonIteration(x, u, w, s, r, k, Max3, 40);
  }

  lemma PrecisionAfterSixSteps()
    ensures Precision(6) == 40
  {
    assert Precision(1) == 2;
    assert Precision(3) == 8;
    assert Precision(5) == 32;
  }

  lemma HenselDone(x: u64, u: u64)
    requires u < Max3 && Cong(x * u, 1, Pow3(Precision(6)))
    ensures Multiply(x, u) == 1
  {
    PrecisionAfterSixSteps();
    ModulusIsPow3();
    CongToOne(x * u, Max3);
  }

  lemma NegatedHenselDone(x: u64, u: u64)
    requires u < Max3 && Cong((-(x as int)) * u, 1, Pow3(Precision(6)))
    ensures Minus(u) < Max3 && Multiply(x, Minus(u)) == 1
  {
    PrecisionAfterSixSteps();
    ModulusIsPow3();
    NegatedInverse(x, u, Max3);
    SmallMod(u, Max3);
  }
}
