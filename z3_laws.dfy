/** The laws the 3-adic ring operations satisfy together: the ring axioms
    on canonical residues, uniqueness of inverses, the non-archimedean law
    of the valuation, and the relation between `divide` and `power_p`. */
module Z3Laws {
  import opened ModArith
  import opened Z3Ring

  lemma AddCommutative(a: u64, b: u64)
    ensures Add(a, b) == Add(b, a)
  {
  }

  lemma AddAssociative(a: u64, b: u64, c: u64)
    ensures Add(Add(a, b), c) == Add(a, Add(b, c))
  {
    AddModAssoc(a, b, c, Max3);
  }

  /** zero() is a right identity on canonical residues. */
  lemma AddZeroIdentity(a: u64)
    requires a < Max3
    ensures Add(a, Zero()) == a
  {
    DivModUnique(a, Max3, 0, a);
  }

  /** minus(x) is an additive inverse of every word, including 0, whose
      negation 3^40 is not canonical but still zero. */
  lemma AddMinusIsZero(x: u64)
    ensures IsZero(Add(x, Minus(x)))
    ensures Minus(Zero()) == Max3 && IsZero(Minus(Zero()))
  {
  }

  lemma MultiplyCommutative(x: u64, y: u64)
    ensures Multiply(x, y) == Multiply(y, x)
  {
  }

  lemma MultiplyAssociative(a: u64, b: u64, c: u64)
    ensures Multiply(Multiply(a, b), c) == Multiply(a, Multiply(b, c))
  {
    MulModAssoc(a, b, c, Max3);
  }

  /** unit(1) is a right identity on canonical residues. */
  lemma MultiplyUnitIdentity(a: u64)
    requires a < Max3
    ensures Multiply(a, Unit(1)) == a
  {
    DivModUnique(a, Max3, 0, a);
  }

  lemma MultiplyDistributes(a: u64, b: u64, c: u64)
    ensures Multiply(a, Add(b, c)) == Add(Multiply(a, b), Multiply(a, c))
  {
    MulAddModDistrib(a, b, c, Max3);
  }

  /** An inverse among the canonical residues is unique, so `Inverse`
      returns THE inverse. */
  lemma InverseUnique(x: u64, u: u64, v: u64)
    requires u < Max3 && v < Max3
    requires Multiply(x, u) == 1 && Multiply(x, v) == 1
    ensures u == v
  {
    InverseModUnique(x, u, v, Max3);
  }

  /** A word divisible by 3 has no inverse, which with `Inverse` makes
      `invertible` exactly "has an inverse". */
  lemma NonUnitHasNoInverse(x: u64, u: u64)
    requires !Invertible(x)
    ensures Multiply(x, u) != 1
  {
    ConstantsArePowers();
    Pow3Divides(1, 40);
    CongMod(x, Max3);
    CongWeaken(x % Max3, x, Max3, 3);
    CongMod(x * u, Max3);
    CongWeaken((x * u) % Max3, x * u, Max3, 3);
    DividesProduct(x, u, 3);
  }

  /** The valuation is determined by divisibility: a nonzero word with
      exactly v factors 3 has valuation v. */
  lemma ValuationUnique(x: u64, v: nat)
    requires !IsZero(x) && x % Pow3(v) == 0 && x % Pow3(v + 1) != 0
    ensures Valuation(x) == v
  {
    ExactPowerUnique(x, v, Valuation(x));
  }

  lemma ValuationOfZero()
    ensures Valuation(Zero()) == MaxVal
    ensures forall x: u64 :: IsZero(x) ==> Valuation(x) == MaxVal
  {
  }

  /** A zero factor makes the product zero. */
  lemma ZeroFactor(a: u64, b: u64)
    requires IsZero(a)
    ensures IsZero(Multiply(a, b))
  {
    if a == Max3 {
      MultipleIsZeroMod(b, Max3);
      assert a * b == b * Max3;
    }
  }

  /** The non-archimedean law: for a product that is not zero, the
      valuations add. */
  lemma ValuationOfProduct(a: u64, b: u64)
    requires !IsZero(Multiply(a, b))
    ensures !IsZero(a) && !IsZero(b)
    ensures Valuation(Multiply(a, b)) == Valuation(a) + Valuation(b)
  {
    if IsZero(a) {
      ZeroFactor(a, b);
      assert false;
    }
    if IsZero(b) {
      ZeroFactor(b, a);
      MultiplyCommutative(a, b);
      assert false;
    }
    var va, vb := Valuation(a), Valuation(b);
    ModulusIsPow3();
    ProductValuation(a, b, va, vb, 40);
    ValuationUnique(Multiply(a, b), va + vb);
  }

  /** The completing half: when two nonzero words have a zero product,
      their valuations add up to at least the precision 40, so the sum law
      above cannot hold there (valuation returns MaxVal for the product). */
  lemma ValuationOfVanishingProduct(a: u64, b: u64)
    requires !IsZero(a) && !IsZero(b) && IsZero(Multiply(a, b))
    ensures Valuation(a) + Valuation(b) >= 40
    ensures Valuation(Multiply(a, b)) == MaxVal
  {
    ModulusIsPow3();
    VanishingProductValuation(a, b, Valuation(a), Valuation(b), 40);
  }

  /** The sum law fails beyond the precision: 3^20 has valuation 20, but
      its square vanishes and has valuation MaxVal, not 40. */
  lemma ValuationBeyondPrecision()
    ensures Valuation(SqrtMax3) == 20
    ensures IsZero(Multiply(SqrtMax3, SqrtMax3))
    ensures Valuation(Multiply(SqrtMax3, SqrtMax3)) == MaxVal != Valuation(SqrtMax3) + Valuation(SqrtMax3)
  {
    ConstantsArePowers();
    MultipleIsZeroMod(1, Pow3(20));
    ExactPowerOfFactor(SqrtMax3, 20, 1);
    ValuationUnique(SqrtMax3, 20);
  }

  lemma PowerPBase()
    ensures PowerP(0) == Unit(1) == 1
    ensures PowerP(-1) == 0
  {
  }

  /** power_p wraps modulo 2^64 rather than reducing modulo 3^40: 3^41 is
      zero in the ring, but power_p(41) is not. */
  lemma PowerPBeyondPrecision()
    ensures Pow3(41) % Max3 == 0
    ensures PowerP(41) == 18026252303461234787
    ensures !IsZero(PowerP(41))
  {
    ConstantsArePowers();
    assert Pow3(41) == 3 * Max3;
    MultipleIsZeroMod(3, Max3);
    DivModUnique(Pow3(41), Word, 1, 18026252303461234787);
  }

  /** Dividing out 3^n and multiplying it back restores any canonical
      residue that 3^n divides. */
  lemma DividePowerRoundTrip(x: u64, n: int32)
    requires x < Max3 && 0 <= n <= 40 && x % Pow3(n) == 0
    ensures Multiply(Divide(x, n), PowerP(n)) == x
  {
    var d, p := Divide(x, n), PowerP(n);
    ExactQuotient(x, Pow3(n), Max3);
    assert Multiply(d, p) == ((x / Pow3(n)) * Pow3(n)) % Max3;
  }

  /** unit converts its `int` to uint64_t before reducing, so unit(-1) is
      2^64 - 1 - 3^40 rather than the ring's -1: unit(-1) + unit(1) is not
      zero. */
  lemma UnitOfNegativeIsNotNegation()
    ensures Unit(-1) == 6289078614652622814
    ensures !IsZero(Add(Unit(-1), Unit(1)))
  {
    ConstantsArePowers();
    DivModUnique(Unit(-1) + Unit(1), Max3, 0, 6289078614652622815);
  }

  /** The corrected conversion is additive and respects negation. */
  lemma UnitResidueAdditive(a: int32, b: int32)
    requires -0x8000_0000 <= a + b < 0x8000_0000
    ensures Add(UnitResidue(a), UnitResidue(b)) == UnitResidue(a + b)
    ensures -0x8000_0000 < a ==> IsZero(Add(UnitResidue(a), UnitResidue(-a)))
  {
    var ra, rb, rab := UnitResidue(a), UnitResidue(b), UnitResidue(a + b);
    CongAdd(ra, a, rb, b, Max3);
    SmallMod(rab, Max3);
    if -0x8000_0000 < a {
      CongAdd(ra, a, UnitResidue(-a), -a, Max3);
    }
  }
}
