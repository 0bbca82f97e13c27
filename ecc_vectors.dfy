/** The concrete cases of the repository's two test files, stated on the
    model. */
module EccVectors {
  import opened Modular
  import opened Fermat
  import opened Ecc
  import opened EccLaws

  /** The constructor rejects residues outside `[0, prime)` and accepts
      small valid ones. */
  lemma ConstructionVectors()
    ensures New(-1, 2) == Failure(OutOfRange) && New(100, 2) == Failure(OutOfRange)
    ensures New(0, -1) == Failure(OutOfRange) && New(0, 0) == Failure(OutOfRange)
    ensures New(0, 2).Success? && New(1, 3).Success? && New(3, 11).Success?
  {
  }

  /** The range check is the only check: the moduli 1 and 4, which are not
      prime, are accepted. */
  lemma NonPrimeModulusAccepted()
    ensures New(0, 1) == Success(FE(0, 1)) && New(0, 4) == Success(FE(0, 4))
  {
  }

  /** Each single value equals itself; pairs different in `num`, in `prime`
      or in both are unequal. */
  lemma EqualityVectors()
    ensures Eq(FE(0, 2), FE(0, 2)) && Eq(FE(1, 3), FE(1, 3)) && Eq(FE(3, 11), FE(3, 11))
    ensures Ne(FE(1, 2), FE(3, 5)) && Ne(FE(3, 7), FE(10, 11))
    ensures Ne(FE(1, 3), FE(2, 3)) && Ne(FE(4, 11), FE(10, 11))
    ensures Ne(FE(1, 3), FE(1, 2)) && Ne(FE(4, 11), FE(4, 13))
  {
  }

  /** Equal and unequal elements modulo 31. */
  lemma NeVectors()
    ensures Eq(FE(2, 31), FE(2, 31)) && Ne(FE(2, 31), FE(15, 31))
  {
  }

  lemma AddVectors()
    ensures Add(FE(2, 31), FE(15, 31)) == Success(FE(17, 31))
    ensures Add(FE(17, 31), FE(21, 31)) == Success(FE(7, 31))
  {
  }

  lemma AddVectorsParametrized()
    ensures Add(FE(2, 31), FE(16, 31)) == Success(FE(18, 31))
    ensures Add(FE(18, 31), FE(21, 31)) == Success(FE(8, 31))
  {
  }

  /** Every binary operation rejects operands of different fields. */
  lemma DifferentFieldVectors()
    ensures Add(FE(1, 3), FE(1, 2)) == Failure(DifferentFields)
    ensures Sub(FE(4, 11), FE(4, 13)) == Failure(DifferentFields)
    ensures Mul(FE(1, 3), FE(1, 2)) == Failure(DifferentFields)
    ensures Div(FE(4, 11), FE(4, 13)) == Failure(DifferentFields)
  {
  }

  lemma SubVectors()
    ensures Sub(FE(29, 31), FE(4, 31)) == Success(FE(25, 31))
    ensures Sub(FE(15, 31), FE(30, 31)) == Success(FE(16, 31))
  {
  }

  lemma MulVectors()
    ensures Mul(FE(24, 31), FE(19, 31)) == Success(FE(22, 31))
    ensures Mul(FE(15, 31), FE(2, 31)) == Success(FE(30, 31))
  {
  }

  /** `ModPow` of a power split in two, for known values of both halves. */
  lemma ModPowSplit(b: int, e1: nat, e2: nat, m: int, v1: int, v2: int)
    requires m >= 1 && ModPow(b, e1, m) == v1 && ModPow(b, e2, m) == v2
    ensures ModPow(b, e1 + e2, m) == (v1 * v2) % m
  {
    ModPowAdd(b, e1, e2, m);
  }

  /** `b` to the 27 (= 24 + 3), built by repeated squaring from the values of
      the intermediate powers, which the caller supplies. The base is a
      parameter rather than a literal, so that the verifier does not unfold
      `ModPow` 27 times on literals. */
  lemma Pow27(b: int, m: int, v2: int, v3: int, v6: int, v12: int, v24: int, v27: int)
    requires m == 31 && 0 <= b < m
    requires v2 == (b * b) % m && v3 == (v2 * b) % m && v6 == (v3 * v3) % m
    requires v12 == (v6 * v6) % m && v24 == (v12 * v12) % m && v27 == (v24 * v3) % m
    ensures ModPow(b, 27, m) == v27
  {
    assert ModPow(b, 1, m) == b;
    ModPowSplit(b, 1, 1, m, b, b);
    ModPowSplit(b, 2, 1, m, v2, b);
    ModPowSplit(b, 3, 3, m, v3, v3);
    ModPowSplit(b, 6, 6, m, v6, v6);
    ModPowSplit(b, 12, 12, m, v12, v12);
    ModPowSplit(b, 24, 3, m, v24, v3);
  }

  /** 17 to the 27 modulo 31, the power behind `17 ** -3`. */
  lemma SeventeenTo27()
    ensures ModPow(17, 27, 31) == 29
  {
    Pow27(17, 31, 10, 15, 8, 2, 4, 29);
  }

  /** `Pow` on an element given by its two numbers, for a known reduced
      exponent `n` and a known value of the power. */
  lemma PowOf(num: int, p: int, e: int, n: nat, v: int)
    requires 0 <= num < p && p >= 2
    requires e % (p - 1) == n && ModPow(num, n, p) == v
    ensures Pow(FE(num, p), e) == Success(FE(v, p))
  {
  }

  // In the vectors below, the powers are spelled out one exponent at a
  // time, or taken from the lemmas above, before the operation is unfolded.

  /** `17 ** 3` and `15 ** 0` modulo 31. */
  lemma PowVectors()
    ensures Pow(FE(17, 31), 3) == Success(FE(15, 31))
    ensures Pow(FE(15, 31), 0) == Success(FE(1, 31))
  {
    assert ModPow(17, 1, 31) == 17;
    assert ModPow(17, 2, 31) == 10;
    assert ModPow(17, 3, 31) == 15;
    PowOf(17, 31, 3, 3, 15);
    PowOf(15, 31, 0, 0, 1);
  }

  /** `15 ** 4` modulo 31. */
  lemma PowVectorFourth()
    ensures Pow(FE(15, 31), 4) == Success(FE(2, 31))
  {
    assert ModPow(15, 1, 31) == 15;
    assert ModPow(15, 2, 31) == 8;
    assert ModPow(15, 3, 31) == 27;
    assert ModPow(15, 4, 31) == 2;
    PowOf(15, 31, 4, 4, 2);
  }

  /** `5 ** 5 * 18` modulo 31. */
  lemma PowTimesVector()
    ensures Mul(Pow(FE(5, 31), 5).value, FE(18, 31)) == Success(FE(16, 31))
  {
    assert ModPow(5, 1, 31) == 5;
    assert ModPow(5, 2, 31) == 25;
    assert ModPow(5, 3, 31) == 1;
    assert ModPow(5, 4, 31) == 5;
    assert ModPow(5, 5, 31) == 25;
    PowOf(5, 31, 5, 5, 25);
  }

  /** `17 ** -3` modulo 31: the exponent is reduced to 27. */
  lemma PowNegativeVector()
    ensures Pow(FE(17, 31), -3) == Success(FE(29, 31))
  {
    SeventeenTo27();
    PowOf(17, 31, -3, 27, 29);
  }

  /** 19 is prime: no number strictly between 1 and 19 divides it. */
  lemma Prime19()
    ensures IsPrime(19)
  {
    forall d | 1 < d < 19
      ensures !Divides(d, 19)
    {
      assert d == 2 || d == 3 || d == 4 || d == 5 || d == 6 || d == 7 || d == 8 || d == 9 ||
        d == 10 || d == 11 || d == 12 || d == 13 || d == 14 || d == 15 || d == 16 || d == 17 ||
        d == 18;
    }
  }

  /** 31 is prime. */
  lemma Prime31()
    ensures IsPrime(31)
  {
    forall d | 1 < d < 31
      ensures !Divides(d, 31)
    {
      assert d == 2 || d == 3 || d == 4 || d == 5 || d == 6 || d == 7 || d == 8 || d == 9 ||
        d == 10 || d == 11 || d == 12 || d == 13 || d == 14 || d == 15 || d == 16 || d == 17 ||
        d == 18 || d == 19 || d == 20 || d == 21 || d == 22 || d == 23 || d == 24 || d == 25 ||
        d == 26 || d == 27 || d == 28 || d == 29 || d == 30;
    }
  }

  // The division vectors follow from `DivUnique`: in a prime field the
  // quotient is the one element that gives back the dividend. The operands
  // are parameters equal to the literal elements, which keeps the verifier
  // from evaluating `Div` on literals.

  /** `3 / 24 == 4` modulo 31, since 4 * 24 == 96 == 3 + 3 * 31. */
  lemma DivVector31(a: FieldElement, b: FieldElement)
    requires a == FE(3, 31) && b == FE(24, 31)
    ensures Div(a, b) == Success(FE(4, 31))
  {
    Prime31();
    assert Congruent(4 * 24, 3, 31);
    DivUnique(a, b, FE(4, 31));
  }

  /** `2 / 7 == 3` modulo 19, since 3 * 7 == 21 == 2 + 19. */
  lemma DivVector19(a: FieldElement, b: FieldElement)
    requires a == FE(2, 19) && b == FE(7, 19)
    ensures Div(a, b) == Success(FE(3, 19))
  {
    Prime19();
    assert Congruent(3 * 7, 2, 19);
    DivUnique(a, b, FE(3, 19));
  }

  /** `7 / 5 == 9` modulo 19, since 9 * 5 == 45 == 7 + 2 * 19. */
  lemma DivVector19Again(a: FieldElement, b: FieldElement)
    requires a == FE(7, 19) && b == FE(5, 19)
    ensures Div(a, b) == Success(FE(9, 19))
  {
    Prime19();
    assert Congruent(9 * 5, 7, 19);
    DivUnique(a, b, FE(9, 19));
  }
}
