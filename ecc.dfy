/** The prime-field element `FieldElement` of
    python/programming_bitcoin/ecc.py: a residue `num` together with the
    modulus `prime`, built once by a validating constructor and never changed;
    every operation builds a new element through that same constructor.

    Subtraction, multiplication and division are stubs in the source: each
    checks that both operands are in the same field and then raises
    `NotImplementedError`. They are modelled with the results that the source's
    comments and test vectors give them, and each is marked
    "intended, stub in source". */
module Ecc {
  import opened Modular
  import opened Fermat

  /** Why an operation raises. */
  datatype Error =
    | OutOfRange       // ValueError: `num` outside `[0, prime)` in the constructor
    | DifferentFields  // TypeError: a binary operation on elements of two different fields
    | ModuloByZero     // ZeroDivisionError: `exponent % (prime - 1)` with `prime == 1`

  datatype Result<+T> = Success(value: T) | Failure(error: Error)

  /** The two attributes of an element. */
  datatype FE = FE(num: int, prime: int) {
    /** The range check of the constructor. */
    predicate Valid() {
      0 <= num < prime
    }
  }

  /** An element as the constructor lets it exist: `0 <= num < prime`.
      The constructor does not test `prime` for primality. */
  type FieldElement = e: FE | e.Valid() witness FE(0, 1)

  /** `FieldElement(num, prime)`: fails unless `0 <= num < prime`. */
  function New(num: int, prime: int): (r: Result<FieldElement>)
    ensures r.Success? <==> 0 <= num < prime
    ensures r.Success? ==> r.value.num == num && r.value.prime == prime
    ensures r.Failure? ==> r.error == OutOfRange
  {
    if num >= prime || num < 0 then Failure(OutOfRange) else Success(FE(num, prime))
  }

  /** `a == b`: both attributes agree. */
  function Eq(a: FieldElement, b: FieldElement): (r: bool)
    ensures r <==> a == b
  {
    a.num == b.num && a.prime == b.prime
  }

  /** `a != b`, written separately in the source; it is exactly the negation
      of `Eq`. */
  function Ne(a: FieldElement, b: FieldElement): (r: bool)
    ensures r <==> !Eq(a, b)
  {
    a.num != b.num || a.prime != b.prime
  }

  /** `a + b`: the residue of the sum, in the shared field. */
  function Add(a: FieldElement, b: FieldElement): (r: Result<FieldElement>)
    ensures r.Failure? <==> a.prime != b.prime
    ensures r.Failure? ==> r.error == DifferentFields
    ensures r.Success? ==> r.value.prime == a.prime && Congruent(r.value.num, a.num + b.num, a.prime)
  {
    if a.prime != b.prime then Failure(DifferentFields)
    else
      ModCongruent(a.num + b.num, a.prime);
      New((a.num + b.num) % a.prime, a.prime)
  }

  /** `a - b`, intended, stub in source: the residue of the difference, never
      negative (Python's `%` with a positive modulus). */
  function Sub(a: FieldElement, b: FieldElement): (r: Result<FieldElement>)
    ensures r.Failure? <==> a.prime != b.prime
    ensures r.Failure? ==> r.error == DifferentFields
    ensures r.Success? ==> r.value.prime == a.prime && Congruent(r.value.num, a.num - b.num, a.prime)
  {
    if a.prime != b.prime then Failure(DifferentFields)
    else
      ModCongruent(a.num - b.num, a.prime);
      New((a.num - b.num) % a.prime, a.prime)
  }

  /** `a * b`, intended, stub in source: the residue of the product. */
  function Mul(a: FieldElement, b: FieldElement): (r: Result<FieldElement>)
    ensures r.Failure? <==> a.prime != b.prime
    ensures r.Failure? ==> r.error == DifferentFields
    ensures r.Success? ==> r.value.prime == a.prime && Congruent(r.value.num, a.num * b.num, a.prime)
  {
    if a.prime != b.prime then Failure(DifferentFields)
    else
      ModCongruent(a.num * b.num, a.prime);
      New((a.num * b.num) % a.prime, a.prime)
  }

  /** `a ** exponent`: the exponent is first reduced modulo `prime - 1`
      (never negative, so negative exponents are accepted), then the built-in
      `pow(num, n, prime)` is taken. With `prime == 1` the reduction is a
      modulo by zero. */
  function Pow(a: FieldElement, exponent: int): (r: Result<FieldElement>)
    ensures r.Failure? <==> a.prime == 1
    ensures r.Failure? ==> r.error == ModuloByZero
    ensures r.Success? ==> r.value.prime == a.prime
    ensures r.Success? ==> Congruent(r.value.num, Power(a.num, exponent % (a.prime - 1)), a.prime)
  {
    if a.prime == 1 then Failure(ModuloByZero)
    else
      var n := exponent % (a.prime - 1);
      ModPowIsPowerMod(a.num, n, a.prime);
      ModCongruent(Power(a.num, n), a.prime);
      New(ModPow(a.num, n, a.prime), a.prime)
  }

  /** `pow(n, p - 2, p)`, the inverse of a nonzero `n` by Fermat's little
      theorem (`FermatInverseIsInverse`). With `p == 1` the exponent is -1;
      the result is then 0, the only residue modulo 1. */
  function FermatInverse(n: int, p: int): (r: int)
    requires p >= 1
    ensures 0 <= r < p
  {
    if p == 1 then 0 else ModPow(n, p - 2, p)
  }

  /** `a / b`, intended, stub in source: `a` times the Fermat inverse of `b`.
      The formula has no zero check; a zero divisor gives 0 once `p > 2`. */
  function Div(a: FieldElement, b: FieldElement): (r: Result<FieldElement>)
    ensures r.Failure? <==> a.prime != b.prime
    ensures r.Failure? ==> r.error == DifferentFields
    ensures r.Success? ==> r.value.prime == a.prime
    ensures r.Success? && IsPrime(a.prime) && b.num != 0 ==> Congruent(r.value.num * b.num, a.num, a.prime)
  {
    if a.prime != b.prime then Failure(DifferentFields)
    else
      var p := a.prime;
      var q := (a.num * FermatInverse(b.num, p)) % p;
      assert IsPrime(p) && b.num != 0 ==> Congruent(q * b.num, a.num, p) by {
        if IsPrime(p) && b.num != 0 {
          DivCongruent(a.num, b.num, p);
        }
      }
      New(q, p)
  }

  /** The inverse undoes `b`: `b * pow(b, p - 2, p)` leaves remainder 1. */
  lemma FermatInverseIsInverse(n: int, p: int)
    requires IsPrime(p) && 0 < n < p
    ensures (n * FermatInverse(n, p)) % p == 1
  {
    var inv := ModPow(n, p - 2, p);
    ModPowIsPowerMod(n, p - 2, p);
    ModMul(n, Power(n, p - 2), p);
    assert n * Power(n, p - 2) == Power(n, p - 1);
    FermatLittle(p, n);
  }

  /** Multiplying the quotient back by the divisor gives the dividend. */
  lemma DivCongruent(x: int, n: int, p: int)
    requires IsPrime(p) && 0 < n < p
    ensures Congruent((x * FermatInverse(n, p)) % p * n, x, p)
  {
    var inv := FermatInverse(n, p);
    FermatInverseIsInverse(n, p);
    assert inv * n == n * inv;
    // regroup to x * (inv * n), whose remainder is that of x * 1
    ModMulRegroup(x, inv, n, p);
    ModMul(x, inv * n, p);
    CongruentIffSameMod((x * inv) % p * n, x, p);
  }
}
