# FieldElement: a verified model of prime-field arithmetic

This project models `FieldElement` from the `programming_bitcoin` package
(python/programming_bitcoin/ecc.py). A field element is a residue `num` and a
modulus `prime`. The constructor checks `0 <= num < prime` and raises
`ValueError` otherwise. The fields are never changed after construction.
The operators:

- `==` and `!=` compare both attributes and return a bool;
- `+` adds modulo `prime` and returns a fresh element built through the same
  constructor;
- `**` returns a fresh element the same way. It first reduces the exponent
  modulo `prime - 1` and then takes `pow(num, n, prime)`;
- `-`, `*` and `/` check that both operands share the modulus (`TypeError`
  otherwise). After that check the source raises `NotImplementedError`: they
  are stubs.

Their results are fixed only by the in-code comments and the test vectors:
`(a - b) mod p`, `(a * b) mod p`, and `a * pow(b, p - 2, p) mod p`. The model
gives them those results. Each is marked "intended, stub in source" in the
Dafny.

The code is pure, and so is the model. Files and modules:

- `modular.dfy`, module `Modular`:
  - congruence modulo `m` and the integer power `Power`;
  - `ModPow`, the three-argument `pow`;
  - `ModPowBySquaring`, a square-and-multiply method proved equal to
    `ModPow`.
- `fermat.dfy`, module `Fermat`: primality, Euclid's lemma, and Fermat's
  little theorem. The theorem is proved through the binomial theorem.
- `ecc.dfy`, module `Ecc`:
  - the element datatype `FE(num, prime)` and the subset type
    `FieldElement` (elements that pass the range check);
  - `Result`, and the three ways an operation raises: `OutOfRange`,
    `DifferentFields`, `ModuloByZero`;
  - the eight operations.
- `ecc_laws.dfy`, module `EccLaws`: the laws the operations obey together.
- `ecc_vectors.dfy`, module `EccVectors`: the repository's test vectors,
  stated on the model.

Python's `%` with a positive right operand agrees with Dafny's Euclidean
`%`, and every `%` in the source has a positive modulus: `prime`, or
`prime - 1` when `prime >= 2`. The one exception is `prime == 1` in `**`,
which is a modulo by zero (`ModuloByZero`). Integers are unbounded in both
languages.

Where the repository's documentation and tests disagree with the code, the
model follows the code:

- The constructor does no primality or type check. tests/test_ecc.py:46-49
  and :61-64 expect composite orders and the order 1 to be rejected. The
  code accepts them (`EccVectors.NonPrimeModulusAccepted`).
- Division by zero is not rejected. The intended formula has no zero check
  (`EccLaws.DivByZero`).

## Model

| member | source | states |
|---|---|---|
| Ecc.New | python/programming_bitcoin/ecc.py:11-17 | construction succeeds exactly when `0 <= num < prime`, keeps both attributes, and fails with `OutOfRange` (`ValueError`) otherwise; no primality check |
| Ecc.Eq | python/programming_bitcoin/ecc.py:23-27 | `a == b` holds exactly when both `num` and `prime` agree |
| Ecc.Ne | python/programming_bitcoin/ecc.py:30-34 | `a != b` is exactly the negation of `a == b` |
| Ecc.Add | python/programming_bitcoin/ecc.py:37-45 | fails with `DifferentFields` exactly when the moduli differ; otherwise a valid element of the same field congruent to `a.num + b.num` |
| Ecc.Sub | python/programming_bitcoin/ecc.py:48-58 | intended, stub in source: same field check as the source; otherwise a valid, never negative residue congruent to `a.num - b.num` |
| Ecc.Mul | python/programming_bitcoin/ecc.py:60-70 | intended, stub in source: same field check as the source; otherwise a valid residue congruent to `a.num * b.num` |
| Ecc.Pow | python/programming_bitcoin/ecc.py:73-77 | fails (modulo by zero) exactly when `prime == 1`; otherwise a valid element of the same field congruent to `num` to the power `exponent % (prime - 1)`, which is never negative |
| Ecc.Div | python/programming_bitcoin/ecc.py:80-92 | intended, stub in source: same field check as the source; otherwise an element of the same field which, for a prime modulus and a nonzero divisor, times the divisor is congruent to the dividend |
| Ecc.FermatInverseIsInverse | python/programming_bitcoin/ecc.py:87-90 | for a prime `p` and `0 < n < p`, `n * pow(n, p - 2, p)` leaves remainder 1 |
| Ecc.DivCongruent | python/programming_bitcoin/ecc.py:87-90 | `a * pow(b, p - 2, p) mod p`, times `b`, is congruent to `a` modulo a prime `p` for nonzero `b` |
| Fermat.FermatLittle | python/programming_bitcoin/ecc.py:87-88 | for a prime `p` and `0 < x < p`, `x` to the `p - 1` leaves remainder 1 modulo `p` |
| Fermat.CancelFactor | python/programming_bitcoin/ecc.py:87-90 | modulo a prime, a nonzero factor cancels from a congruence, so division has at most one answer |
| Modular.ModPow | python/programming_bitcoin/ecc.py:76 | the value of the built-in `pow(num, n, prime)` for `n >= 0`: always a residue, `0 <= r < m`; `Modular.ModPowIsPowerMod` ties it to the true power |
| Ecc.FermatInverse | python/programming_bitcoin/ecc.py:90 | the intended inverse `pow(n, p - 2, p)`: always a residue, `0 <= r < p` (0 when `p == 1`); `Ecc.FermatInverseIsInverse` proves it inverts every nonzero `n` modulo a prime |
| Modular.ModPowIsPowerMod | python/programming_bitcoin/ecc.py:76 | `pow(base, exp, m)`, reduced after every step, equals the true power reduced modulo `m` |
| Modular.ModPowAdd | python/programming_bitcoin/ecc.py:76 | `pow(b, e1 + e2, m)` is the reduced product of `pow(b, e1, m)` and `pow(b, e2, m)` |
| Modular.ModPowOfReduced | python/programming_bitcoin/ecc.py:76 | reducing the base modulo `m` first does not change `pow(base, exp, m)` |
| Modular.ModPowBySquaring | python/programming_bitcoin/ecc.py:76 | square-and-multiply over the bits of the exponent returns exactly `pow(base, exp, m)` |
| EccLaws.AddCommutative | python/programming_bitcoin/ecc.py:41-45 | `a + b == b + a`, including the failure on different fields |
| EccLaws.AddAssociative | python/programming_bitcoin/ecc.py:41-45 | `(a + b) + c == a + (b + c)` in one field |
| EccLaws.AddZero | python/programming_bitcoin/ecc.py:44-45 | adding the zero of the field returns the element unchanged |
| EccLaws.SubThenAdd | python/programming_bitcoin/ecc.py:52-57 | `(a - b) + b == a`: intended subtraction undoes addition |
| EccLaws.SubSelf | python/programming_bitcoin/ecc.py:52-57 | `a - a` is the zero of the field |
| EccLaws.MulCommutative | python/programming_bitcoin/ecc.py:64-69 | `a * b == b * a`, including the failure on different fields |
| EccLaws.MulAssociative | python/programming_bitcoin/ecc.py:64-69 | `(a * b) * c == a * (b * c)` in one field |
| EccLaws.MulOne | python/programming_bitcoin/ecc.py:64-69 | multiplying by the one of a field with at least two elements returns the element |
| EccLaws.MulDistributes | python/programming_bitcoin/ecc.py:44-69 | `a * (b + c) == a * b + a * c` in one field |
| EccLaws.PowPeriodic | python/programming_bitcoin/ecc.py:75-76 | `a ** (e + k * (prime - 1)) == a ** e` for every integer `e` and `k`, negative ones included |
| EccLaws.PowOfMultipleOfOrder | python/programming_bitcoin/ecc.py:75-76 | any element, zero included, raised to a multiple of `prime - 1` is one, because the reduction makes the exponent 0 |
| EccLaws.PowOfZero | python/programming_bitcoin/ecc.py:75-76 | zero to the `e` is one when `prime - 1` divides `e` and zero otherwise |
| EccLaws.ExponentReduction | python/programming_bitcoin/ecc.py:75 | modulo a prime, for nonzero `x`, `x` to the `e` is congruent to `x` to the `e % (p - 1)` |
| EccLaws.PowAgreesWithPower | python/programming_bitcoin/ecc.py:75-76 | for a nonzero element of a prime field and `e >= 0`, `a ** e` is the true power of `num` reduced modulo `prime` |
| EccLaws.PowAdd | python/programming_bitcoin/ecc.py:75-76 | for a nonzero element of a prime field, `a ** e1 * a ** e2 == a ** (e1 + e2)` for all integer exponents |
| EccLaws.PowNegativeIsInverse | python/programming_bitcoin/ecc.py:75-76 | for a nonzero element of a prime field, `a ** -k * a ** k` is one |
| EccLaws.DivTimesDivisor | python/programming_bitcoin/ecc.py:87-91 | in a prime field, `(a / b) * b == a` for nonzero `b` |
| EccLaws.DivUnique | python/programming_bitcoin/ecc.py:87-91 | in a prime field, any `c` with `c * b` congruent to `a` is `a / b`: the quotient is unique |
| EccLaws.DivSelf | python/programming_bitcoin/ecc.py:87-91 | a nonzero element of a prime field divided by itself is one |
| EccLaws.DivIsMulByPowMinusOne | python/programming_bitcoin/ecc.py:75-90 | `a / b == a * b ** -1` in every field with at least two elements: the reduction turns `-1` into Fermat's `p - 2` |
| EccLaws.DivByZero | python/programming_bitcoin/ecc.py:87-90 | the intended formula has no zero check: with `prime >= 3`, dividing by zero gives zero instead of raising |
| EccVectors.ConstructionVectors | tests/test_ecc.py:56-76 | `num` of -1 or 100 with order 2 and the orders -1 and 0 are rejected; `(0, 2)`, `(1, 3)`, `(3, 11)` are accepted |
| EccVectors.NonPrimeModulusAccepted | tests/test_ecc.py:61-64 | the orders 1 and 4, which the test expects to be rejected, pass the constructor's only check |
| EccVectors.EqualityVectors | tests/test_ecc.py:23-39 | each single value equals itself; pairs that differ in `num`, in `prime` or in both are unequal |
| EccVectors.NeVectors | python/tests/test_ecc.py:12-18 | `(2, 31) == (2, 31)` and `(2, 31) != (15, 31)` |
| EccVectors.AddVectors | python/tests/test_ecc.py:22-28 | 2+15=17 and 17+21=7 modulo 31 |
| EccVectors.AddVectorsParametrized | tests/test_ecc.py:126-134 | 2+16=18 and 18+21=8 modulo 31 |
| EccVectors.DifferentFieldVectors | tests/test_ecc.py:136-139 | `+`, `-`, `*` and `/` on the elements `(1, 3)` and `(1, 2)` or `(4, 11)` and `(4, 13)` fail with `DifferentFields` |
| EccVectors.SubVectors | python/tests/test_ecc.py:30-36 | 29-4=25 and 15-30=16 modulo 31 |
| EccVectors.MulVectors | tests/test_ecc.py:166-174 | 24*19=22 and 15*2=30 modulo 31 |
| EccVectors.PowVectors | tests/test_ecc.py:187-196 | 17**3=15 and 15**0=1 modulo 31 |
| EccVectors.PowVectorFourth | tests/test_ecc.py:191 | 15**4=2 modulo 31 |
| EccVectors.PowTimesVector | python/tests/test_ecc.py:46-48 | 5**5 * 18 = 16 modulo 31 |
| EccVectors.PowNegativeVector | python/tests/test_ecc.py:54-55 | 17**-3 = 29 modulo 31, through the reduced exponent 27 |
| EccVectors.DivVector31 | python/tests/test_ecc.py:51-53 | 3/24 = 4 modulo 31 |
| EccVectors.DivVector19 | tests/test_ecc.py:207 | 2/7 = 3 modulo 19 |
| EccVectors.DivVector19Again | tests/test_ecc.py:208 | 7/5 = 9 modulo 19 |

## Left out

- `__repr__` (python/programming_bitcoin/ecc.py:19-21): string formatting only.
- The `isinstance` guards that raise `NotImplementedError` for operands that
  are not field elements, and `**` with an exponent that is not an integer.
  Dafny's static types rule these calls out.
- Type validation and primality checking of `prime`. The code does neither,
  so the model accepts every `prime > num >= 0`. Primality appears only as a
  precondition of the lemmas that need it (Fermat's little theorem and
  division).
- The exception classes and messages. A mismatched field is one outcome,
  `DifferentFields`, whether it surfaces as `TypeError` or `ArithmeticError`.
- The `NotImplementedError` that `-`, `*` and `/` raise after their field
  check. They are modelled with their intended results instead.
- Ecc.Div: the quotient property is stated only for a prime modulus and a
  nonzero divisor. The other cases are covered by `EccLaws.DivByZero` (zero
  divisor, `prime >= 3`) and `EccLaws.DivIsMulByPowMinusOne` (every field).
  With `prime == 2` a zero divisor gives back the dividend, because
  `pow(0, 0, 2)` is 1. With a composite modulus the formula gives no true
  inverse.
- Modular.ModPow: the built-in three-argument `pow` is modelled by its value
  for non-negative exponents only, which are the only ones `**` passes to it.
- Elliptic-curve points and their group law are not part of this model;
  tests/conftest.py (test markers) is not part of this model.
