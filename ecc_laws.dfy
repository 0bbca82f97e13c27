/** What the field operations of `Ecc` promise when combined: the field laws
    of addition and multiplication, the behaviour of the exponent reduction
    in `Pow`, and the correctness of division by Fermat's inverse.

    Most laws are derived from the operations' contracts alone, through
    `ResidueUnique`: two residues of one modulus that are congruent are
    equal. */
module EccLaws {
  import opened Modular
  import opened Fermat
  import opened Ecc

  /** Two congruent residues of one modulus are the same residue. */
  lemma ResidueUnique(x: int, y: int, m: int)
    requires 0 <= x < m && 0 <= y < m && Congruent(x, y, m)
    ensures x == y
  {
    CongruentIffSameMod(x, y, m);
    ModSmall(x, m);
    ModSmall(y, m);
  }

  // ----- Addition, subtraction, multiplication -----

  lemma AddCommutative(a: FieldElement, b: FieldElement)
    ensures Add(a, b) == Add(b, a)
  {
  }

  lemma AddAssociative(a: FieldElement, b: FieldElement, c: FieldElement)
    requires a.prime == b.prime == c.prime
    ensures Add(a, b).Success? && Add(b, c).Success?
    ensures Add(Add(a, b).value, c) == Add(a, Add(b, c).value)
  {
    var p := a.prime;
    var ab, bc := Add(a, b).value, Add(b, c).value;
    var left, right := Add(ab, c).value, Add(a, bc).value;
    CongruentRefl(a.num, p);
    CongruentRefl(c.num, p);
    CongruentAdd(ab.num, a.num + b.num, c.num, c.num, p);
    CongruentTrans(left.num, ab.num + c.num, a.num + b.num + c.num, p);
    CongruentAdd(a.num, a.num, bc.num, b.num + c.num, p);
    CongruentTrans(right.num, a.num + bc.num, a.num + b.num + c.num, p);
    CongruentSym(right.num, a.num + b.num + c.num, p);
    CongruentTrans(left.num, a.num + b.num + c.num, right.num, p);
    ResidueUnique(left.num, right.num, p);
  }

  /** Zero is the additive identity. */
  lemma AddZero(a: FieldElement)
    ensures Add(a, FE(0, a.prime)) == Success(a)
  {
    ResidueUnique(Add(a, FE(0, a.prime)).value.num, a.num, a.prime);
  }

  /** Subtraction undoes addition. */
  lemma SubThenAdd(a: FieldElement, b: FieldElement)
    requires a.prime == b.prime
    ensures Sub(a, b).Success?
    ensures Add(Sub(a, b).value, b) == Success(a)
  {
    var p := a.prime;
    var d := Sub(a, b).value;
    var s := Add(d, b).value;
    CongruentRefl(b.num, p);
    CongruentAdd(d.num, a.num - b.num, b.num, b.num, p);
    CongruentTrans(s.num, d.num + b.num, a.num, p);
    ResidueUnique(s.num, a.num, p);
  }

  /** An element minus itself is zero. */
  lemma SubSelf(a: FieldElement)
    ensures Sub(a, a) == Success(FE(0, a.prime))
  {
    ResidueUnique(Sub(a, a).value.num, 0, a.prime);
  }

  lemma MulCommutative(a: FieldElement, b: FieldElement)
    ensures Mul(a, b) == Mul(b, a)
  {
  }

  lemma MulAssociative(a: FieldElement, b: FieldElement, c: FieldElement)
    requires a.prime == b.prime == c.prime
    ensures Mul(a, b).Success? && Mul(b, c).Success?
    ensures Mul(Mul(a, b).value, c) == Mul(a, Mul(b, c).value)
  {
    ModMulRegroup(a.num, b.num, c.num, a.prime);
  }

  /** One is the multiplicative identity of every field with two or more
      elements. */
  lemma MulOne(a: FieldElement)
    requires a.prime >= 2
    ensures Mul(a, FE(1, a.prime)) == Success(a)
  {
    ResidueUnique(Mul(a, FE(1, a.prime)).value.num, a.num, a.prime);
  }

  /** Multiplication distributes over addition. */
  lemma MulDistributes(a: FieldElement, b: FieldElement, c: FieldElement)
    requires a.prime == b.prime == c.prime
    ensures Add(b, c).Success? && Mul(a, b).Success? && Mul(a, c).Success?
    ensures Mul(a, Add(b, c).value) == Add(Mul(a, b).value, Mul(a, c).value)
  {
    var p, x, y, z := a.prime, a.num, b.num, c.num;
    assert Add(b, c).value.num == (y + z) % p;
    assert Mul(a, b).value.num == (x * y) % p && Mul(a, c).value.num == (x * z) % p;
    ModMul(x, y + z, p);
    assert x * (y + z) == x * y + x * z;
    ModAdd(x * y, x * z, p);
  }

  // ----- Exponentiation -----

  /** The exponent only matters modulo `prime - 1`: adding any multiple of
      `prime - 1` to it, positive or negative, changes nothing. */
  lemma PowPeriodic(a: FieldElement, e: int, k: int)
    requires a.prime >= 2
    ensures Pow(a, e + k * (a.prime - 1)) == Pow(a, e)
  {
    var m := a.prime - 1;
    MultipleMod(k, m);
    CongruentIffSameMod(e + k * m, e, m);
  }

  /** Any element, zero included, raised to a multiple of `prime - 1` is
      one: the reduction turns the exponent into 0 before `pow` sees it. */
  lemma PowOfMultipleOfOrder(a: FieldElement, k: int)
    requires a.prime >= 2
    ensures Pow(a, k * (a.prime - 1)) == Success(FE(1, a.prime))
  {
    MultipleMod(k, a.prime - 1);
    ResidueUnique(Pow(a, k * (a.prime - 1)).value.num, 1, a.prime);
  }

  /** Zero raised to `e` is one when `e` is a multiple of `prime - 1`
      (including `e == 0`) and zero otherwise. */
  lemma PowOfZero(p: int, e: int)
    requires p >= 2
    ensures Pow(FE(0, p), e) == Success(FE(if e % (p - 1) == 0 then 1 else 0, p))
  {
    var n := e % (p - 1);
    var r := Pow(FE(0, p), e).value;
    if n == 0 {
      ResidueUnique(r.num, 1, p);
    } else {
      PowerOfZero(n);
      ResidueUnique(r.num, 0, p);
    }
  }

  /** In a prime field, `x` to the `e` is congruent to `x` to the
      `e % (p - 1)` for nonzero `x`, by Fermat's little theorem. */
  lemma ExponentReduction(p: int, x: int, e: nat)
    requires IsPrime(p) && 0 < x < p
    ensures Congruent(Power(x, e), Power(x, e % (p - 1)), p)
  {
    var m := p - 1;
    DivMod(e, m);
    var q: nat, r := e / m, e % m;
    var f, tail := Power(x, m), Power(x, r);
    assert e == m * q + r;
    PowerAdd(x, m * q, r);
    PowerMul(x, m, q);
    assert Power(x, e) == Power(f, q) * tail;
    // f is congruent to 1, hence so is f^q
    FermatLittle(p, x);
    ModCongruent(f, p);
    CongruentSym(1, f, p);
    PowerCongruent(f, 1, q, p);
    PowerOfOne(q);
    CongruentRefl(tail, p);
    CongruentMul(Power(f, q), 1, tail, tail, p);
    assert 1 * tail == tail;
  }

  /** For a nonzero element of a prime field and a non-negative exponent,
      the reduction is sound: `Pow` is the true power, reduced. */
  lemma PowAgreesWithPower(a: FieldElement, e: nat)
    requires IsPrime(a.prime) && a.num != 0
    ensures Pow(a, e).Success? && Pow(a, e).value.num == Power(a.num, e) % a.prime
  {
    var p := a.prime;
    var r := Pow(a, e).value;
    ExponentReduction(p, a.num, e);
    CongruentSym(Power(a.num, e), Power(a.num, e % (p - 1)), p);
    CongruentTrans(r.num, Power(a.num, e % (p - 1)), Power(a.num, e), p);
    ModCongruent(Power(a.num, e), p);
    CongruentSym(Power(a.num, e) % p, Power(a.num, e), p);
    CongruentTrans(r.num, Power(a.num, e), Power(a.num, e) % p, p);
    ResidueUnique(r.num, Power(a.num, e) % p, p);
  }

  /** For a nonzero element of a prime field, exponents add under
      multiplication, for all integer exponents, negative ones included. */
  lemma PowAdd(a: FieldElement, e1: int, e2: int)
    requires IsPrime(a.prime) && a.num != 0
    ensures Pow(a, e1).Success? && Pow(a, e2).Success?
    ensures Mul(Pow(a, e1).value, Pow(a, e2).value) == Pow(a, e1 + e2)
  {
    var p, m, x := a.prime, a.prime - 1, a.num;
    var r1, r2, r := e1 % m, e2 % m, (e1 + e2) % m;
    var u, v, w := Pow(a, e1).value, Pow(a, e2).value, Pow(a, e1 + e2).value;
    var prod := Mul(u, v).value;
    // the product is congruent to x^(r1 + r2)
    CongruentMul(u.num, Power(x, r1), v.num, Power(x, r2), p);
    PowerAdd(x, r1, r2);
    CongruentTrans(prod.num, u.num * v.num, Power(x, r1 + r2), p);
    // and r1 + r2 reduces to the same exponent as e1 + e2
    ExponentReduction(p, x, r1 + r2);
    ModCongruent(e1, m);
    ModCongruent(e2, m);
    CongruentAdd(r1, e1, r2, e2, m);
    CongruentIffSameMod(r1 + r2, e1 + e2, m);
    CongruentTrans(prod.num, Power(x, r1 + r2), Power(x, r), p);
    CongruentSym(w.num, Power(x, r), p);
    CongruentTrans(prod.num, Power(x, r), w.num, p);
    ResidueUnique(prod.num, w.num, p);
  }

  /** A negative exponent gives the inverse: `a ** -k` times `a ** k` is one. */
  lemma PowNegativeIsInverse(a: FieldElement, k: int)
    requires IsPrime(a.prime) && a.num != 0
    ensures Pow(a, -k).Success? && Pow(a, k).Success?
    ensures Mul(Pow(a, -k).value, Pow(a, k).value) == Success(FE(1, a.prime))
  {
    PowAdd(a, -k, k);
    PowOfMultipleOfOrder(a, 0);
  }

  // ----- Division -----

  /** The quotient times the divisor is the dividend. */
  lemma DivTimesDivisor(a: FieldElement, b: FieldElement)
    requires a.prime == b.prime && IsPrime(a.prime) && b.num != 0
    ensures Div(a, b).Success?
    ensures Mul(Div(a, b).value, b) == Success(a)
  {
    var p := a.prime;
    var q := Div(a, b).value;
    var back := Mul(q, b).value;
    CongruentTrans(back.num, q.num * b.num, a.num, p);
    ResidueUnique(back.num, a.num, p);
  }

  /** The quotient is the only element that gives back the dividend. */
  lemma DivUnique(a: FieldElement, b: FieldElement, c: FieldElement)
    requires a.prime == b.prime == c.prime && IsPrime(a.prime) && b.num != 0
    requires Congruent(c.num * b.num, a.num, a.prime)
    ensures Div(a, b) == Success(c)
  {
    var p := a.prime;
    var q := Div(a, b).value;
    CongruentSym(q.num * b.num, a.num, p);
    CongruentTrans(c.num * b.num, a.num, q.num * b.num, p);
    CancelFactor(p, b.num, c.num, q.num);
  }

  /** A nonzero element divided by itself is one. */
  lemma DivSelf(a: FieldElement)
    requires IsPrime(a.prime) && a.num != 0
    ensures Div(a, a) == Success(FE(1, a.prime))
  {
    CongruentRefl(a.num, a.prime);
    DivUnique(a, a, FE(1, a.prime));
  }

  /** Division is multiplication by the divisor to the power -1: the
      exponent reduction of `Pow` turns -1 into `p - 2`, Fermat's exponent. */
  lemma DivIsMulByPowMinusOne(a: FieldElement, b: FieldElement)
    requires a.prime == b.prime && a.prime >= 2
    ensures Pow(b, -1).Success?
    ensures Div(a, b) == Mul(a, Pow(b, -1).value)
  {
    var p := a.prime;
    ModUnique(-1, p - 1, -1, p - 2);
  }

  /** The intended formula has no zero check: in a field with more than two
      elements, dividing by zero gives zero instead of failing. */
  lemma DivByZero(a: FieldElement)
    requires a.prime >= 3
    ensures Div(a, FE(0, a.prime)) == Success(FE(0, a.prime))
  {
    var p := a.prime;
    assert ModPow(0, p - 2, p) == 0;
    assert (a.num * FermatInverse(0, p)) % p == 0;
  }
}
