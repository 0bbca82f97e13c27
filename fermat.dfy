/** Fermat's little theorem: for a prime `p` and `0 < x < p`,
    `x` to the `p - 1` leaves remainder 1 modulo `p`. Division in the field
    rests on it (the inverse of `n` is `n` to the `p - 2`), and so does the
    reduction of exponents modulo `p - 1`.

    The proof goes through the binomial theorem: every middle coefficient
    of `(x + 1)` to the `p` is a multiple of `p`, so `x` to the `p` is congruent
    to `x`, and Euclid's lemma cancels one factor `x`. */
module Fermat {
  import opened Modular

  predicate Divides(d: int, n: int)
    requires d != 0
  {
    n % d == 0
  }

  /** `p` has no divisor strictly between 1 and itself. */
  predicate IsPrime(p: int)
  {
    p >= 2 && forall d :: 1 < d < p ==> !Divides(d, p)
  }

  /** Euclid's lemma: a prime dividing a product with a factor in `(0, p)`
      divides the other factor. The induction replaces `a` by `p % a`. */
  lemma {:induction false} EuclidLemma(p: int, a: int, b: int)
    requires IsPrime(p) && 0 < a < p && (a * b) % p == 0
    ensures b % p == 0
    decreases a
  {
    if a > 1 {
      var q, r := p / a, p % a;
      assert p == q * a + r;
      if r == 0 {
        assert Divides(a, p);
        assert false;
      } else {
        assert r * b == p * b - q * (a * b);
        MultipleMod(b, p);
        assert Congruent(a * b, 0, p);
        CongruentMul(q, q, a * b, 0, p);
        CongruentNeg(q * (a * b), 0, p);
        CongruentAdd(p * b, 0, -(q * (a * b)), 0, p);
        EuclidLemma(p, r, b);
      }
    }
  }

  /** A nonzero factor cancels from both sides of a congruence modulo a
      prime; for residues, the two sides are then equal. */
  lemma CancelFactor(p: int, n: int, x: int, y: int)
    requires IsPrime(p) && 0 < n < p && 0 <= x < p && 0 <= y < p
    requires Congruent(x * n, y * n, p)
    ensures x == y
  {
    assert x * n - y * n == n * (x - y);
    EuclidLemma(p, n, x - y);
    CongruentIffSameMod(x, y, p);
    ModSmall(x, p);
    ModSmall(y, p);
  }

  /** The binomial coefficient, by Pascal's rule. */
  function Binom(n: nat, k: nat): nat
  {
    if k == 0 then 1 else if n == 0 then 0 else Binom(n - 1, k - 1) + Binom(n - 1, k)
  }

  lemma {:induction false} BinomAbove(n: nat, k: nat)
    requires k > n
    ensures Binom(n, k) == 0
  {
    if n > 0 {
      BinomAbove(n - 1, k - 1);
      BinomAbove(n - 1, k);
    }
  }

  lemma {:induction false} BinomDiag(n: nat)
    ensures Binom(n, n) == 1
  {
    if n > 0 {
      BinomDiag(n - 1);
      BinomAbove(n - 1, n);
    }
  }

  lemma {:induction false} BinomOne(n: nat)
    ensures Binom(n, 1) == n
  {
    if n > 0 {
      BinomOne(n - 1);
    }
  }

  /** The absorption identity `k * C(n, k) == n * C(n - 1, k - 1)`. */
  lemma {:induction false} BinomAbsorb(n: nat, k: nat)
    requires n >= 1 && k >= 1
    ensures k * Binom(n, k) == n * Binom(n - 1, k - 1)
    decreases n
  {
    if k == 1 {
      BinomOne(n);
    } else if n == 1 {
      BinomAbove(0, k - 1);
      BinomAbove(0, k);
    } else {
      BinomAbsorb(n - 1, k - 1);
      BinomAbsorb(n - 1, k);
      AbsorbAlgebra(n, k, Binom(n - 1, k - 1), Binom(n - 1, k), Binom(n - 2, k - 2), Binom(n - 2, k - 1));
    }
  }

  /** The ring identity behind one step of `BinomAbsorb`. */
  lemma AbsorbAlgebra(n: int, k: int, left: int, right: int, a: int, b: int)
    requires left == a + b
    requires (k - 1) * left == (n - 1) * a && k * right == (n - 1) * b
    ensures k * (left + right) == n * left
  {
    calc {
      k * (left + right);
      (k - 1) * left + left + k * right;
      (n - 1) * a + left + (n - 1) * b;
      (n - 1) * (a + b) + left;
    }
  }

  /** A prime divides each of its middle binomial coefficients. */
  lemma PrimeDividesBinom(p: int, k: nat)
    requires IsPrime(p) && 0 < k < p
    ensures Binom(p, k) % p == 0
  {
    var c, d := Binom(p, k), Binom(p - 1, k - 1);
    BinomAbsorb(p, k);
    assert k * c == d * p;
    MultipleMod(d, p);
    EuclidLemma(p, k, c);
  }

  /** The first `j` terms of the expansion of `(x + 1)` to the `n`. */
  function BinomSum(n: nat, x: int, j: nat): int
  {
    if j == 0 then 0 else BinomSum(n, x, j - 1) + Binom(n, j - 1) * Power(x, j - 1)
  }

  /** Pascal's rule lifted to partial sums. */
  lemma {:induction false} BinomSumStep(n: nat, x: int, j: nat)
    ensures BinomSum(n + 1, x, j + 1) == x * BinomSum(n, x, j) + BinomSum(n, x, j + 1)
  {
    if j > 0 {
      BinomSumStep(n, x, j - 1);
      var pw := Power(x, j - 1);
      var prev, lo, hi := BinomSum(n, x, j - 1), Binom(n, j - 1), Binom(n, j);
      assert Binom(n + 1, j) == lo + hi;
      assert Power(x, j) == x * pw;
      StepAlgebra(x, prev, lo, hi, pw);
    }
  }

  /** The ring identity behind one step of `BinomSumStep`. */
  lemma StepAlgebra(x: int, prev: int, lo: int, hi: int, pw: int)
    ensures x * prev + (prev + lo * pw) + (lo + hi) * (x * pw)
         == x * (prev + lo * pw) + ((prev + lo * pw) + hi * (x * pw))
  {
  }

  /** The binomial theorem for `(x + 1)` to the `n`. */
  lemma {:induction false} BinomialTheorem(x: int, n: nat)
    ensures Power(x + 1, n) == BinomSum(n, x, n + 1)
  {
    if n > 0 {
      BinomialTheorem(x, n - 1);
      BinomSumStep(n - 1, x, n);
      BinomAbove(n - 1, n);
      assert BinomSum(n - 1, x, n + 1) == BinomSum(n - 1, x, n);
    }
  }

  /** All but the constant term of the first `j` terms vanish modulo `p`. */
  lemma {:induction false} BinomSumModPrime(p: int, x: int, j: nat)
    requires IsPrime(p) && 1 <= j <= p
    ensures Congruent(BinomSum(p, x, j), 1, p)
  {
    if j == 1 {
      assert BinomSum(p, x, 1) == 1;
      MultipleMod(0, p);
    } else {
      BinomSumModPrime(p, x, j - 1);
      PrimeDividesBinom(p, j - 1);
      assert Congruent(Binom(p, j - 1), 0, p);
      MultipleMod(0, p);
      CongruentMul(Binom(p, j - 1), 0, Power(x, j - 1), Power(x, j - 1), p);
      CongruentAdd(BinomSum(p, x, j - 1), 1, Binom(p, j - 1) * Power(x, j - 1), 0, p);
    }
  }

  /** `(x + 1)` to the `p` is congruent to `x` to the `p`, plus 1. */
  lemma FreshmansDream(p: int, x: int)
    requires IsPrime(p)
    ensures Congruent(Power(x + 1, p), Power(x, p) + 1, p)
  {
    BinomialTheorem(x, p);
    BinomDiag(p);
    BinomSumModPrime(p, x, p);
    MultipleMod(0, p);
    CongruentAdd(BinomSum(p, x, p), 1, Power(x, p), Power(x, p), p);
  }

  /** `x` to the `p` is congruent to `x`. */
  lemma {:induction false} FermatPower(p: int, x: nat)
    requires IsPrime(p)
    ensures Congruent(Power(x, p), x, p)
  {
    if x == 0 {
      PowerOfZero(p);
      MultipleMod(0, p);
    } else {
      FermatPower(p, x - 1);
      FreshmansDream(p, x - 1);
      MultipleMod(0, p);
      CongruentAdd(Power(x - 1, p), x - 1, 1, 1, p);
      CongruentTrans(Power(x, p), Power(x - 1, p) + 1, x, p);
    }
  }

  /** Fermat's little theorem. */
  lemma FermatLittle(p: int, x: int)
    requires IsPrime(p) && 0 < x < p
    ensures Power(x, p - 1) % p == 1
  {
    var e := Power(x, p - 1);
    FermatPower(p, x);
    assert Power(x, p) == x * e;
    assert x * e - x == x * (e - 1);
    EuclidLemma(p, x, e - 1);
    CongruentIffSameMod(e, 1, p);
    ModSmall(1, p);
  }
}
