/** Integer powers and residues: the arithmetic that the field operations are
    built from, and the three-argument built-in `pow` that exponentiation calls.

    Python's `%` rounds the quotient toward minus infinity; for a positive
    modulus, the only kind the field element uses, its result coincides with
    Dafny's Euclidean `%`, so `x % m` below is read as Python's `x % m`. */
module Modular {

  /** `x` and `y` leave the same remainder modulo `m`. */
  predicate Congruent(x: int, y: int, m: int)
    requires m > 0
  {
    (x - y) % m == 0
  }

  /** The integer power `x` to the `n`, with no reduction. */
  function Power(x: int, n: nat): int
  {
    if n == 0 then 1 else x * Power(x, n - 1)
  }

  lemma MulAtLeast(a: int, m: int)
    requires a >= 1 && m > 0
    ensures a * m >= m
  {
    assert a * m == (a - 1) * m + m;
  }

  /** Euclidean division has one quotient and one remainder. */
  lemma ModUnique(x: int, m: int, q: int, r: int)
    requires m > 0 && 0 <= r < m
    requires x == q * m + r
    ensures x % m == r && x / m == q
  {
    var q', r' := x / m, x % m;
    var d := q - q';
    assert q * m - q' * m == d * m;
    assert d * m == r' - r;
    if d >= 1 {
      MulAtLeast(d, m);
    } else if d <= -1 {
      MulAtLeast(-d, m);
    }
  }

  lemma DivMod(x: int, m: int)
    requires m > 0
    ensures x == m * (x / m) + x % m
    ensures x >= 0 ==> x / m >= 0
  {
  }

  lemma MultipleMod(k: int, m: int)
    requires m > 0
    ensures (k * m) % m == 0
  {
    ModUnique(k * m, m, k, 0);
  }

  /** Two numbers are congruent exactly when their remainders agree. */
  lemma CongruentIffSameMod(x: int, y: int, m: int)
    requires m > 0
    ensures Congruent(x, y, m) <==> x % m == y % m
  {
    var d := x - y;
    if x % m == y % m {
      assert d == (x / m - y / m) * m;
      MultipleMod(x / m - y / m, m);
    }
    if d % m == 0 {
      assert x == (y / m + d / m) * m + y % m;
      ModUnique(x, m, y / m + d / m, y % m);
    }
  }

  lemma CongruentRefl(x: int, m: int)
    requires m > 0
    ensures Congruent(x, x, m)
  {
    MultipleMod(0, m);
  }

  lemma CongruentSym(x: int, y: int, m: int)
    requires m > 0 && Congruent(x, y, m)
    ensures Congruent(y, x, m)
  {
    CongruentIffSameMod(x, y, m);
    CongruentIffSameMod(y, x, m);
  }

  lemma CongruentTrans(x: int, y: int, z: int, m: int)
    requires m > 0 && Congruent(x, y, m) && Congruent(y, z, m)
    ensures Congruent(x, z, m)
  {
    CongruentIffSameMod(x, y, m);
    CongruentIffSameMod(y, z, m);
    CongruentIffSameMod(x, z, m);
  }

  /** A remainder is congruent to the number it came from. */
  lemma ModCongruent(x: int, m: int)
    requires m > 0
    ensures Congruent(x % m, x, m)
  {
    assert x % m - x == (-(x / m)) * m;
    MultipleMod(-(x / m), m);
  }

  /** A number in `[0, m)` is its own remainder. */
  lemma ModSmall(x: int, m: int)
    requires m > 0 && 0 <= x < m
    ensures x % m == x
  {
    ModUnique(x, m, 0, x);
  }

  lemma CongruentAdd(x: int, x': int, y: int, y': int, m: int)
    requires m > 0 && Congruent(x, x', m) && Congruent(y, y', m)
    ensures Congruent(x + y, x' + y', m)
  {
    var dx, dy := (x - x') / m, (y - y') / m;
    assert x - x' == dx * m;
    assert y - y' == dy * m;
    assert (x + y) - (x' + y') == (dx + dy) * m;
    MultipleMod(dx + dy, m);
  }

  lemma CongruentNeg(x: int, x': int, m: int)
    requires m > 0 && Congruent(x, x', m)
    ensures Congruent(-x, -x', m)
  {
    var d := (x - x') / m;
    assert x - x' == d * m;
    assert -x - -x' == (-d) * m;
    MultipleMod(-d, m);
  }

  lemma CongruentMul(x: int, x': int, y: int, y': int, m: int)
    requires m > 0 && Congruent(x, x', m) && Congruent(y, y', m)
    ensures Congruent(x * y, x' * y', m)
  {
    var dx, dy := (x - x') / m, (y - y') / m;
    DivMod(x - x', m);
    DivMod(y - y', m);
    ProductExpansion(x, x', y, y', dx, dy, m);
    MultipleMod(x * dy + dx * y', m);
  }

  /** The ring identity behind `CongruentMul`. */
  lemma ProductExpansion(x: int, x': int, y: int, y': int, dx: int, dy: int, m: int)
    requires x - x' == m * dx && y - y' == m * dy
    ensures x * y - x' * y' == (x * dy + dx * y') * m
  {
    calc {
      x * y - x' * y';
      x * (y - y') + (x - x') * y';
      x * (dy * m) + (dx * m) * y';
      (x * dy + dx * y') * m;
    }
  }

  /** Reducing either term before adding does not change the remainder. */
  lemma ModAdd(x: int, y: int, m: int)
    requires m > 0
    ensures (x % m + y % m) % m == (x + y) % m
  {
    ModCongruent(x, m);
    ModCongruent(y, m);
    CongruentAdd(x % m, x, y % m, y, m);
    CongruentIffSameMod(x % m + y % m, x + y, m);
  }

  /** Reducing either factor before multiplying does not change the remainder. */
  lemma ModMul(x: int, y: int, m: int)
    requires m > 0
    ensures (x % m * y) % m == (x * y) % m
    ensures (x * (y % m)) % m == (x * y) % m
  {
    ModCongruent(x, m);
    ModCongruent(y, m);
    CongruentMul(x % m, x, y, y, m);
    CongruentMul(x, x, y % m, y, m);
    CongruentIffSameMod(x % m * y, x * y, m);
    CongruentIffSameMod(x * (y % m), x * y, m);
  }

  lemma {:induction false} PowerAdd(x: int, a: nat, b: nat)
    ensures Power(x, a + b) == Power(x, a) * Power(x, b)
    decreases a
  {
    if a > 0 {
      PowerAdd(x, a - 1, b);
      var rest, pb := Power(x, a - 1), Power(x, b);
      assert Power(x, a + b) == x * (rest * pb);
      assert x * (rest * pb) == (x * rest) * pb;
    }
  }

  lemma {:induction false} PowerMul(x: int, a: nat, b: nat)
    ensures Power(x, a * b) == Power(Power(x, a), b)
    decreases b
  {
    if b > 0 {
      var xa := Power(x, a);
      PowerMul(x, a, b - 1);
      assert a * (b - 1) + a == a * b;
      PowerAdd(x, a * (b - 1), a);
      assert Power(x, a * b) == Power(xa, b - 1) * xa;
      assert Power(xa, b) == xa * Power(xa, b - 1);
    }
  }

  lemma {:induction false} PowerOfOne(n: nat)
    ensures Power(1, n) == 1
  {
    if n > 0 {
      PowerOfOne(n - 1);
    }
  }

  lemma PowerOfZero(n: nat)
    requires n > 0
    ensures Power(0, n) == 0
  {
  }

  /** Congruent bases have congruent powers. */
  lemma {:induction false} PowerCongruent(x: int, x': int, n: nat, m: int)
    requires m > 0 && Congruent(x, x', m)
    ensures Congruent(Power(x, n), Power(x', n), m)
  {
    if n == 0 {
      MultipleMod(0, m);
    } else {
      PowerCongruent(x, x', n - 1, m);
      CongruentMul(x, x', Power(x, n - 1), Power(x', n - 1), m);
    }
  }

  /** The value of the built-in `pow(base, exp, m)` for `m >= 1`, defined as
      the power reduced after every multiplication. `ModPowIsPowerMod` shows
      it is the true power reduced once. */
  function ModPow(base: int, exp: nat, m: int): (r: int)
    requires m >= 1
    ensures 0 <= r < m
  {
    if exp == 0 then 1 % m else (base * ModPow(base, exp - 1, m)) % m
  }

  /** Reducing along the way gives the remainder of the unreduced power. */
  lemma {:induction false} ModPowIsPowerMod(base: int, exp: nat, m: int)
    requires m >= 1
    ensures ModPow(base, exp, m) == Power(base, exp) % m
  {
    if exp > 0 {
      ModPowIsPowerMod(base, exp - 1, m);
      ModMul(base, Power(base, exp - 1), m);
    }
  }

  lemma PowerSquare(x: int, h: nat)
    ensures Power(x, 2 * h) == Power(x * x, h)
  {
    assert Power(x, 1) == x;
    assert Power(x, 2) == x * x;
    PowerMul(x, 2, h);
  }

  /** Raising the reduced square to `h` is raising the base to `2 * h`. */
  lemma ModPowOfSquare(base: int, h: nat, m: int)
    requires m >= 1
    ensures ModPow(base * base % m, h, m) == Power(base, 2 * h) % m
  {
    var sq := base * base;
    ModPowIsPowerMod(sq % m, h, m);
    ModCongruent(sq, m);
    PowerCongruent(sq % m, sq, h, m);
    CongruentIffSameMod(Power(sq % m, h), Power(sq, h), m);
    PowerSquare(base, h);
  }

  /** The two halving steps of square-and-multiply, stated on `ModPow`. */
  lemma ModPowHalve(base: int, exp: nat, m: int)
    requires m >= 1
    ensures exp % 2 == 0 ==> ModPow(base, exp, m) == ModPow(base * base % m, exp / 2, m)
    ensures exp % 2 == 1 ==> ModPow(base, exp, m) == (base * ModPow(base * base % m, exp / 2, m)) % m
  {
    var h := exp / 2;
    ModPowIsPowerMod(base, exp, m);
    ModPowOfSquare(base, h, m);
    if exp % 2 == 1 {
      assert exp == 2 * h + 1;
      assert Power(base, exp) == base * Power(base, 2 * h);
      ModMul(base, Power(base, 2 * h), m);
    } else {
      assert exp == 2 * h;
    }
  }

  /** Exponents add: the power of a sum is the reduced product of powers. */
  lemma ModPowAdd(base: int, e1: nat, e2: nat, m: int)
    requires m >= 1
    ensures ModPow(base, e1 + e2, m) == (ModPow(base, e1, m) * ModPow(base, e2, m)) % m
  {
    ModPowIsPowerMod(base, e1, m);
    ModPowIsPowerMod(base, e2, m);
    ModPowIsPowerMod(base, e1 + e2, m);
    PowerAdd(base, e1, e2);
    ModMul(Power(base, e1), Power(base, e2), m);
    ModMul(Power(base, e1) % m, Power(base, e2), m);
  }

  /** Regrouping a product of three whose partial products are reduced. */
  lemma ModMulRegroup(x: int, y: int, z: int, m: int)
    requires m > 0
    ensures (x * (y * z % m)) % m == (x * y % m * z) % m
  {
    ModMul(x, y * z, m);
    ModMul(x * y, z, m);
    assert x * (y * z) == x * y * z;
  }

  /** Reducing the base first does not change `ModPow`. */
  lemma ModPowOfReduced(base: int, exp: nat, m: int)
    requires m >= 1
    ensures ModPow(base % m, exp, m) == ModPow(base, exp, m)
  {
    ModPowIsPowerMod(base, exp, m);
    ModPowIsPowerMod(base % m, exp, m);
    ModCongruent(base, m);
    PowerCongruent(base % m, base, exp, m);
    CongruentIffSameMod(Power(base % m, exp), Power(base, exp), m);
  }

  /** Multiplying a residue by `1 % m` and reducing leaves it alone. */
  lemma ModMulOne(x: int, m: int)
    requires m >= 1 && 0 <= x < m
    ensures (x * (1 % m)) % m == x && (1 % m * x) % m == x
  {
    if m == 1 {
      assert x == 0;
    } else {
      ModSmall(1, m);
      ModSmall(x, m);
    }
  }

  /** Square-and-multiply over the bits of `exp`, least significant first.
      It computes the same value as the built-in `pow(base, exp, m)`, which
      may scan the bits in another order: only the value is proved equal to
      `ModPow`. */
  method ModPowBySquaring(base: int, exp: nat, m: int) returns (r: int)
    requires m >= 1
    ensures r == ModPow(base, exp, m)
  {
    r := 1 % m;
    var b, e := base % m, exp;
    ModPowOfReduced(base, exp, m);
    ModMulOne(ModPow(b, e, m), m);
    while e > 0
      invariant 0 <= r < m && 0 <= b < m
      invariant (r * ModPow(b, e, m)) % m == ModPow(base, exp, m)
      decreases e
    {
      ModPowHalve(b, e, m);
      if e % 2 == 1 {
        ModMulRegroup(r, b, ModPow(b * b % m, e / 2, m), m);
        r := r * b % m;
      }
      b, e := b * b % m, e / 2;
    }
    ModMulOne(r, m);
  }
}
