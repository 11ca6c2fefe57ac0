/**
 * Fast modular exponentiation, the extended Euclidean algorithm and the
 * modular inverse built on it (RSA/main.py, `mod_pow`, `extended_gcd`,
 * `mod_inverse`).
 */
module ModularArithmetic {
  import opened NumberTheory
  import opened Wrappers

  /** The reasons `mod_inverse` fails: `ValueError` when gcd(e, phi) != 1,
      `ZeroDivisionError` from `x % phi` when phi = 0. */
  datatype Error = NoInverseExists | DivisionByZero

  /**
   * The value `mod_pow(a, exp, mod)` returns: a^exp mod `mod` for a positive
   * exponent, and 1 when the exponent is zero or negative (the loop never
   * runs), even for `mod` = 1.
   */
  function ModPowValue(a: int, exp: int, mod: int): (r: nat)
    requires mod >= 1
    ensures exp > 0 ==> r < mod
  {
    if exp <= 0 then 1 else Pow(a, exp) % mod
  }

  /** One square-and-multiply step keeps res * base^e fixed modulo m. */
  lemma ModPowStep(res: int, b: int, e: nat, m: int)
    requires m >= 1 && e > 0
    ensures ((if e % 2 == 1 then (res * b) % m else res) * Pow((b * b) % m, e / 2)) % m
            == (res * Pow(b, e)) % m
  {
    var h := e / 2;
    PowMod(b * b, h, m);
    PowSquare(b, h);
    if e % 2 == 1 {
      assert e == 2 * h + 1;
      OddStep(res, b, h, Pow(b * b, h), Pow((b * b) % m, h), m);
    } else {
      assert e == 2 * h;
      MulModCongruent(res, res, Pow((b * b) % m, h), Pow(b * b, h), m);
    }
  }

  lemma OddStep(res: int, b: int, h: nat, p: int, p': int, m: int)
    requires m >= 1 && p == Pow(b, 2 * h) && p' % m == p % m
    ensures (((res * b) % m) * p') % m == (res * Pow(b, 2 * h + 1)) % m
  {
    assert Pow(b, 2 * h + 1) == b * p;
    ModMod(res * b, m);
    MulModCongruent((res * b) % m, res * b, p', p, m);
    MulAssoc(res, b, p);
  }

  /** `mod_pow`: binary square-and-multiply exponentiation. */
  method ModPow(a: int, exp: int, mod: int) returns (res: int)
    requires mod >= 1
    ensures res == ModPowValue(a, exp, mod)
  {
    res := 1;
    var b := a % mod;
    var e := exp;
    if exp > 0 {
      PowMod(a, exp, mod);
    }
    while e > 0
      invariant 0 <= b < mod
      invariant exp <= 0 ==> e == exp && res == 1
      invariant exp > 0 ==> 0 <= e && 0 <= res && (e > 0 || res < mod)
      invariant exp > 0 ==> (res * Pow(b, e)) % mod == Pow(a, exp) % mod
    {
      ModPowStep(res, b, e, mod);
      if e % 2 == 1 {
        res := (res * b) % mod;
      }
      b := (b * b) % mod;
      e := e / 2;
    }
    if exp > 0 {
      ModSmall(res, mod);
    }
  }

  /**
   * `extended_gcd(a, b)`: returns (g, x, y) with g a common divisor of a and b
   * and a*x + b*y = g, so that g is their greatest common divisor
   * (GcdIsGreatest).
   */
  function ExtendedGcd(a: nat, b: nat): (r: (nat, int, int))
    ensures Divides(r.0, a) && Divides(r.0, b)
    ensures a * r.1 + b * r.2 == r.0
    decreases a
  {
    if a == 0 then
      DividesIntro(b, 0, 0);
      DividesIntro(b, b, 1);
      (b, 0, 1)
    else
      var (g, x1, y1) := ExtendedGcd(b % a, a);
      var q := b / a;
      BezoutStep(a, b, q, b % a, x1, y1);
      DividesLinear(g, a, b % a, q, 1);
      (g, y1 - q * x1, x1)
  }

  lemma BezoutStep(a: int, b: int, q: int, r: int, x: int, y: int)
    requires b == a * q + r
    ensures a * q * 1 + r * 1 == b
    ensures a * (y - q * x) + b * x == r * x + a * y
  {
  }

  /** Every common divisor of a and b divides the g that `extended_gcd` returns. */
  lemma GcdIsGreatest(a: nat, b: nat, c: nat)
    requires Divides(c, a) && Divides(c, b)
    ensures Divides(c, ExtendedGcd(a, b).0)
    ensures ExtendedGcd(a, b).0 > 0 ==> c <= ExtendedGcd(a, b).0
  {
    var (g, x, y) := ExtendedGcd(a, b);
    DividesLinear(c, a, b, x, y);
    if g > 0 {
      if c == 0 {
      } else {
        DivisorBound(c, g);
      }
    }
  }

  /** d is a multiplicative inverse of e modulo m. */
  predicate IsInverse(e: int, d: int, m: nat)
    requires m > 0
  {
    (e * d) % m == 1 % m
  }

  /** When e and m share a divisor g != 1, e has no inverse modulo m. */
  lemma NoInverseWithoutCoprimality(e: nat, m: nat, g: nat)
    requires m > 0 && Divides(g, e) && Divides(g, m) && g != 1
    ensures forall d :: !IsInverse(e, d, m)
  {
    forall d
      ensures !IsInverse(e, d, m)
    {
      if IsInverse(e, d, m) {
        if m == 1 {
          DivisorBound(g, 1);
        } else {
          ModSmall(1, m);
          ModEqIffDivides(e * d, 1, m);
          DividesTrans(g, m, e * d - 1);
          DividesLinear(g, e, e * d - 1, d, -1);
          assert e * d + (e * d - 1) * -1 == 1;
          DivisorBound(g, 1);
        }
      }
    }
  }

  /**
   * `mod_inverse(e, phi)`: the inverse of e modulo phi, reduced into [0, phi),
   * or the error Python raises. It fails with NoInverseExists exactly when no
   * inverse exists (for phi > 0).
   */
  function ModInverse(e: nat, phi: nat): (r: Result<nat, Error>)
    ensures r.Success? ==> r.value < phi && IsInverse(e, r.value, phi)
    ensures r.Failure? && phi > 0 ==> r.error == NoInverseExists && forall d :: !IsInverse(e, d, phi)
    ensures r.Failure? && r.error == DivisionByZero ==> phi == 0 && e == 1
    ensures phi == 0 ==> r.Failure?
  {
    var (g, x, _) := ExtendedGcd(e, phi);
    if g != 1 then
      if phi > 0 then
        NoInverseWithoutCoprimality(e, phi, g);
        Failure(NoInverseExists)
      else
        Failure(NoInverseExists)
    else if phi == 0 then
      // gcd(e, 0) = 1 forces e = 1; Python then fails on `x % 0`.
      Failure(DivisionByZero)
    else
      var d := x % phi;
      ModMod(x, phi);
      MulModCongruent(e, e, d, x, phi);
      ModOfMulAdd(phi, ExtendedGcd(e, phi).2, e * x);
      assert phi * ExtendedGcd(e, phi).2 + e * x == 1;
      Success(d)
  }
}
