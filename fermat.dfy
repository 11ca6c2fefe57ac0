/**
 * Fermat's little theorem and the fact that 1 has only the square roots 1
 * and -1 modulo a prime. These are what make a prime pass every Miller-Rabin
 * round and what make RSA decryption undo encryption. Euclid's lemma comes
 * from the Bezout identity of `ExtendedGcd`; the congruence
 * (x + 1)^p = x^p + 1 (mod p) comes from the binomial theorem.
 */
module Fermat {
  import opened NumberTheory
  import opened ModularArithmetic

  /** Euclid's lemma: a prime dividing a product divides one of the factors. */
  lemma EuclidLemma(p: nat, a: int, b: int)
    requires Prime(p) && Divides(p, a * b)
    ensures Divides(p, a) || Divides(p, b)
  {
    if !Divides(p, a) {
      var r := a % p;
      var (g, x, y) := ExtendedGcd(r, p);
      assert 0 < r < p;
      DivisorBound(g, r);
      assert !(1 < g < p);
      assert g == 1;
      assert r * x + p * y == 1;
      // p divides a*b - r*b = p*(a/p)*b, hence r*b
      var t := a / p;
      EuclidArithmetic(a, b, p, t, r, x, y);
      DividesIntro(p, a * b - r * b, t * b);
      DividesLinear(p, a * b, a * b - r * b, 1, -1);
      // b = (r*b)*x + p*(b*y)
      DividesIntro(p, p, 1);
      DividesLinear(p, r * b, p, x, b * y);
    }
  }

  lemma EuclidArithmetic(a: int, b: int, p: int, t: int, r: int, x: int, y: int)
    requires a == p * t + r && r * x + p * y == 1
    ensures a * b - r * b == p * (t * b)
    ensures a * b * 1 + (a * b - r * b) * -1 == r * b
    ensures r * b * x + p * (b * y) == b
  {
    assert r * b * x + p * (b * y) == b * (r * x + p * y);
  }

  /** Two distinct primes that both divide v: their product divides v. */
  lemma ProductOfPrimesDivides(p: nat, q: nat, v: int)
    requires Prime(p) && Prime(q) && p != q && Divides(p, v) && Divides(q, v)
    ensures Divides(p * q, v)
  {
    var u := DividesElim(p, v);
    EuclidLemma(q, p, u);
    if Divides(q, p) {
      DivisorBound(q, p);
      assert false;
    }
    var w := DividesElim(q, u);
    assert v == (p * q) * w;
    DividesIntro(p * q, v, w);
  }

  /** Binomial coefficient n choose k, by Pascal's rule. */
  function Binom(n: nat, k: nat): nat
  {
    if k == 0 then 1 else if n == 0 then 0 else Binom(n - 1, k - 1) + Binom(n - 1, k)
  }

  lemma {:induction false} BinomBeyond(n: nat, k: nat)
    requires k > n
    ensures Binom(n, k) == 0
  {
    if n > 0 {
      BinomBeyond(n - 1, k - 1);
      BinomBeyond(n - 1, k);
    }
  }

  lemma {:induction false} BinomDiagonal(n: nat)
    ensures Binom(n, n) == 1
  {
    if n > 0 {
      BinomDiagonal(n - 1);
      BinomBeyond(n - 1, n);
    }
  }

  lemma {:induction false} BinomOne(n: nat)
    ensures Binom(n, 1) == n
  {
    if n > 0 {
      BinomOne(n - 1);
    }
  }

  /** k * C(n, k) = n * C(n - 1, k - 1). */
  lemma {:induction false} BinomAbsorb(n: nat, k: nat)
    requires 1 <= k <= n
    ensures k * Binom(n, k) == n * Binom(n - 1, k - 1)
  {
    if k == 1 {
      BinomOne(n);
    } else {
      var a, b := Binom(n - 1, k - 1), Binom(n - 1, k);
      BinomAbsorb(n - 1, k - 1);
      // (k-1) * a == (n-1) * C(n-2, k-2)
      var c, d := Binom(n - 2, k - 2), Binom(n - 2, k - 1);
      assert a == c + d;
      if k <= n - 1 {
        BinomAbsorb(n - 1, k);
        assert k * b == (n - 1) * d;
      } else {
        BinomBeyond(n - 1, k);
        BinomBeyond(n - 2, k - 1);
        assert k * b == (n - 1) * d;
      }
      assert (k - 1) * a == (n - 1) * c;
      AbsorbArithmetic(n, k, a, b, c, d);
    }
  }

  lemma AbsorbArithmetic(n: int, k: int, a: int, b: int, c: int, d: int)
    requires (k - 1) * a == (n - 1) * c && k * b == (n - 1) * d && a == c + d
    ensures k * (a + b) == n * a
  {
    calc {
      k * (a + b);
      (k - 1) * a + a + k * b;
      (n - 1) * c + a + (n - 1) * d;
      (n - 1) * (c + d) + a;
      n * a;
    }
  }

  /** A prime p divides C(p, k) for 0 < k < p. */
  lemma PrimeDividesBinom(p: nat, k: nat)
    requires Prime(p) && 0 < k < p
    ensures Divides(p, Binom(p, k))
  {
    BinomAbsorb(p, k);
    DividesIntro(p, k * Binom(p, k), Binom(p - 1, k - 1));
    EuclidLemma(p, k, Binom(p, k));
    if Divides(p, k) {
      SmallMultiple(p, k);
    }
  }

  /** The first k terms of the expansion of (x + 1)^n: sum of C(n, j) * x^j for j < k. */
  function BinomialSum(n: nat, x: int, k: nat): int
  {
    if k == 0 then 0 else BinomialSum(n, x, k - 1) + Binom(n, k - 1) * Pow(x, k - 1)
  }

  lemma {:induction false} PascalSum(n: nat, x: int, k: nat)
    ensures BinomialSum(n + 1, x, k + 1) == BinomialSum(n, x, k + 1) + x * BinomialSum(n, x, k)
  {
    if k > 0 {
      PascalSum(n, x, k - 1);
      var t, t' := BinomialSum(n, x, k), BinomialSum(n, x, k - 1);
      var c, c' := Binom(n, k), Binom(n, k - 1);
      var pk, pk' := Pow(x, k), Pow(x, k - 1);
      assert pk == x * pk';
      assert Binom(n + 1, k) == c' + c;
      assert BinomialSum(n + 1, x, k + 1) == t + x * t' + (c' + c) * pk;
      PascalArithmetic(x, t, t', c, c', pk, pk');
      assert BinomialSum(n, x, k + 1) == t + c * pk;
      assert t == t' + c' * pk';
    }
  }

  lemma PascalArithmetic(x: int, t: int, t': int, c: int, c': int, pk: int, pk': int)
    requires pk == x * pk'
    ensures t + x * t' + (c' + c) * pk == (t + c * pk) + x * (t' + c' * pk')
  {
    assert c' * pk == x * (c' * pk');
  }

  /** The binomial theorem: (x + 1)^n = sum of C(n, j) * x^j for j <= n. */
  lemma {:induction false} BinomialTheorem(n: nat, x: int)
    ensures Pow(x + 1, n) == BinomialSum(n, x, n + 1)
  {
    if n > 0 {
      var m := n - 1;
      BinomialTheorem(m, x);
      PascalSum(m, x, m + 1);
      BinomBeyond(m, m + 1);
      assert BinomialSum(m, x, m + 2) == BinomialSum(m, x, m + 1);
      calc {
        Pow(x + 1, n);
        (x + 1) * BinomialSum(m, x, m + 1);
        BinomialSum(m, x, m + 1) + x * BinomialSum(m, x, m + 1);
        BinomialSum(n, x, n + 1);
      }
    }
  }

  lemma {:induction false} InnerTermsVanish(p: nat, x: int, k: nat)
    requires Prime(p) && 1 <= k <= p
    ensures Divides(p, BinomialSum(p, x, k) - 1)
  {
    if k == 1 {
      DividesIntro(p, 0, 0);
    } else {
      InnerTermsVanish(p, x, k - 1);
      PrimeDividesBinom(p, k - 1);
      DividesLinear(p, BinomialSum(p, x, k - 1) - 1, Binom(p, k - 1), 1, Pow(x, k - 1));
    }
  }

  /** (x + 1)^p = x^p + 1 modulo a prime p. */
  lemma FreshmansDream(p: nat, x: int)
    requires Prime(p)
    ensures Divides(p, Pow(x + 1, p) - Pow(x, p) - 1)
  {
    BinomialTheorem(p, x);
    BinomDiagonal(p);
    InnerTermsVanish(p, x, p);
    assert BinomialSum(p, x, p + 1) == BinomialSum(p, x, p) + Pow(x, p);
  }

  /** Fermat's little theorem, first form: p divides a^p - a. */
  lemma {:induction false} FermatDivides(p: nat, a: nat)
    requires Prime(p)
    ensures Divides(p, Pow(a, p) - a)
  {
    if a == 0 {
      PowMonotone(1, 0, 0);
      assert Pow(0, p) == 0;
      DividesIntro(p, 0, 0);
    } else {
      FermatDivides(p, a - 1);
      FreshmansDream(p, a - 1);
      DividesLinear(p, Pow(a, p) - Pow(a - 1, p) - 1, Pow(a - 1, p) - (a - 1), 1, 1);
    }
  }

  /** Fermat's little theorem: a^(p-1) = 1 modulo p when p does not divide a. */
  lemma FermatLittle(p: nat, a: nat)
    requires Prime(p) && !Divides(p, a)
    ensures Pow(a, p - 1) % p == 1
  {
    FermatDivides(p, a);
    assert Pow(a, p) - a == a * (Pow(a, p - 1) - 1);
    EuclidLemma(p, a, Pow(a, p - 1) - 1);
    ModEqIffDivides(Pow(a, p - 1), 1, p);
    ModSmall(1, p);
  }

  /** Modulo a prime, the only square roots of 1 are 1 and p - 1. */
  lemma SquareRootsOfOne(p: nat, x: int)
    requires Prime(p) && 0 <= x < p && (x * x) % p == 1
    ensures x == 1 || x == p - 1
  {
    ModSmall(1, p);
    ModEqIffDivides(x * x, 1, p);
    assert x * x - 1 == (x - 1) * (x + 1);
    EuclidLemma(p, x - 1, x + 1);
    if x == 0 {
      ModSmall(0, p);
      assert false;
    }
    if Divides(p, x - 1) {
      SmallMultiple(p, x - 1);
    } else {
      SmallMultiple(p, p - (x + 1)) by {
        DividesIntro(p, p, 1);
        DividesLinear(p, p, x + 1, 1, -1);
      }
    }
  }
}
