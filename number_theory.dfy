/**
 * Integer facts the RSA core rests on: powers, divisibility, Euclidean
 * division and primality. Python's `%` and `//` agree with Dafny's `%` and
 * `/` whenever the divisor is positive, which is the only case used here.
 */
module NumberTheory {

  /** b raised to the power e. */
  function Pow(b: int, e: nat): (r: int)
    ensures b >= 0 ==> r >= 0
    ensures b > 0 ==> r > 0
  {
    if e == 0 then 1 else b * Pow(b, e - 1)
  }

  /** d divides n (0 divides only 0). */
  predicate Divides(d: nat, n: int)
  {
    if d == 0 then n == 0 else n % d == 0
  }

  /** p is a prime number: at least 2 and without divisors strictly between 1 and p. */
  predicate Prime(p: int)
  {
    p >= 2 && forall k: nat :: 1 < k < p ==> !Divides(k, p)
  }

  lemma MulAtLeast(m: int, t: int)
    requires m > 0 && t >= 1
    ensures m * t >= m
  {
    assert m * t == m * (t - 1) + m;
    assert m * (t - 1) >= 0;
  }

  lemma MulMonotone(a: int, b: int, c: int)
    requires a <= b && c >= 0
    ensures a * c <= b * c
  {
    assert b * c - a * c == (b - a) * c;
  }

  /** Euclidean division is unique: a quotient and remainder in [0, m) are n / m and n % m. */
  lemma DivModUnique(n: int, m: int, q: int, r: int)
    requires m > 0 && 0 <= r < m && n == m * q + r
    ensures n / m == q && n % m == r
  {
    var q0, r0 := n / m, n % m;
    assert n == m * q0 + r0;
    assert m * (q - q0) == r0 - r;
    if q > q0 {
      MulAtLeast(m, q - q0);
      assert false;
    } else if q < q0 {
      MulAtLeast(m, q0 - q);
      assert false;
    }
  }

  lemma ModOfMulAdd(m: int, q: int, r: int)
    requires m > 0
    ensures (m * q + r) % m == r % m
  {
    var k, rr := r / m, r % m;
    assert r == m * k + rr;
    assert m * q + r == m * (q + k) + rr;
    DivModUnique(m * q + r, m, q + k, rr);
  }

  lemma ModMod(x: int, m: int)
    requires m > 0
    ensures (x % m) % m == x % m
  {
    DivModUnique(x % m, m, 0, x % m);
  }

  lemma ModSmall(x: int, m: int)
    requires 0 <= x < m
    ensures x % m == x
  {
    DivModUnique(x, m, 0, x);
  }

  lemma DividesIntro(d: nat, n: int, k: int)
    requires n == d * k
    ensures Divides(d, n)
  {
    if d > 0 {
      DivModUnique(n, d, k, 0);
    }
  }

  /** The cofactor k of a divisor d of n. */
  lemma DividesElim(d: nat, n: int) returns (k: int)
    requires Divides(d, n)
    ensures n == d * k
  {
    if d > 0 {
      k := n / d;
      assert n == d * k + n % d;
    } else {
      k := 0;
    }
  }

  /** A common divisor of a and b divides every integer combination of them. */
  lemma DividesLinear(d: nat, a: int, b: int, x: int, y: int)
    requires Divides(d, a) && Divides(d, b)
    ensures Divides(d, a * x + b * y)
  {
    var ka := DividesElim(d, a);
    var kb := DividesElim(d, b);
    calc {
      a * x + b * y;
      (d * ka) * x + (d * kb) * y;
      d * (ka * x + kb * y);
    }
    DividesIntro(d, a * x + b * y, ka * x + kb * y);
  }

  lemma DividesTrans(a: nat, b: nat, c: int)
    requires Divides(a, b) && Divides(b, c)
    ensures Divides(a, c)
  {
    var k := DividesElim(a, b);
    var l := DividesElim(b, c);
    assert c == (a * k) * l;
    assert c == a * (k * l);
    DividesIntro(a, c, k * l);
  }

  /** A positive multiple of d is at least d. */
  lemma DivisorBound(d: nat, n: int)
    requires Divides(d, n) && n > 0
    ensures 0 < d <= n
  {
    var k := DividesElim(d, n);
    MulAtLeast(d, k);
  }

  /** Congruence modulo m is divisibility of the difference. */
  lemma ModEqIffDivides(a: int, b: int, m: nat)
    requires m > 0
    ensures a % m == b % m <==> Divides(m, a - b)
  {
    if a % m == b % m {
      assert a - b == m * (a / m - b / m) by {
        assert a == m * (a / m) + a % m;
        assert b == m * (b / m) + b % m;
      }
      DividesIntro(m, a - b, a / m - b / m);
    }
    if Divides(m, a - b) {
      var k := DividesElim(m, a - b);
      assert a == m * k + b;
      ModOfMulAdd(m, k, b);
    }
  }

  /** Reducing either factor modulo m does not change the product modulo m. */
  lemma ModMul(x: int, y: int, m: int)
    requires m > 0
    ensures (x * y) % m == ((x % m) * (y % m)) % m
  {
    var qx, rx := x / m, x % m;
    var qy, ry := y / m, y % m;
    ExpandProduct(x, y, m, qx, rx, qy, ry);
    ModOfMulAdd(m, qx * m * qy + qx * ry + rx * qy, rx * ry);
  }

  lemma ExpandProduct(x: int, y: int, m: int, qx: int, rx: int, qy: int, ry: int)
    requires x == m * qx + rx && y == m * qy + ry
    ensures x * y == m * (qx * m * qy + qx * ry + rx * qy) + rx * ry
  {
  }

  lemma MulModCongruent(x: int, x': int, y: int, y': int, m: int)
    requires m > 0 && x % m == x' % m && y % m == y' % m
    ensures (x * y) % m == (x' * y') % m
  {
    ModMul(x, y, m);
    ModMul(x', y', m);
  }

  /** Reducing the base modulo m does not change a power modulo m. */
  lemma {:induction false} PowMod(x: int, k: nat, m: int)
    requires m > 0
    ensures Pow(x % m, k) % m == Pow(x, k) % m
  {
    if k > 0 {
      PowMod(x, k - 1, m);
      ModMod(x, m);
      MulModCongruent(x % m, x, Pow(x % m, k - 1), Pow(x, k - 1), m);
    }
  }

  lemma MulAssoc(a: int, b: int, c: int)
    ensures a * (b * c) == (a * b) * c
  {
  }

  lemma MulSucc(m: nat, n: nat)
    requires n > 0
    ensures m * (n - 1) >= 0 && m * n == m * (n - 1) + m
  {
  }

  lemma {:induction false} PowAdd(b: int, m: nat, n: nat)
    ensures Pow(b, m + n) == Pow(b, m) * Pow(b, n)
  {
    if m > 0 {
      PowAdd(b, m - 1, n);
      assert Pow(b, m + n) == b * Pow(b, (m - 1) + n);
      MulAssoc(b, Pow(b, m - 1), Pow(b, n));
    }
  }

  lemma {:induction false} PowMul(b: int, m: nat, n: nat)
    ensures Pow(b, m * n) == Pow(Pow(b, m), n)
  {
    if n > 0 {
      MulSucc(m, n);
      var k: nat := m * (n - 1);
      PowMul(b, m, n - 1);
      PowAdd(b, k, m);
      var x, y := Pow(b, k), Pow(b, m);
      assert Pow(b, m * n) == Pow(b, k + m) == x * y;
      assert Pow(y, n) == y * Pow(y, n - 1) == y * x;
    }
  }

  lemma {:induction false} PowSquare(b: int, h: nat)
    ensures Pow(b, 2 * h) == Pow(b * b, h)
  {
    PowMul(b, 2, h);
    assert Pow(b, 1) == b;
    assert Pow(b, 2) == b * b;
  }

  lemma {:induction false} PowOne(k: nat)
    ensures Pow(1, k) == 1
  {
    if k > 0 {
      PowOne(k - 1);
    }
  }

  lemma {:induction false} PowMonotone(b: int, i: nat, j: nat)
    requires b >= 1 && i <= j
    ensures Pow(b, i) <= Pow(b, j)
  {
    if i < j {
      PowMonotone(b, i, j - 1);
      MulAtLeast(Pow(b, j - 1), b);
    }
  }

  /** A number divisible by p that lies in [0, p) is zero. */
  lemma SmallMultiple(p: nat, v: int)
    requires p > 0 && Divides(p, v) && 0 <= v < p
    ensures v == 0
  {
    ModSmall(v, p);
  }
}
