/**
 * The Miller-Rabin test `is_prime` (RSA/main.py). The random witnesses
 * `randint(2, n - 2)` of the five rounds are a parameter.
 */
module Primality {
  import opened NumberTheory
  import opened ModularArithmetic
  import Fermat

  /** Number of witness rounds `is_prime` runs. */
  const Rounds: nat := 5

  /** What `randint(2, n - 2)` guarantees about the witnesses, which are drawn only for n > 4. */
  predicate ValidWitnesses(n: int, witnesses: seq<int>)
  {
    |witnesses| == Rounds &&
    (n > 4 ==> forall i :: 0 <= i < |witnesses| ==> 2 <= witnesses[i] <= n - 2)
  }

  /** m = d * 2^s with d odd; s is at least 1 exactly when m is even. */
  function Decomposition(m: nat): (r: (nat, nat))
    requires m > 0
    ensures r.0 % 2 == 1 && m == r.0 * Pow(2, r.1)
    ensures m % 2 == 0 <==> r.1 >= 1
    decreases m
  {
    if m % 2 == 0 then
      var (d, s) := Decomposition(m / 2);
      assert m == 2 * (d * Pow(2, s));
      assert d * Pow(2, s + 1) == 2 * (d * Pow(2, s));
      (d, s + 1)
    else
      (m, 0)
  }

  /** a^(d * 2^r) mod n: the value x holds after r squarings in a round. */
  function WitnessTerm(n: int, a: int, d: nat, r: nat): int
    requires n > 0
  {
    Pow(a, d * Pow(2, r)) % n
  }

  /**
   * The round for witness a passes: with n - 1 = d * 2^s, a^d is 1 or n - 1
   * modulo n, or a^(d * 2^r) is n - 1 for some 1 <= r < s. For odd n this
   * is the usual "n is a strong probable prime to base a".
   */
  predicate StrongProbablePrime(n: int, a: int)
    requires n > 1
  {
    var (d, s) := Decomposition(n - 1);
    var x := WitnessTerm(n, a, d, 0);
    x == 1 || x == n - 1 || exists r :: 1 <= r < s && WitnessTerm(n, a, d, r) == n - 1
  }

  /** The verdict of `is_prime(n)` for the given witnesses. */
  predicate MillerRabin(n: int, witnesses: seq<int>)
  {
    if n <= 1 || n == 4 then false
    else if n <= 3 then true
    else forall i :: 0 <= i < |witnesses| ==> StrongProbablePrime(n, witnesses[i])
  }

  lemma TermStep(n: int, a: int, d: nat, r: nat)
    requires n > 0
    ensures WitnessTerm(n, a, d, r + 1) == Pow(WitnessTerm(n, a, d, r), 2) % n
  {
    var k := d * Pow(2, r);
    assert d * Pow(2, r + 1) == k * 2;
    PowMul(a, k, 2);
    PowMod(Pow(a, k), 2, n);
  }

  /** The halving loop of `is_prime`: n - 1 = d * 2^s with d odd. */
  method Decompose(m: nat) returns (d: nat, s: nat)
    requires m > 0
    ensures (d, s) == Decomposition(m)
    ensures d % 2 == 1 && m == d * Pow(2, s)
  {
    d, s := m, 0;
    while d % 2 == 0
      invariant d > 0
      invariant Decomposition(m) == (Decomposition(d).0, Decomposition(d).1 + s)
      decreases d
    {
      d := d / 2;
      s := s + 1;
    }
  }

  /** One round of `is_prime` for witness a: true when the round passes. */
  method WitnessRound(n: int, d: nat, s: nat, a: int) returns (passes: bool)
    requires n > 4 && (d, s) == Decomposition(n - 1)
    ensures passes == StrongProbablePrime(n, a)
  {
    var x := ModPow(a, d, n);
    assert x == WitnessTerm(n, a, d, 0);
    if x == 1 || x == n - 1 {
      return true;
    }
    var j := 1;
    while j < s
      invariant 1 <= j
      invariant x == WitnessTerm(n, a, d, j - 1)
      invariant forall r :: 1 <= r < j ==> WitnessTerm(n, a, d, r) != n - 1
    {
      TermStep(n, a, d, j - 1);
      x := ModPow(x, 2, n);
      if x == n - 1 {
        return true;
      }
      j := j + 1;
    }
    return false;
  }

  /** A prime n > 4 passes the round for every witness it does not divide. */
  lemma PrimePassesRound(n: nat, a: nat)
    requires n > 4 && Prime(n) && !Divides(n, a)
    ensures StrongProbablePrime(n, a)
  {
    var (d, s) := Decomposition(n - 1);
    if n % 2 == 0 {
      DividesIntro(2, n, n / 2);
      assert false;
    }
    Fermat.FermatLittle(n, a);
    assert WitnessTerm(n, a, d, s) == 1;
    RoundPassesBelowOne(n, a, d, s, s);
  }

  /** If a^(d * 2^r) = 1 modulo the prime n for some r <= s, the round passes. */
  lemma {:induction false} RoundPassesBelowOne(n: nat, a: int, d: nat, s: nat, r: nat)
    requires n > 4 && Prime(n) && (d, s) == Decomposition(n - 1)
    requires 1 <= s && r <= s && WitnessTerm(n, a, d, r) == 1
    ensures StrongProbablePrime(n, a)
  {
    if r == 0 {
      PassesAt(n, a, d, s, 0);
    } else {
      var y := WitnessTerm(n, a, d, r - 1);
      assert 0 <= y < n;
      TermStep(n, a, d, r - 1);
      assert Pow(y, 2) == y * y by {
        assert Pow(y, 1) == y;
      }
      Fermat.SquareRootsOfOne(n, y);
      if y == 1 {
        RoundPassesBelowOne(n, a, d, s, r - 1);
      } else {
        PassesAt(n, a, d, s, r - 1);
      }
    }
  }

  lemma PassesAt(n: int, a: int, d: nat, s: nat, r: nat)
    requires n > 4 && (d, s) == Decomposition(n - 1) && r < s
    requires WitnessTerm(n, a, d, r) == n - 1 || (r == 0 && WitnessTerm(n, a, d, r) == 1)
    ensures StrongProbablePrime(n, a)
  {
  }

  /** Every prime passes `is_prime` whatever witnesses are drawn. */
  lemma PrimesPassMillerRabin(n: int, witnesses: seq<int>)
    requires ValidWitnesses(n, witnesses)
    ensures Prime(n) ==> MillerRabin(n, witnesses)
  {
    if n == 4 {
      assert Divides(2, 4);
    }
    if Prime(n) && n > 4 {
      forall i | 0 <= i < |witnesses|
        ensures StrongProbablePrime(n, witnesses[i])
      {
        var a := witnesses[i];
        if Divides(n, a) {
          DivisorBound(n, a);
          assert false;
        }
        PrimePassesRound(n, a);
      }
    }
  }

  /**
   * `is_prime(n)`: trivial answers for n <= 4, otherwise the five witness
   * rounds. False is returned only for composite n.
   */
  method IsPrime(n: int, witnesses: seq<int>) returns (probablyPrime: bool)
    requires ValidWitnesses(n, witnesses)
    ensures probablyPrime == MillerRabin(n, witnesses)
    ensures !probablyPrime ==> !Prime(n)
  {
    PrimesPassMillerRabin(n, witnesses);
    if n <= 1 || n == 4 {
      return false;
    }
    if n <= 3 {
      return true;
    }
    var d, s := Decompose(n - 1);
    for i := 0 to |witnesses|
      invariant forall k :: 0 <= k < i ==> StrongProbablePrime(n, witnesses[k])
    {
      var passes := WitnessRound(n, d, s, witnesses[i]);
      if !passes {
        return false;
      }
    }
    return true;
  }
}
