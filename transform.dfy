/**
 * The arithmetic of `encrypt` and `decrypt` (RSA/main.py): the message's
 * UTF-8 bytes are read as a big-endian integer m, c = m^e mod n is written
 * to the file as `num_to_string(c)`, and decryption reads the file back as
 * an integer, computes c^d mod n and turns it into bytes with
 * `num_to_string`. No check that m < n is made, so this is unpadded RSAEP
 * and RSADP (section 5.1 of RFC 8017) without their range checks.
 */
module Transform {
  import opened NumberTheory
  import opened Wrappers
  import opened ModularArithmetic
  import opened Codec
  import opened KeyGenerator
  import Fermat

  /** The bytes `encrypt` writes to the ciphertext file for the given message bytes. */
  function Encrypt(message: seq<byte>, publicKey: Key): (ciphertext: seq<byte>)
    requires publicKey.modulus >= 1
    ensures publicKey.exponent > 0 ==>
      FromBytes(ciphertext) == Pow(FromBytes(message), publicKey.exponent) % publicKey.modulus
    ensures ciphertext == [] || ciphertext[0] != 0
  {
    NumToString(ModPowValue(FromBytes(message), publicKey.exponent, publicKey.modulus))
  }

  /** The message bytes `decrypt` recovers from the contents of a ciphertext file, before UTF-8 decoding. */
  function Decrypt(ciphertext: seq<byte>, privateKey: Key): (message: seq<byte>)
    requires privateKey.modulus >= 1
    ensures privateKey.exponent > 0 ==>
      FromBytes(message) == Pow(FromBytes(ciphertext), privateKey.exponent) % privateKey.modulus
    ensures privateKey.modulus >= 2 ==> FromBytes(message) < privateKey.modulus
    ensures message == [] || message[0] != 0
  {
    NumToString(ModPowValue(FromBytes(ciphertext), privateKey.exponent, privateKey.modulus))
  }

  /** m^(1 + (p - 1) * t) = m modulo a prime p. */
  lemma PowerCongruentModPrime(p: nat, m: nat, t: nat)
    requires Prime(p)
    ensures Pow(m, 1 + (p - 1) * t) % p == m % p
  {
    var k := (p - 1) * t;
    var x := Pow(m, k);
    PowAdd(m, 1, k);
    assert Pow(m, 1) == m;
    assert Pow(m, 1 + k) == m * x;
    if Divides(p, m) {
      DividesIntro(p, 0, 0);
      DividesLinear(p, m, 0, x - 1, 0);
      assert m * (x - 1) + 0 * 0 == m * x - m;
      ModEqIffDivides(m * x, m, p);
    } else {
      Fermat.FermatLittle(p, m);
      PowMul(m, p - 1, t);
      PowMod(Pow(m, p - 1), t, p);
      PowOne(t);
      ModSmall(1, p);
      MulModCongruent(m, m, x, 1, p);
    }
  }

  lemma TotientAtLeastTwo(p: nat, q: nat)
    requires Prime(p) && Prime(q) && p != q
    ensures Totient(p, q) >= 2
  {
    if p == 2 {
      MulAtLeast(q - 1, p - 1);
    } else {
      MulMonotone(2, p - 1, q - 1);
    }
  }

  /** An inverse pair modulo phi >= 2 has e * d = 1 + phi * k for some k >= 0. */
  lemma InverseExponent(e: nat, d: nat, phi: nat) returns (k: nat)
    requires phi >= 2 && IsInverse(e, d, phi)
    ensures e * d == 1 + phi * k
  {
    ModSmall(1, phi);
    var j := (e * d) / phi;
    assert e * d == phi * j + 1;
    if j < 0 {
      MulMonotone(j, -1, phi);
      assert false;
    }
    k := j;
  }

  /** For distinct primes p, q and e * d = 1 modulo (p - 1)(q - 1), m^(e*d) = m modulo p * q for m < p * q. */
  lemma ExponentsCancel(p: nat, q: nat, e: nat, d: nat, m: nat)
    requires Prime(p) && Prime(q) && p != q
    requires IsInverse(e, d, Totient(p, q))
    requires m < p * q
    ensures Pow(m, e * d) % (p * q) == m
  {
    TotientAtLeastTwo(p, q);
    var k := InverseExponent(e, d, Totient(p, q));
    var tp, tq := SplitTotientMultiple(p, q, k);
    PowerCongruentModPrime(p, m, tp);
    PowerCongruentModPrime(q, m, tq);
    CongruentModBoth(p, q, Pow(m, e * d), m);
  }

  /** A multiple of the totient is a multiple of p - 1 and of q - 1. */
  lemma SplitTotientMultiple(p: nat, q: nat, k: nat) returns (tp: nat, tq: nat)
    requires p >= 2 && q >= 2
    ensures Totient(p, q) * k == (p - 1) * tp == (q - 1) * tq
  {
    MulMonotone(0, q - 1, k);
    MulMonotone(0, p - 1, k);
    tp, tq := (q - 1) * k, (p - 1) * k;
    assert Totient(p, q) == (p - 1) * (q - 1);
  }

  lemma CongruentModBoth(p: nat, q: nat, x: int, m: nat)
    requires Prime(p) && Prime(q) && p != q && m < p * q
    requires x % p == m % p && x % q == m % q
    ensures x % (p * q) == m
  {
    ModEqIffDivides(x, m, p);
    ModEqIffDivides(x, m, q);
    Fermat.ProductOfPrimesDivides(p, q, x - m);
    ModEqIffDivides(x, m, p * q);
    ModSmall(m, p * q);
  }

  /** Decrypting the ciphertext integer with the key pair built from distinct primes gives back every m < n. */
  lemma IntegerRoundTrip(p: nat, q: nat, m: nat)
    requires Prime(p) && Prime(q) && p != q && KeyFromPrimes(p, q).Success?
    requires m < p * q
    ensures var keys := KeyFromPrimes(p, q).value;
      ModPowValue(ModPowValue(m, keys.publicKey.exponent, p * q), keys.privateKey.exponent, p * q) == m
  {
    var keys := KeyFromPrimes(p, q).value;
    var n, e, d := p * q, keys.publicKey.exponent, keys.privateKey.exponent;
    TotientAtLeastTwo(p, q);
    var k := InverseExponent(e, d, Totient(p, q));
    assert d > 0;
    PowMod(Pow(m, e), d, n);
    PowMul(m, e, d);
    ExponentsCancel(p, q, e, d, m);
  }

  /**
   * With the key pair built from distinct primes p and q, decrypting the
   * ciphertext file of a message gives the message back exactly when its
   * value is below n = p * q and it does not start with a zero byte.
   */
  lemma RoundTrip(p: nat, q: nat, message: seq<byte>)
    requires Prime(p) && Prime(q) && p != q && KeyFromPrimes(p, q).Success?
    ensures var keys := KeyFromPrimes(p, q).value;
      Decrypt(Encrypt(message, keys.publicKey), keys.privateKey) == message
      <==> FromBytes(message) < p * q && (message == [] || message[0] != 0)
  {
    var keys := KeyFromPrimes(p, q).value;
    var m := FromBytes(message);
    var c := ModPowValue(m, keys.publicKey.exponent, p * q);
    assert p * q >= 2 by {
      MulAtLeast(p, q);
    }
    if m < p * q {
      IntegerRoundTrip(p, q, m);
      assert FromBytes(NumToString(c)) == c;
      BytesRoundTrip(message);
    }
  }
}
