/**
 * `generate_key` (RSA/main.py): two primes from `prime_generation`, modulus
 * n = p * q, totient (p - 1) * (q - 1), public exponent 65537 and private
 * exponent its inverse modulo the totient. Neither p = q nor
 * gcd(65537, totient) is checked before the inverse is computed.
 */
module KeyGenerator {
  import opened NumberTheory
  import opened Wrappers
  import opened ModularArithmetic
  import opened Primality
  import opened PrimeGenerator

  const PublicExponent: nat := 65537

  /** A key as the source stores it: the pair (exponent, modulus). */
  datatype Key = Key(exponent: nat, modulus: nat)

  /** The pair ((e, n), (d, n)) that `generate_key` returns. */
  datatype KeyPair = KeyPair(publicKey: Key, privateKey: Key)

  /** The totient (p - 1) * (q - 1) of n = p * q for distinct primes p and q. */
  function Totient(p: nat, q: nat): (phi: nat)
    requires p >= 2 && q >= 2
    ensures phi >= 1
  {
    MulAtLeast(p - 1, q - 1);
    (p - 1) * (q - 1)
  }

  /**
   * The key pair `generate_key` builds from p and q. Both keys share
   * n = p * q; the private exponent d lies in [0, totient) and
   * 65537 * d = 1 modulo the totient. It fails, as `mod_inverse` raises,
   * exactly when 65537 has no inverse modulo the totient.
   */
  function KeyFromPrimes(p: nat, q: nat): (r: Result<KeyPair, Error>)
    requires p >= 2 && q >= 2
    ensures r.Success? ==>
      && r.value.publicKey == Key(PublicExponent, p * q)
      && r.value.privateKey.modulus == p * q
      && r.value.privateKey.exponent < Totient(p, q)
      && IsInverse(PublicExponent, r.value.privateKey.exponent, Totient(p, q))
    ensures r.Failure? ==>
      r.error == NoInverseExists && forall d :: !IsInverse(PublicExponent, d, Totient(p, q))
  {
    var n := p * q;
    var inverse := ModInverse(PublicExponent, Totient(p, q));
    if inverse.Failure? then Failure(inverse.error)
    else Success(KeyPair(Key(PublicExponent, n), Key(inverse.value, n)))
  }

  lemma ProductBelow(p: nat, q: nat, bits: nat)
    requires p < Pow(2, bits) && q < Pow(2, bits)
    ensures p * q < Pow(2, 2 * bits)
  {
    var b := Pow(2, bits);
    PowAdd(2, bits, bits);
    assert Pow(2, 2 * bits) == b * b;
    ProductBelowBound(p, q, b);
  }

  lemma ProductBelowBound(p: nat, q: nat, b: int)
    requires p < b && q < b
    ensures p * q < b * b
  {
    MulMonotone(q, b, p);
    MulMonotone(p + 1, b, b);
    assert (p + 1) * b == p * b + b;
  }

  /**
   * `generate_key(bits)`: p from the first draw stream, q from the second.
   * When a stream runs out without an accepted candidate there is no key
   * pair; otherwise the result is KeyFromPrimes(p, q), whose modulus has at
   * most 2 * bits bits.
   */
  method GenerateKey(bits: nat, pDraws: seq<nat>, pRounds: seq<seq<int>>, qDraws: seq<nat>, qRounds: seq<seq<int>>)
    returns (keys: Option<Result<KeyPair, Error>>)
    requires |pRounds| == |pDraws| && |qRounds| == |qDraws|
    requires forall i :: 0 <= i < |pDraws| ==> pDraws[i] < Pow(2, bits) && ValidWitnesses(SetLowBit(pDraws[i]), pRounds[i])
    requires forall i :: 0 <= i < |qDraws| ==> qDraws[i] < Pow(2, bits) && ValidWitnesses(SetLowBit(qDraws[i]), qRounds[i])
    ensures keys.None? <==> FirstAccepted(pDraws, pRounds, 0).None? || FirstAccepted(qDraws, qRounds, 0).None?
    ensures keys.Some? ==>
      keys.value == KeyFromPrimes(FirstAccepted(pDraws, pRounds, 0).value, FirstAccepted(qDraws, qRounds, 0).value)
    ensures keys.Some? && keys.value.Success? ==> keys.value.value.publicKey.modulus < Pow(2, 2 * bits)
  {
    var p := PrimeGeneration(bits, pDraws, pRounds);
    if p.None? {
      return None;
    }
    var q := PrimeGeneration(bits, qDraws, qRounds);
    if q.None? {
      return None;
    }
    ProductBelow(p.value, q.value, bits);
    keys := Some(KeyFromPrimes(p.value, q.value));
  }
}
