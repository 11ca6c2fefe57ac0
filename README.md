# RSA-Python in Dafny

A model of the cryptographic core of RSA-Python (`RSA/main.py`), a textbook
RSA tool without padding. The model covers:

- `mod_pow`, the square-and-multiply modular exponentiation;
- `is_prime`, a Miller-Rabin test with five random witnesses;
- `prime_generation`, which draws odd candidates until `is_prime` accepts one;
- `extended_gcd` and `mod_inverse`;
- `generate_key`, which builds n = p * q, the totient (p - 1)(q - 1), e = 65537
  and d = e^-1 mod totient;
- the byte/integer conversions `string_to_num` and `num_to_string`;
- the arithmetic of `encrypt` and `decrypt`.

Modules, one per file:

- `NumberTheory` (`number_theory.dfy`): powers, divisibility, primality and
  modular arithmetic facts.
- `ModularArithmetic`: `mod_pow`, `extended_gcd` and `mod_inverse`.
- `Fermat`: Euclid's lemma, the binomial theorem, Fermat's little theorem and
  the square roots of 1 modulo a prime.
- `Primality`: `is_prime`.
- `PrimeGenerator`: `prime_generation`.
- `Codec`: `int.from_bytes` and `num_to_string`.
- `KeyGenerator`: `generate_key`.
- `Transform`: `encrypt` and `decrypt`.
- `Wrappers`: the `Option` and `Result` types.

Randomness is a parameter. `getrandbits` becomes a finite sequence of draws.
Each candidate comes with the five witnesses that `randint(2, n - 2)` would
give it.

The model follows the code in places where a description of the program
might lead one to expect something else:

- `mod_pow(a, exp, mod)` returns 1 whenever exp <= 0, even when mod = 1,
  because the loop never runs.
- For even n > 4, `is_prime` finds s = 0. Each round then passes only when
  a^(n-1) is 1 or n - 1 modulo n.
- `prime_generation` sets only the low bit. The top bit is not forced, so a
  "1024-bit" prime may be shorter.
- `generate_key` does not check p != q, or that gcd(65537, totient) = 1,
  before calling `mod_inverse`. The round-trip theorem therefore assumes
  distinct primes.
- `encrypt` does not check m < n. Messages whose value is n or more, and
  messages that start with a zero byte, do not survive a round trip
  (`Transform.RoundTrip`).

## Model

| member | source | states |
|---|---|---|
| ModularArithmetic.ModPowValue | RSA/main.py:8-16 | for a positive exponent the result is below the modulus |
| ModularArithmetic.ModPowStep | RSA/main.py:11-15 | one loop iteration (optional multiply, square, halve) keeps res * base^exp unchanged modulo mod |
| ModularArithmetic.ModPow | RSA/main.py:8-16 | the loop returns a^exp mod `mod` for exp > 0 and 1 otherwise |
| ModularArithmetic.ExtendedGcd | RSA/main.py:64-70 | returns (g, x, y) with g dividing both a and b and a*x + b*y = g |
| ModularArithmetic.GcdIsGreatest | RSA/main.py:64-70 | every common divisor of a and b divides g and is at most g, so g is the gcd |
| ModularArithmetic.NoInverseWithoutCoprimality | RSA/main.py:75-76 | a common divisor other than 1 rules out every inverse, which justifies the ValueError |
| ModularArithmetic.ModInverse | RSA/main.py:73-78 | success gives d in [0, phi) with e*d = 1 mod phi; failure means no inverse exists; phi = 0 fails with division by zero only for e = 1 |
| Primality.Decomposition | RSA/main.py:32-38 | n - 1 = d * 2^s with d odd, and s >= 1 exactly when n - 1 is even |
| Primality.Decompose | RSA/main.py:32-38 | the halving loop computes that decomposition |
| Primality.TermStep | RSA/main.py:47 | squaring x modulo n moves from a^(d*2^r) to a^(d*2^(r+1)) |
| Primality.WitnessRound | RSA/main.py:41-51 | a round returns true exactly when n is a strong probable prime to base a |
| Primality.PrimePassesRound | RSA/main.py:40-51 | a prime n > 4 passes the round for every witness it does not divide |
| Primality.RoundPassesBelowOne | RSA/main.py:46-51 | if some a^(d*2^r) with r <= s is 1 modulo a prime, the round passes |
| Primality.PrimesPassMillerRabin | RSA/main.py:26-53 | every prime is accepted whatever witnesses in [2, n-2] are drawn |
| Primality.IsPrime | RSA/main.py:26-53 | returns the Miller-Rabin verdict (false for n <= 1 and 4, true for 2 and 3); false only for composites |
| PrimeGenerator.SetLowBitBelow | RSA/main.py:21 | setting the low bit gives an odd number and stays within `bits` bits |
| PrimeGenerator.FirstAccepted | RSA/main.py:19-23 | the first accepted candidate is odd and at least 3 |
| PrimeGenerator.PrimeGeneration | RSA/main.py:19-23 | returns the first draw with its low bit set that passes `is_prime`; it is odd, at least 3, below 2^bits; none only if every draw fails |
| Codec.FromBytes | RSA/main.py:57 | a big-endian value of k bytes is below 256^k |
| Codec.ToBytes | RSA/main.py:61 | writes exactly len bytes whose big-endian value is n |
| Codec.ToBytesFromBytes | RSA/main.py:57-61 | writing a byte string's value back in its own length gives the same bytes |
| Codec.NumToString | RSA/main.py:60-61 | the minimal encoding decodes to n, is empty only for 0 and never starts with a zero byte |
| Codec.BytesRoundTrip | RSA/main.py:56-61 | bytes survive decoding and `num_to_string` exactly when they are empty or start with a non-zero byte |
| KeyGenerator.Totient | RSA/main.py:85 | (p - 1)(q - 1) is at least 1 |
| KeyGenerator.ProductBelow | RSA/main.py:84 | two values below 2^bits have a product below 2^(2*bits) |
| KeyGenerator.KeyFromPrimes | RSA/main.py:84-88 | public key (65537, p*q), private key (d, p*q) with d below the totient and 65537*d = 1 modulo it; failure exactly when no inverse exists |
| KeyGenerator.GenerateKey | RSA/main.py:81-88 | no key pair when a draw stream runs out, otherwise KeyFromPrimes of the two generated primes, with a modulus below 2^(2*bits) |
| Fermat.FermatLittle | RSA/main.py:42-43 | a^(p-1) = 1 modulo a prime p that does not divide a |
| Fermat.SquareRootsOfOne | RSA/main.py:43-48 | the only square roots of 1 modulo a prime are 1 and p - 1 |
| Transform.Encrypt | RSA/main.py:149-155 | the ciphertext bytes encode m^e mod n and never start with a zero byte |
| Transform.Decrypt | RSA/main.py:162-169 | the recovered bytes encode c^d mod n, which is below n |
| Transform.PowerCongruentModPrime | RSA/main.py:153-168 | m^(1 + (p-1)t) = m modulo a prime p, for every m |
| Transform.ExponentsCancel | RSA/main.py:153-168 | for distinct primes and e*d = 1 modulo the totient, m^(e*d) mod pq = m for m < pq |
| Transform.IntegerRoundTrip | RSA/main.py:149-169 | decrypting the encrypted integer with the generated key pair gives back every m < n |
| Transform.RoundTrip | RSA/main.py:149-169 | decrypt(encrypt(msg)) = msg exactly when the message's value is below n and it does not start with a zero byte |

## Left out

- File and JSON I/O (`save_to_file`, key storage and loading), `menu`, the `__main__` block, `input()` and the prints. These are user interface and storage, not arithmetic.
- UTF-8 encoding and decoding of the message, and the `UnicodeDecodeError` a decrypted byte string may raise. The model works on bytes.
- The catch-all `except` in `decrypt`, which prints the error and returns None. Only the arithmetic path is modelled.
- The distribution of `getrandbits` and `randint`, and the 4^-5 bound on accepting a composite. Probability is not modelled: the draws are parameters.
- The unbounded `while True` of `prime_generation`. The draws are a finite sequence, and the model returns no prime when they run out.
- `generate_key` draws p and q from one random stream. The model gives each its own sequence of draws.
- ModularArithmetic.ModPow: requires mod >= 1. `mod_pow` raises ZeroDivisionError for mod = 0, and Python's floored `%` gives non-positive results for a negative mod.
- ModularArithmetic.ExtendedGcd: negative arguments are not modelled. Every caller passes non-negative values.
- ModularArithmetic.ModInverse: negative arguments are not modelled.
- Transform.Encrypt: requires a modulus of at least 1, as `mod_pow` does. A key file with n <= 0 is not modelled.
- Transform.Decrypt: requires a modulus of at least 1, for the same reason.
- KeyGenerator.KeyFromPrimes: requires p, q >= 2, which `prime_generation` guarantees (it returns only accepted odd numbers of at least 3).
- Primality.IsPrime: the witnesses must lie in [2, n - 2], as `randint(2, n - 2)` guarantees.
- The primality of 65537 is not used: `mod_inverse` succeeds exactly when gcd(65537, totient) = 1, and the model states that condition rather than deriving it.
