/**
 * Big-endian conversion between byte strings and non-negative integers:
 * `int.from_bytes(b, 'big')` and `num_to_string`, which writes n with
 * `n.to_bytes((n.bit_length() + 7) // 8, 'big')`, the minimal length.
 * Unlike I2OSP of RFC 8017 (section 4.1) the output length is not fixed,
 * so leading zero bytes of a byte string are lost on a round trip.
 */
module Codec {
  import opened NumberTheory

  type byte = x: int | 0 <= x < 256

  /** `int.from_bytes(s, 'big')`. */
  function FromBytes(s: seq<byte>): (n: nat)
    ensures n < Pow(256, |s|)
  {
    if s == [] then 0 else FromBytes(s[..|s| - 1]) * 256 + s[|s| - 1]
  }

  /** `n.to_bytes(len, 'big')`, defined when n fits in len bytes (Python raises OverflowError otherwise). */
  function ToBytes(n: nat, len: nat): (s: seq<byte>)
    requires n < Pow(256, len)
    ensures |s| == len && FromBytes(s) == n
  {
    if len == 0 then []
    else
      var s := ToBytes(n / 256, len - 1) + [n % 256];
      assert s[..|s| - 1] == ToBytes(n / 256, len - 1);
      s
  }

  /** `n.bit_length()`: the number of binary digits of n, 0 for n = 0. */
  function BitLength(n: nat): (b: nat)
    ensures n < Pow(2, b)
    ensures n == 0 <==> b == 0
    ensures n > 0 ==> Pow(2, b - 1) <= n
  {
    if n == 0 then 0 else 1 + BitLength(n / 2)
  }

  lemma Pow256(k: nat)
    ensures Pow(256, k) == Pow(2, 8 * k)
  {
    PowMul(2, 8, k);
    assert Pow(2, 8) == 256 by {
      assert Pow(2, 4) == 16;
    }
  }

  /** The leading byte contributes its value times 256^(|s|). */
  lemma {:induction false} FromBytesCons(b: byte, s: seq<byte>)
    ensures FromBytes([b] + s) == b * Pow(256, |s|) + FromBytes(s)
  {
    if s != [] {
      var t := [b] + s;
      assert t[..|t| - 1] == [b] + s[..|s| - 1];
      FromBytesCons(b, s[..|s| - 1]);
      var p := Pow(256, |s| - 1);
      assert Pow(256, |s|) == 256 * p;
      ConsArithmetic(b, p, FromBytes(s[..|s| - 1]), s[|s| - 1]);
    }
  }

  lemma ConsArithmetic(b: int, p: int, f: int, last: int)
    ensures (b * p + f) * 256 + last == b * (256 * p) + (f * 256 + last)
  {
  }

  /** Number of bytes `num_to_string` writes for n. */
  function ByteLength(n: nat): nat
  {
    (BitLength(n) + 7) / 8
  }

  lemma FitsInByteLength(n: nat)
    ensures n < Pow(256, ByteLength(n))
    ensures n > 0 ==> Pow(256, ByteLength(n) - 1) <= n
  {
    var b, len := BitLength(n), ByteLength(n);
    Pow256(len);
    PowMonotone(2, b, 8 * len);
    if n > 0 {
      Pow256(len - 1);
      PowMonotone(2, 8 * (len - 1), b - 1);
    }
  }

  /**
   * `num_to_string(n)`: the minimal big-endian encoding of n. It is empty
   * exactly for n = 0, its first byte is never zero, and decoding it gives
   * back n.
   */
  function NumToString(n: nat): (s: seq<byte>)
    ensures |s| == ByteLength(n)
    ensures FromBytes(s) == n
    ensures s == [] <==> n == 0
    ensures s != [] ==> s[0] != 0
  {
    FitsInByteLength(n);
    var s := ToBytes(n, ByteLength(n));
    if n > 0 then
      LeadingByteNonZero(n, s);
      s
    else
      s
  }

  lemma LeadingByteNonZero(n: nat, s: seq<byte>)
    requires s != [] && FromBytes(s) == n && Pow(256, |s| - 1) <= n
    ensures s[0] != 0
  {
    if s[0] == 0 {
      assert s == [s[0]] + s[1..];
      FromBytesCons(s[0], s[1..]);
      assert false;
    }
  }

  /** A byte string with a non-zero first byte has a value of at least 256^(|s| - 1). */
  lemma LeadingByteBound(s: seq<byte>)
    requires s != [] && s[0] != 0
    ensures Pow(256, |s| - 1) <= FromBytes(s)
  {
    assert s == [s[0]] + s[1..];
    FromBytesCons(s[0], s[1..]);
    MulAtLeast(Pow(256, |s| - 1), s[0]);
  }

  /** A value in [256^(k-1), 256^k) is written in exactly k bytes. */
  lemma ByteLengthExact(n: nat, k: nat)
    requires k >= 1 && Pow(256, k - 1) <= n < Pow(256, k)
    ensures ByteLength(n) == k
  {
    Pow256(k);
    Pow256(k - 1);
    var b := BitLength(n);
    if b > 8 * k {
      PowMonotone(2, 8 * k, b - 1);
      assert false;
    }
    if b <= 8 * (k - 1) {
      PowMonotone(2, b, 8 * (k - 1));
      assert false;
    }
  }

  /** Encoding a byte string's value in |s| bytes gives s back. */
  lemma {:induction false} ToBytesFromBytes(s: seq<byte>)
    ensures ToBytes(FromBytes(s), |s|) == s
  {
    if s != [] {
      var init, last := s[..|s| - 1], s[|s| - 1];
      var n, f := FromBytes(s), FromBytes(init);
      assert n == f * 256 + last;
      DivModUnique(n, 256, f, last);
      ToBytesFromBytes(init);
      assert ToBytes(n, |s|) == ToBytes(f, |init|) + [last];
      assert s == init + [last];
    }
  }

  /**
   * A byte string survives decoding to an integer and `num_to_string` exactly
   * when it is empty or its first byte is non-zero.
   */
  lemma BytesRoundTrip(s: seq<byte>)
    ensures NumToString(FromBytes(s)) == s <==> (s == [] || s[0] != 0)
  {
    if s != [] && s[0] != 0 {
      LeadingByteBound(s);
      ByteLengthExact(FromBytes(s), |s|);
      ToBytesFromBytes(s);
    }
  }
}
