/**
 * Octets and the big-endian reading of a byte string as an unsigned integer,
 * as `U256::from_big_endian` does it, together with its inverse.
 */
module Bytes {

  /** One octet, as Rust's `u8`. */
  type Byte = b: int | 0 <= b < 256

  /** 256^n, the number of distinct byte strings of length n. */
  function Pow256(n: nat): (p: nat)
    ensures p > 0
  {
    if n == 0 then 1 else 256 * Pow256(n - 1)
  }

  /** 256^(a+b) == 256^a * 256^b. */
  lemma {:induction false} Pow256Add(a: nat, b: nat)
    ensures Pow256(a + b) == Pow256(a) * Pow256(b)
  {
    if a > 0 {
      Pow256Add(a - 1, b);
    }
  }

  /** Squaring a known power: 256^(2n) == p * p when 256^n == p. */
  lemma Pow256Double(n: nat, p: nat)
    requires Pow256(n) == p
    ensures Pow256(2 * n) == p * p
  {
    Pow256Add(n, n);
  }

  /** The unsigned integer whose big-endian encoding is `bs` (most significant byte first). */
  function FromBigEndian(bs: seq<Byte>): (n: nat)
    ensures n < Pow256(|bs|)
  {
    if bs == [] then 0
    else FromBigEndian(bs[..|bs| - 1]) * 256 + bs[|bs| - 1]
  }

  /** The `len`-byte big-endian encoding of `n`, left-padded with zero bytes. */
  function ToBigEndian(n: nat, len: nat): (bs: seq<Byte>)
    requires n < Pow256(len)
    ensures |bs| == len
  {
    if len == 0 then []
    else ToBigEndian(n / 256, len - 1) + [n % 256]
  }

  /** Encoding a number and reading it back gives the number. */
  lemma {:induction false} FromToBigEndian(n: nat, len: nat)
    requires n < Pow256(len)
    ensures FromBigEndian(ToBigEndian(n, len)) == n
  {
    if len > 0 {
      var bs := ToBigEndian(n, len);
      assert bs[..len - 1] == ToBigEndian(n / 256, len - 1);
      FromToBigEndian(n / 256, len - 1);
    }
  }

  /** Reading a byte string and encoding it back at its own width gives the byte string. */
  lemma {:induction false} ToFromBigEndian(bs: seq<Byte>)
    ensures ToBigEndian(FromBigEndian(bs), |bs|) == bs
  {
    if bs != [] {
      var k := |bs| - 1;
      var hi := FromBigEndian(bs[..k]);
      assert (hi * 256 + bs[k]) / 256 == hi;
      assert (hi * 256 + bs[k]) % 256 == bs[k];
      ToFromBigEndian(bs[..k]);
      assert bs == bs[..k] + [bs[k]];
    }
  }

  /** Two byte strings of the same width are equal exactly when their values are. */
  lemma BigEndianInjective(a: seq<Byte>, b: seq<Byte>)
    requires |a| == |b|
    ensures FromBigEndian(a) == FromBigEndian(b) <==> a == b
  {
    if FromBigEndian(a) == FromBigEndian(b) {
      ToFromBigEndian(a);
      ToFromBigEndian(b);
    }
  }
}
