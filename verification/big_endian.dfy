/** Byte sequences read as unsigned big-endian integers, the reading `big.Int.SetBytes`
    gives them, and the inverse conversion to a fixed number of bytes. */
module BigEndian {
  import opened Bytes

  function Pow256(k: nat): (p: nat)
    ensures p >= 1
  {
    if k == 0 then 1 else 256 * Pow256(k - 1)
  }

  /** The unsigned big-endian value of `b`, read most significant byte first. */
  function FromBytes(b: seq<byte>): (n: nat)
    ensures n < Pow256(|b|)
    decreases |b|
  {
    if |b| == 0 then 0 else FromBytes(b[..|b| - 1]) * 256 + b[|b| - 1]
  }

  /** `n` as exactly `len` big-endian bytes. */
  function ToBytes(n: nat, len: nat): (b: seq<byte>)
    requires n < Pow256(len)
    ensures |b| == len
    decreases len
  {
    if len == 0 then [] else ToBytes(n / 256, len - 1) + [n % 256]
  }

  lemma {:induction false} Pow256Monotone(j: nat, k: nat)
    requires j <= k
    ensures Pow256(j) <= Pow256(k)
    decreases k
  {
    if j < k {
      Pow256Monotone(j, k - 1);
    }
  }

  /** A value read from `k` bytes is below 256^k. */
  lemma {:induction false} FromBytesBound(b: seq<byte>)
    ensures FromBytes(b) < Pow256(|b|)
    decreases |b|
  {
    if |b| > 0 {
      FromBytesBound(b[..|b| - 1]);
    }
  }

  lemma {:induction false} FromBytesZeros(z: seq<byte>)
    requires forall i :: 0 <= i < |z| ==> z[i] == 0
    ensures FromBytes(z) == 0
    decreases |z|
  {
    if |z| > 0 {
      FromBytesZeros(z[..|z| - 1]);
    }
  }

  /** Leading zero bytes do not change the value. */
  lemma {:induction false} LeadingZerosIgnored(z: seq<byte>, b: seq<byte>)
    requires forall i :: 0 <= i < |z| ==> z[i] == 0
    ensures FromBytes(z + b) == FromBytes(b)
    decreases |b|
  {
    if |b| == 0 {
      assert z + b == z;
      FromBytesZeros(z);
    } else {
      var zb := z + b;
      assert zb[..|zb| - 1] == z + b[..|b| - 1];
      LeadingZerosIgnored(z, b[..|b| - 1]);
    }
  }

  /** Writing `n` out in `len` bytes and reading it back gives `n`. */
  lemma {:induction false} FromToBytes(n: nat, len: nat)
    requires n < Pow256(len)
    ensures FromBytes(ToBytes(n, len)) == n
    decreases len
  {
    if len > 0 {
      var b := ToBytes(n, len);
      assert b[..|b| - 1] == ToBytes(n / 256, len - 1);
      FromToBytes(n / 256, len - 1);
    }
  }

  /** Reading `b` and writing the value back in `|b|` bytes gives `b`: no two byte
      sequences of one length share a value. */
  lemma {:induction false} ToFromBytes(b: seq<byte>)
    ensures FromBytes(b) < Pow256(|b|)
    ensures ToBytes(FromBytes(b), |b|) == b
    decreases |b|
  {
    FromBytesBound(b);
    if |b| > 0 {
      var p := b[..|b| - 1];
      ToFromBytes(p);
      assert b == p + [b[|b| - 1]];
    }
  }
}
