/** Conversion of one JWK record into an RSA public key (rsa.go). */
module Rsa {
  import opened Wrappers
  import opened Errors
  import opened Bytes
  import opened Base64Url
  import opened BigEndian

  /** One record of a key set, as deserialized: every field is a string, and an absent
      field is the empty string. */
  datatype JWK = JWK(alg: string, exp: string, kid: string, kty: string, mod: string, use: string)

  /** An RSA public key: the modulus and Go's machine-width `int` exponent. */
  datatype RSAKey = RSAKey(n: nat, e: int)

  /** The key type this package converts. */
  const KtyRSA: string := "RSA"

  const TwoTo63: int := 0x8000_0000_0000_0000
  const TwoTo64: int := 0x1_0000_0000_0000_0000

  /** `e` is the machine integer a conversion to a 64-bit `int` gives for `u`: the
      only value in the signed 64-bit range that agrees with `u` modulo 2^64. */
  predicate IsInt64Of(e: int, u: nat) {
    -TwoTo63 <= e < TwoTo63 && (e - u) % TwoTo64 == 0
  }

  /** `int(big.NewInt(0).SetBytes(b).Uint64())` on a 64-bit platform: the low 64 bits of
      the value, reinterpreted as a two's-complement signed integer. */
  function ExponentOf(b: seq<byte>): (e: int)
    ensures IsInt64Of(e, FromBytes(b))
  {
    var low := FromBytes(b) % TwoTo64;
    if low < TwoTo63 then low else low - TwoTo64
  }

  /** `JWK.RSA`: both components must be non-empty as given (before any trimming); the
      exponent is decoded before the modulus, and the first decoding error is returned. */
  function RSA(k: JWK): (r: Result<RSAKey, Err>)
    ensures r.Success? <==>
              && k.exp != "" && k.mod != ""
              && ComponentToBytes(k.exp).Success? && ComponentToBytes(k.mod).Success?
    ensures r.Success? ==>
              var modBytes := ComponentToBytes(k.mod).value;
              r.value.n == FromBytes(modBytes) && r.value.n < Pow256(|modBytes|)
    ensures r.Success? ==>
              var expBytes := ComponentToBytes(k.exp).value;
              IsInt64Of(r.value.e, FromBytes(expBytes))
    ensures r.Failure? ==> r.error == ReqComponents || r.error.CorruptInput?
  {
    if k.exp == "" || k.mod == "" then Failure(ReqComponents)
    else
      var exp := ComponentToBytes(k.exp);
      if exp.Failure? then Failure(exp.error)
      else
        var mod := ComponentToBytes(k.mod);
        if mod.Failure? then Failure(mod.error)
        else
          var n, e := FromBytes(mod.value), ExponentOf(exp.value);
          FromBytesBound(mod.value);
          Success(RSAKey(n, e))
  }

  /** A missing component is reported whatever the other fields hold. */
  lemma MissingComponentReported(k: JWK)
    requires k.exp == "" || k.mod == ""
    ensures RSA(k) == Failure(ReqComponents)
  {
  }

  /** The exponent is decoded first: when both components are present and the exponent
      does not decode, its error is returned whatever the modulus holds. */
  lemma ExponentErrorFirst(k: JWK)
    requires k.exp != "" && k.mod != ""
    requires ComponentToBytes(k.exp).Failure?
    ensures RSA(k) == Failure(ComponentToBytes(k.exp).error)
  {
  }

  /** When only the modulus fails to decode, its error is returned. */
  lemma ModulusErrorSecond(k: JWK)
    requires k.exp != "" && k.mod != ""
    requires ComponentToBytes(k.exp).Success? && ComponentToBytes(k.mod).Failure?
    ensures RSA(k) == Failure(ComponentToBytes(k.mod).error)
  {
  }

  /** Leading zero bytes in the decoded modulus do not change `N`. */
  lemma ModulusIgnoresLeadingZeros(k: JWK, z: seq<byte>)
    requires RSA(k).Success?
    requires forall i :: 0 <= i < |z| ==> z[i] == 0
    ensures RSA(k).value.n == FromBytes(z + ComponentToBytes(k.mod).value)
  {
    LeadingZerosIgnored(z, ComponentToBytes(k.mod).value);
  }

  /** An exponent shorter than eight bytes is taken exactly. */
  lemma ShortExponentExact(k: JWK)
    requires RSA(k).Success?
    requires |ComponentToBytes(k.exp).value| < 8
    ensures RSA(k).value.e == FromBytes(ComponentToBytes(k.exp).value)
  {
    var b := ComponentToBytes(k.exp).value;
    Pow256Monotone(|b|, 7);
    assert Pow256(7) < TwoTo63;
    Int64OfSmall(RSA(k).value.e, FromBytes(b));
  }

  /** A value already in the non-negative signed 64-bit range converts to itself. */
  lemma Int64OfSmall(e: int, u: nat)
    requires IsInt64Of(e, u) && u < TwoTo63
    ensures e == u
  {
  }

  /** A component made only of padding passes the presence check and converts to 0. */
  lemma PaddingOnlyComponentsAreZero(k: JWK, i: nat, j: nat)
    requires k.exp == Padding(i) && k.mod == Padding(j) && i > 0 && j > 0
    ensures RSA(k) == Success(RSAKey(0, 0))
  {
    OnlyPaddingDecodesEmpty(i);
    OnlyPaddingDecodesEmpty(j);
  }

  /** Only `exp` and `mod` are read: `alg`, `kid`, `kty` and `use` do not matter. */
  lemma OnlyComponentsRead(k1: JWK, k2: JWK)
    requires k1.exp == k2.exp && k1.mod == k2.mod
    ensures RSA(k1) == RSA(k2)
  {
  }

  /** Padded and unpadded spellings of present components give the same result. */
  lemma PaddedSpellingSameKey(k: JWK, i: nat, j: nat)
    requires k.exp != "" && k.mod != ""
    ensures RSA(k.(exp := k.exp + Padding(i), mod := k.mod + Padding(j))) == RSA(k)
  {
    PaddingTolerated(k.exp, i);
    PaddingTolerated(k.mod, j);
  }

  /** The presence check looks at the component as given: padding an empty exponent
      turns the missing-component error into a key with exponent 0. */
  lemma PaddingDefeatsPresenceCheck(k: JWK)
    requires k.exp == "" && k.mod != "" && ComponentToBytes(k.mod).Success?
    ensures RSA(k) == Failure(ReqComponents)
    ensures RSA(k.(exp := Padding(1))).Success?
    ensures RSA(k.(exp := Padding(1))).value.e == 0
  {
    OnlyPaddingDecodesEmpty(1);
  }

  /** Converting the encodings of two byte strings reads them back big-endian. */
  lemma EncodedComponentsConvert(k: JWK, modBytes: seq<byte>, expBytes: seq<byte>)
    requires |modBytes| > 0 && |expBytes| > 0
    requires k.mod == Encode(modBytes) && k.exp == Encode(expBytes)
    ensures RSA(k) == Success(RSAKey(FromBytes(modBytes), ExponentOf(expBytes)))
  {
    EncodeThenDecode(modBytes);
    EncodeThenDecode(expBytes);
  }
}
