/** Concrete key sets and headers worked through the model. */
module Scenarios {
  import opened Wrappers
  import opened Errors
  import opened Bytes
  import opened Base64Url
  import opened BigEndian
  import opened Rsa
  import opened Jwks

  /** An RSA record whose modulus and exponent are both "AQAB" (the bytes 1, 0, 1). */
  const K1: JWK := JWK("RS256", "AQAB", "k1", KtyRSA, "AQAB", "sig")

  lemma AqabDecodes()
    ensures ComponentToBytes("AQAB") == Success([1, 0, 1])
    ensures FromBytes([1, 0, 1]) == 65537
  {
    assert TrimPadding("AQAB") == "AQAB";
    assert FirstInvalid("AQAB").None?;
    assert DataChars("AQAB") == "AQAB";
    assert SextetOf('Q') == 16 && SextetOf('B') == 1;
    assert DecodeData("AQAB") == [1, 0, 1];
    assert [1, 0, 1][..2] == [1, 0];
    assert [1, 0][..1] == [1];
  }

  /** One RSA key under "k1" pinned to RS256: it resolves for RS256, is refused for
      RS512 and HS256, and an unknown `kid` is not found. */
  lemma SingleKeyScenario()
    ensures NewStore([K1]).Success?
    ensures NewStore([K1]).value.keys.Keys == {"k1"}
    ensures KeyFunc(NewStore([K1]).value, TokenHeader("k1", "RS256")) == Success(RSAKey(65537, 65537))
    ensures KeyFunc(NewStore([K1]).value, TokenHeader("k1", "RS512")) == Failure(AlgNotSupported)
    ensures KeyFunc(NewStore([K1]).value, TokenHeader("k1", "HS256")) == Failure(AlgNotSupported)
    ensures KeyFunc(NewStore([K1]).value, TokenHeader("missing", "RS256")) == Failure(PKNotFound)
  {
    AqabDecodes();
    assert RSA(K1) == Success(RSAKey(65537, 65537));
    assert Kids([K1]) == {"k1"} by {
      assert [K1][0] == K1;
    }
    ResolveAfterBuild([K1], 0, "RS256");
    BuildKeysContents([K1]);
    assert NewStore([K1]).value.keys["k1"].alg == "RS256";
    PinnedAlgRefusesOthers(NewStore([K1]).value, "k1", "RS512");
  }

  /** A header without either field is refused for its missing `kid`. */
  lemma EmptyHeaderMissesKid(j: JWKS)
    ensures KeyFunc(j, map[]) == Failure(ReqKid)
    ensures KeyFunc(j, map["alg" := Other]) == Failure(ReqKid)
  {
  }

  /** When both components are malformed, the exponent's error (its offset) is the one
      returned. */
  lemma BothComponentsMalformed()
    ensures RSA(K1.(exp := "AB+C", mod := "/")) == Failure(CorruptInput(2))
  {
    assert TrimPadding("AB+C") == "AB+C";
    assert FirstInvalid("AB+C") == Some(2) by {
      assert "AB+C"[1..] == "B+C";
      assert "B+C"[1..] == "+C";
    }
  }

  /** The constructor as written: the records build into a store holding "k1", yet the
      constructor hands back neither a store nor an error. */
  lemma ConstructorDropsStore()
    ensures BuildKeys([K1]).Success? && "k1" in BuildKeys([K1]).value
    ensures NewFromJSONString([K1]) == (None, None)
  {
    SingleKeyScenario();
  }
}
