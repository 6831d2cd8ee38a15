/** The key set (jwks.go): building the store from JWK records, and resolving the key a
    token header names. */
module Jwks {
  import opened Wrappers
  import opened Errors
  import opened Rsa

  /** A stored key: the converted public key, the algorithm it is pinned to (empty means
      any) and its intended use, which is carried but never checked. */
  datatype ParsedJWK = ParsedJWK(pk: RSAKey, alg: string, use: string)

  /** The key set: key identifier to stored key. Built once, only read afterwards. */
  datatype JWKS = JWKS(keys: map<string, ParsedJWK>)

  /** A value of the token header: a string, or a value of any other JSON type. */
  datatype HeaderValue = Str(s: string) | Other

  type Header = map<string, HeaderValue>

  /** The key identifiers of the records. */
  function Kids(records: seq<JWK>): (kids: set<string>) {
    set i | 0 <= i < |records| :: records[i].kid
  }

  /** No later record shares the identifier of record `i`. */
  predicate IsLastWithKid(records: seq<JWK>, i: nat)
    requires i < |records|
  {
    forall j :: i < j < |records| ==> records[j].kid != records[i].kid
  }

  /** The dispatch on the key type: RSA records are converted, every other key type is
      refused with the type named. */
  function Convert(k: JWK): (r: Result<RSAKey, Err>)
    ensures k.kty != KtyRSA ==> r == Failure(JWKAlgNotSupported(k.kty))
    ensures k.kty == KtyRSA ==> r == RSA(k)
  {
    if k.kty == KtyRSA then RSA(k) else Failure(JWKAlgNotSupported(k.kty))
  }

  /** The loop over the records: each record is converted in order, the first failure
      ends the build with its error, and each success is stored under its `kid`,
      replacing what an earlier record stored there. */
  function BuildFrom(acc: map<string, ParsedJWK>, records: seq<JWK>): (r: Result<map<string, ParsedJWK>, Err>)
    ensures r.Success? ==> acc.Keys <= r.value.Keys
    ensures r.Failure? ==> exists i :: 0 <= i < |records| && Convert(records[i]) == Failure(r.error)
    decreases |records|
  {
    if |records| == 0 then Success(acc)
    else
      var k := records[0];
      match Convert(k)
      case Failure(err) => Failure(err)
      case Success(pk) => BuildFrom(acc[k.kid := ParsedJWK(pk, k.alg, k.use)], records[1..])
  }

  /** The store the constructor's loop builds, from an empty map. */
  function BuildKeys(records: seq<JWK>): (r: Result<map<string, ParsedJWK>, Err>)
    ensures r.Success? <==> forall i :: 0 <= i < |records| ==> Convert(records[i]).Success?
    ensures r.Success? ==> r.value.Keys == Kids(records)
    ensures forall i :: 0 <= i < |records| && Convert(records[i]).Failure? &&
                        (forall j :: 0 <= j < i ==> Convert(records[j]).Success?) ==>
              r == Failure(Convert(records[i]).error)
  {
    BuildFromOutcome(map[], records);
    var r := BuildFrom(map[], records);
    if r.Success? then BuildFromKeys(map[], records); r else r
  }

  /** The build fails exactly when some record does not convert, and then with the
      error of the first such record: nothing is stored when a later record fails. */
  lemma {:induction false} BuildFromOutcome(acc: map<string, ParsedJWK>, records: seq<JWK>)
    ensures BuildFrom(acc, records).Success? <==>
              forall i :: 0 <= i < |records| ==> Convert(records[i]).Success?
    ensures forall i :: 0 <= i < |records| && Convert(records[i]).Failure? &&
                        (forall j :: 0 <= j < i ==> Convert(records[j]).Success?) ==>
              BuildFrom(acc, records) == Failure(Convert(records[i]).error)
    decreases |records|
  {
    if |records| > 0 {
      var k := records[0];
      if Convert(k).Success? {
        var acc' := acc[k.kid := ParsedJWK(Convert(k).value, k.alg, k.use)];
        BuildFromOutcome(acc', records[1..]);
        forall i | 1 <= i < |records| && Convert(records[i]).Failure? &&
                   (forall j :: 0 <= j < i ==> Convert(records[j]).Success?)
          ensures BuildFrom(acc, records) == Failure(Convert(records[i]).error)
        {
          assert records[1..][i - 1] == records[i];
          assert forall j :: 0 <= j < i - 1 ==> records[1..][j] == records[j + 1];
        }
        assert forall i :: 1 <= i < |records| ==> records[1..][i - 1] == records[i];
      }
    }
  }

  lemma KidsCons(records: seq<JWK>)
    requires |records| > 0
    ensures Kids(records) == {records[0].kid} + Kids(records[1..])
  {
    var rest := records[1..];
    forall kid | kid in Kids(records)
      ensures kid in {records[0].kid} + Kids(rest)
    {
      var i :| 0 <= i < |records| && records[i].kid == kid;
      if i > 0 {
        assert rest[i - 1] == records[i];
      }
    }
    forall kid | kid in Kids(rest)
      ensures kid in Kids(records)
    {
      var i :| 0 <= i < |rest| && rest[i].kid == kid;
      assert records[i + 1] == rest[i];
    }
  }

  /** The keys a successful build stores: the accumulator's keys plus every record's
      `kid`. */
  lemma {:induction false} BuildFromKeys(acc: map<string, ParsedJWK>, records: seq<JWK>)
    requires BuildFrom(acc, records).Success?
    ensures BuildFrom(acc, records).value.Keys == acc.Keys + Kids(records)
    decreases |records|
  {
    if |records| > 0 {
      var k := records[0];
      var acc' := acc[k.kid := ParsedJWK(Convert(k).value, k.alg, k.use)];
      BuildFromKeys(acc', records[1..]);
      KidsCons(records);
    } else {
      assert Kids(records) == {};
    }
  }

  lemma LastWithKidTail(records: seq<JWK>, i: nat)
    requires 0 < i < |records| && IsLastWithKid(records, i)
    ensures records[1..][i - 1] == records[i]
    ensures IsLastWithKid(records[1..], i - 1)
  {
    var rest := records[1..];
    forall j | i - 1 < j < |rest|
      ensures rest[j].kid != rest[i - 1].kid
    {
      assert rest[j] == records[j + 1];
    }
  }

  lemma FirstIsLastWithKid(records: seq<JWK>)
    requires |records| > 0 && IsLastWithKid(records, 0)
    ensures records[0].kid !in Kids(records[1..])
  {
    var rest := records[1..];
    forall j | 0 <= j < |rest|
      ensures rest[j].kid != records[0].kid
    {
      assert rest[j] == records[j + 1];
    }
  }

  /** The entries a successful build stores: under each `kid`, the entry of the last
      record with that `kid`; the accumulator's other entries untouched. */
  lemma {:induction false} BuildFromEntries(acc: map<string, ParsedJWK>, records: seq<JWK>)
    requires BuildFrom(acc, records).Success?
    ensures forall i :: 0 <= i < |records| ==> Convert(records[i]).Success?
    ensures forall i :: 0 <= i < |records| && IsLastWithKid(records, i) ==>
              records[i].kid in BuildFrom(acc, records).value &&
              BuildFrom(acc, records).value[records[i].kid] ==
              ParsedJWK(Convert(records[i]).value, records[i].alg, records[i].use)
    ensures forall kid :: kid in acc && kid !in Kids(records) ==>
              kid in BuildFrom(acc, records).value && BuildFrom(acc, records).value[kid] == acc[kid]
    decreases |records|
  {
    BuildFromOutcome(acc, records);
    BuildFromKeys(acc, records);
    if |records| > 0 {
      var m := BuildFrom(acc, records).value;
      var k := records[0];
      var rest := records[1..];
      var acc' := acc[k.kid := ParsedJWK(Convert(k).value, k.alg, k.use)];
      assert m == BuildFrom(acc', rest).value;
      BuildFromEntries(acc', rest);
      KidsCons(records);
      forall i | 0 <= i < |records| && IsLastWithKid(records, i)
        ensures m[records[i].kid] == ParsedJWK(Convert(records[i]).value, records[i].alg, records[i].use)
      {
        if i == 0 {
          FirstIsLastWithKid(records);
        } else {
          LastWithKidTail(records, i);
        }
      }
    }
  }

  /** The store a successful build produces, stated on the records alone. */
  lemma BuildKeysContents(records: seq<JWK>)
    requires BuildKeys(records).Success?
    ensures forall i :: 0 <= i < |records| ==> records[i].kty == KtyRSA && RSA(records[i]).Success?
    ensures BuildKeys(records).value.Keys == Kids(records)
    ensures forall i :: 0 <= i < |records| && IsLastWithKid(records, i) ==>
              BuildKeys(records).value[records[i].kid] ==
              ParsedJWK(RSA(records[i]).value, records[i].alg, records[i].use)
  {
    BuildFromKeys(map[], records);
    BuildFromEntries(map[], records);
  }

  /** A record of another key type fails the build with that type, even when every
      earlier record was valid. */
  lemma UnsupportedKeyTypeFailsBuild(records: seq<JWK>, i: nat)
    requires i < |records| && records[i].kty != KtyRSA
    requires forall j :: 0 <= j < i ==> Convert(records[j]).Success?
    ensures BuildKeys(records) == Failure(JWKAlgNotSupported(records[i].kty))
  {
    BuildFromOutcome(map[], records);
  }

  /** An RSA record that does not convert fails the whole build with its own error,
      when every earlier record converted. */
  lemma BadRsaRecordFailsBuild(records: seq<JWK>, i: nat)
    requires i < |records| && records[i].kty == KtyRSA && RSA(records[i]).Failure?
    requires forall j :: 0 <= j < i ==> Convert(records[j]).Success?
    ensures BuildKeys(records) == Failure(RSA(records[i]).error)
  {
    BuildFromOutcome(map[], records);
  }

  /** `NewFromJSONString` after deserialization, as written: on failure it returns no
      store and the error; on success it builds the store, then returns no store and
      no error. */
  function NewFromJSONString(records: seq<JWK>): (r: (Option<JWKS>, Option<Err>))
    ensures r.0 == None
    ensures r.1.None? <==> forall i :: 0 <= i < |records| ==> Convert(records[i]).Success?
    ensures forall i :: 0 <= i < |records| && Convert(records[i]).Failure? &&
                        (forall j :: 0 <= j < i ==> Convert(records[j]).Success?) ==>
              r.1 == Some(Convert(records[i]).error)
  {
    BuildFromOutcome(map[], records);
    match BuildKeys(records)
    case Failure(err) => (None, Some(err))
    case Success(keys) =>
      var result := JWKS(keys);
      (None, None)
  }

  /** The constructor as evidently intended: the built store, or the first error. */
  function NewStore(records: seq<JWK>): (r: Result<JWKS, Err>)
    ensures r.Success? <==> forall i :: 0 <= i < |records| ==> Convert(records[i]).Success?
    ensures r.Success? ==> r.value.keys.Keys == Kids(records)
    ensures forall i :: 0 <= i < |records| && Convert(records[i]).Failure? &&
                        (forall j :: 0 <= j < i ==> Convert(records[j]).Success?) ==>
              r == Failure(Convert(records[i]).error)
  {
    BuildFromOutcome(map[], records);
    match BuildKeys(records)
    case Failure(err) => Failure(err)
    case Success(keys) =>
      BuildFromKeys(map[], records);
      Success(JWKS(keys))
  }

  /** `getPublicKey`: the stored key for `kid`, provided its pinned algorithm is empty
      or equal to `alg`. */
  function GetPublicKey(j: JWKS, kid: string, alg: string): (r: Result<RSAKey, Err>)
    ensures kid !in j.keys ==> r == Failure(PKNotFound)
    ensures kid in j.keys && j.keys[kid].alg != "" && j.keys[kid].alg != alg ==>
              r == Failure(AlgNotSupported)
    ensures r.Success? <==> kid in j.keys && (j.keys[kid].alg == "" || j.keys[kid].alg == alg)
    ensures r.Success? ==> r.value == j.keys[kid].pk
    ensures r.Failure? ==> r.error == PKNotFound || r.error == AlgNotSupported
  {
    if kid !in j.keys then Failure(PKNotFound)
    else
      var pk := j.keys[kid];
      if pk.alg != "" && pk.alg != alg then Failure(AlgNotSupported)
      else Success(pk.pk)
  }

  /** `KeyFunc`: read `kid` then `alg` from the header, each present and a string, and
      look the key up. The first failing check decides the error. */
  function KeyFunc(j: JWKS, header: Header): (r: Result<RSAKey, Err>)
    ensures "kid" !in header ==> r == Failure(ReqKid)
    ensures "kid" in header && !header["kid"].Str? ==> r == Failure(KidConvert)
    ensures "kid" in header && header["kid"].Str? && "alg" !in header ==> r == Failure(ReqAlg)
    ensures "kid" in header && header["kid"].Str? && "alg" in header && !header["alg"].Str? ==>
              r == Failure(AlgConvert)
    ensures r.Success? <==>
              && "kid" in header && header["kid"].Str?
              && "alg" in header && header["alg"].Str?
              && var kid := header["kid"].s;
                 kid in j.keys && (j.keys[kid].alg == "" || j.keys[kid].alg == header["alg"].s)
    ensures r.Success? ==> r.value == j.keys[header["kid"].s].pk
    ensures "kid" in header && header["kid"].Str? && "alg" in header && header["alg"].Str? ==>
              r == GetPublicKey(j, header["kid"].s, header["alg"].s)
  {
    if "kid" !in header then Failure(ReqKid)
    else match header["kid"]
      case Other => Failure(KidConvert)
      case Str(kid) =>
        if "alg" !in header then Failure(ReqAlg)
        else match header["alg"]
          case Other => Failure(AlgConvert)
          case Str(alg) => GetPublicKey(j, kid, alg)
  }

  /** A header declaring `kid` and `alg` as strings. */
  function TokenHeader(kid: string, alg: string): Header {
    map["kid" := Str(kid), "alg" := Str(alg)]
  }

  /** An empty pinned algorithm accepts every declared algorithm alike. */
  lemma EmptyPinAcceptsAnyAlg(j: JWKS, kid: string, alg1: string, alg2: string)
    requires kid in j.keys && j.keys[kid].alg == ""
    ensures GetPublicKey(j, kid, alg1) == GetPublicKey(j, kid, alg2) == Success(j.keys[kid].pk)
  {
  }

  /** A non-empty pinned algorithm refuses every other declared algorithm. */
  lemma PinnedAlgRefusesOthers(j: JWKS, kid: string, alg: string)
    requires kid in j.keys && j.keys[kid].alg != "" && j.keys[kid].alg != alg
    ensures KeyFunc(j, TokenHeader(kid, alg)) == Failure(AlgNotSupported)
  {
  }

  /** Build then resolve: resolving the `kid` and `alg` of the last record with that
      `kid` yields that record's own RSA key, and so does any algorithm when the record
      pins none. */
  lemma ResolveAfterBuild(records: seq<JWK>, i: nat, alg: string)
    requires NewStore(records).Success?
    requires i < |records| && IsLastWithKid(records, i)
    requires alg == records[i].alg || records[i].alg == ""
    ensures RSA(records[i]).Success?
    ensures KeyFunc(NewStore(records).value, TokenHeader(records[i].kid, alg)) ==
            Success(RSA(records[i]).value)
  {
    BuildKeysContents(records);
  }

  /** Duplicate identifiers: a later record replaces an earlier one with the same `kid`. */
  lemma LaterDuplicateWins(records: seq<JWK>, i: nat, j: nat)
    requires NewStore(records).Success?
    requires i < j < |records| && records[i].kid == records[j].kid && IsLastWithKid(records, j)
    ensures NewStore(records).value.keys[records[i].kid] ==
            ParsedJWK(RSA(records[j]).value, records[j].alg, records[j].use)
  {
    BuildKeysContents(records);
  }
}
