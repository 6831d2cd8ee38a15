/** The closed error taxonomy of the key resolver: one constructor per sentinel error
    (erx.go), plus the decoder's own error and the wrapped key-type error. */
module Errors {

  datatype Err =
    /** `ErrJWKAlgNotSupported`, wrapped together with the offending key type. */
    | JWKAlgNotSupported(kty: string)
    /** `ErrReqComponents`: an RSA record lacks its modulus or exponent. */
    | ReqComponents
    /** `ErrReqKid`: the token header has no `kid`. */
    | ReqKid
    /** `ErrKidConvert`: the header's `kid` is not a string. */
    | KidConvert
    /** `ErrReqAlg`: the token header has no `alg`. */
    | ReqAlg
    /** `ErrAlgConvert`: the header's `alg` is not a string. */
    | AlgConvert
    /** `ErrPKNotFound`: no key is stored under the header's `kid`. */
    | PKNotFound
    /** `ErrAlgNotSupported`: the key is pinned to a different algorithm. */
    | AlgNotSupported
    /** The base64 decoder's `CorruptInputError`: the offset of the offending input. */
    | CorruptInput(offset: nat)
}
