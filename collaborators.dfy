/** The X.509 DER certificate parser the decoder hands the rest of its input
    to. Its internals are not modelled: a parser is any function from the
    remaining bytes to a failure or a certificate with the number of bytes
    that certificate's encoding took up. */
module CertificateParser {
  import opened Bytes

  datatype ParseResult<C> =
    | CertificateError
    | Parsed(certificate: C, consumed: nat)

  type Parser<C> = seq<byte> -> ParseResult<C>

  /** What the decoder relies on: a DER encoding is self-delimiting, so a
      successful parse takes at least one byte and never more than it was given. */
  ghost predicate Contract<C>(parseDer: Parser<C>)
  {
    forall rest: seq<byte> :: parseDer(rest).Parsed? ==> 0 < parseDer(rest).consumed <= |rest|
  }
}

/** The signature check of the cryptography provider: given the attestation
    certificate, the signed bytes and the signature, it answers yes or no.
    ECDSA itself is not modelled. */
module Crypto {
  import opened Bytes

  type SignatureVerifier<-C> = (C, seq<byte>, seq<byte>) -> bool

  /** An idealised verifier: under one certificate, one signature is accepted
      for at most one message. */
  ghost predicate CoversOneMessage<C>(verify: SignatureVerifier<C>, certificate: C, signature: seq<byte>)
  {
    forall m: seq<byte>, m': seq<byte> ::
      verify(certificate, m, signature) && verify(certificate, m', signature) ==> m == m'
  }
}
