/** The raw U2F registration response a security key returns when it enrols a
    credential: its wire-format decoder, and the payload its attestation
    signature is computed over.

    Wire format (offsets in bytes):
      0          reserved byte, 0x05
      1..66      user public key (uncompressed P-256 point, 65 bytes)
      66         key-handle length n, unsigned
      67..67+n   key handle
      67+n..     attestation certificate (DER, self-delimiting), then
                 the signature: every byte that is left. */
module RegisterResponse {
  import opened Bytes
  import CertificateParser
  import Crypto

  /** The reserved byte that opens a registration response on the wire. */
  const REGISTRATION_RESERVED_BYTE_VALUE: int8 := 0x05

  /** The reserved byte that opens the payload the attestation signature covers. */
  const REGISTRATION_SIGNED_RESERVED_BYTE_VALUE: int8 := 0x00

  const USER_PUBLIC_KEY_LENGTH: nat := 65

  /** Offsets of the fixed part of the wire format. */
  const USER_PUBLIC_KEY_OFFSET: nat := 1
  const KEY_HANDLE_LENGTH_OFFSET: nat := USER_PUBLIC_KEY_OFFSET + USER_PUBLIC_KEY_LENGTH
  const KEY_HANDLE_OFFSET: nat := KEY_HANDLE_LENGTH_OFFSET + 1

  /** The decoded response. Its value is its four data fields; the
      cryptography provider is not part of it and is passed to
      VerifySignature instead. */
  datatype RawRegisterResponse<C> = RawRegisterResponse(
    userPublicKey: seq<byte>,
    keyHandle: seq<byte>,
    attestationCertificate: C,
    signature: seq<byte>)

  /** The three ways a byte buffer is refused, each a bad-input error. */
  datatype DecodeError =
    | BadMarker(got: int8)       // "Incorrect value of reserved byte"
    | Truncated                  // "Truncated registration data"
    | MalformedCertificate       // "Malformed attestation certificate"

  datatype DecodeResult<C> =
    | Success(response: RawRegisterResponse<C>)
    | Failure(error: DecodeError)

  /** Where the key handle ends and the certificate begins. */
  function KeyHandleEnd(input: seq<byte>): nat
    requires KEY_HANDLE_LENGTH_OFFSET < |input|
  {
    KEY_HANDLE_OFFSET + input[KEY_HANDLE_LENGTH_OFFSET] as nat
  }

  /** The input holds the public key, the length byte and the whole key handle. */
  predicate HeaderPresent(input: seq<byte>)
  {
    KEY_HANDLE_LENGTH_OFFSET < |input| && KeyHandleEnd(input) <= |input|
  }

  /** The decoder, stated on the wire layout: each field is the slice of the
      input at its offset, and the first field that is missing or wrong
      decides the error. */
  function Decode<C>(input: seq<byte>, parseDer: CertificateParser.Parser<C>): (r: DecodeResult<C>)
    requires CertificateParser.Contract(parseDer)
    ensures r.Failure? && r.error.BadMarker? <==> 0 < |input| && input[0] != 0x05
    ensures r.Failure? && r.error.BadMarker? ==> r.error.got == ToSigned(input[0])
    ensures r == Failure(Truncated) <==> |input| == 0 || (input[0] == 0x05 && !HeaderPresent(input))
    ensures r == Failure(MalformedCertificate) <==>
      0 < |input| && input[0] == 0x05 && HeaderPresent(input)
      && parseDer(input[KeyHandleEnd(input)..]).CertificateError?
    ensures r.Success? ==>
      && 0 < |input| && input[0] == 0x05 && HeaderPresent(input)
      && var rest := input[KeyHandleEnd(input)..];
         && parseDer(rest).Parsed?
         && |r.response.userPublicKey| == USER_PUBLIC_KEY_LENGTH
         && r.response.userPublicKey == input[1..66]
         && |r.response.keyHandle| == input[66] as int
         && r.response.keyHandle == input[67..KeyHandleEnd(input)]
         && r.response.attestationCertificate == parseDer(rest).certificate
         && r.response.signature == rest[parseDer(rest).consumed..]
  {
    if |input| == 0 then
      Failure(Truncated)
    else if ToSigned(input[0]) != REGISTRATION_RESERVED_BYTE_VALUE then
      Failure(BadMarker(ToSigned(input[0])))
    else if !HeaderPresent(input) then
      Failure(Truncated)
    else
      var certStart := KeyHandleEnd(input);
      match parseDer(input[certStart..])
      case CertificateError => Failure(MalformedCertificate)
      case Parsed(certificate, consumed) =>
        Success(RawRegisterResponse(
          input[USER_PUBLIC_KEY_OFFSET..KEY_HANDLE_LENGTH_OFFSET],
          input[KEY_HANDLE_OFFSET..certStart],
          certificate,
          input[certStart + consumed..]))
  }

  /** `fromBase64` once the base64 text has been turned into bytes: a cursor
      walks the buffer field by field and every read first checks that the
      bytes it needs are there. */
  method FromBytes<C>(input: seq<byte>, parseDer: CertificateParser.Parser<C>) returns (r: DecodeResult<C>)
    requires CertificateParser.Contract(parseDer)
    ensures r == Decode(input, parseDer)
  {
    var pos: nat := 0;

    // readSigned
    if |input| - pos < 1 {
      return Failure(Truncated);
    }
    var reservedByte := ToSigned(input[pos]);
    pos := pos + 1;
    if reservedByte != REGISTRATION_RESERVED_BYTE_VALUE {
      return Failure(BadMarker(reservedByte));
    }

    // read(65)
    if |input| - pos < USER_PUBLIC_KEY_LENGTH {
      return Failure(Truncated);
    }
    var userPublicKey := input[pos..pos + USER_PUBLIC_KEY_LENGTH];
    pos := pos + USER_PUBLIC_KEY_LENGTH;

    // readUnsigned
    if |input| - pos < 1 {
      return Failure(Truncated);
    }
    var keyHandleLength := input[pos] as nat;
    pos := pos + 1;

    // read(keyHandleLength)
    if |input| - pos < keyHandleLength {
      return Failure(Truncated);
    }
    var keyHandle := input[pos..pos + keyHandleLength];
    pos := pos + keyHandleLength;

    // CertificateParser.parseDer
    var parsed := parseDer(input[pos..]);
    if parsed.CertificateError? {
      return Failure(MalformedCertificate);
    }
    pos := pos + parsed.consumed;

    // readAll
    var signature := input[pos..];
    return Success(RawRegisterResponse(userPublicKey, keyHandle, parsed.certificate, signature));
  }

  /** The payload `appIdHash`, `clientDataHash`, `keyHandle` and
      `userPublicKey` are laid out in: the signed reserved byte, then the four
      fields in that order, each at the offset the previous ones end at. */
  ghost predicate SignedLayout(m: seq<byte>, appIdHash: seq<byte>, clientDataHash: seq<byte>,
                               keyHandle: seq<byte>, userPublicKey: seq<byte>)
  {
    var a, c, k := 1 + |appIdHash|, 1 + |appIdHash| + |clientDataHash|,
                   1 + |appIdHash| + |clientDataHash| + |keyHandle|;
    && |m| == k + |userPublicKey|
    && m[0] == 0x00
    && m[1..a] == appIdHash
    && m[a..c] == clientDataHash
    && m[c..k] == keyHandle
    && m[k..] == userPublicKey
  }

  /** The bytes the attestation signature is computed over. */
  function SignedPayload(appIdHash: seq<byte>, clientDataHash: seq<byte>,
                         keyHandle: seq<byte>, userPublicKey: seq<byte>): (m: seq<byte>)
    ensures SignedLayout(m, appIdHash, clientDataHash, keyHandle, userPublicKey)
    ensures m[0] != ToOctet(REGISTRATION_RESERVED_BYTE_VALUE)
  {
    [ToOctet(REGISTRATION_SIGNED_RESERVED_BYTE_VALUE)] + appIdHash + clientDataHash + keyHandle + userPublicKey
  }

  /** `packBytesToSign`: the payload is built by appending to an output buffer. */
  method PackBytesToSign(appIdHash: seq<byte>, clientDataHash: seq<byte>,
                         keyHandle: seq<byte>, userPublicKey: seq<byte>) returns (encoded: seq<byte>)
    ensures encoded == SignedPayload(appIdHash, clientDataHash, keyHandle, userPublicKey)
  {
    encoded := [];
    encoded := encoded + [ToOctet(REGISTRATION_SIGNED_RESERVED_BYTE_VALUE)];
    encoded := encoded + appIdHash;
    encoded := encoded + clientDataHash;
    encoded := encoded + keyHandle;
    encoded := encoded + userPublicKey;
  }

  /** The layout pins the payload down: a buffer with the signed layout of
      these four fields is the one SignedPayload builds. */
  lemma SignedLayoutUnique(m: seq<byte>, appIdHash: seq<byte>, clientDataHash: seq<byte>,
                           keyHandle: seq<byte>, userPublicKey: seq<byte>)
    requires SignedLayout(m, appIdHash, clientDataHash, keyHandle, userPublicKey)
    ensures m == SignedPayload(appIdHash, clientDataHash, keyHandle, userPublicKey)
  {
  }

  /** `verifySignature`: the provider's verifier is asked about the stored
      certificate, the payload rebuilt from the two hashes and the stored
      fields, and the stored signature; its answer is returned as it is. */
  function VerifySignature<C>(response: RawRegisterResponse<C>, appIdHash: seq<byte>, clientDataHash: seq<byte>,
                              verify: Crypto.SignatureVerifier<C>): (ok: bool)
    ensures forall m :: SignedLayout(m, appIdHash, clientDataHash, response.keyHandle, response.userPublicKey) ==>
      (ok <==> verify(response.attestationCertificate, m, response.signature))
  {
    var signedBytes := SignedPayload(appIdHash, clientDataHash, response.keyHandle, response.userPublicKey);
    assert forall m :: SignedLayout(m, appIdHash, clientDataHash, response.keyHandle, response.userPublicKey) ==>
      m == signedBytes by {
      forall m | SignedLayout(m, appIdHash, clientDataHash, response.keyHandle, response.userPublicKey) {
        SignedLayoutUnique(m, appIdHash, clientDataHash, response.keyHandle, response.userPublicKey);
      }
    }
    verify(response.attestationCertificate, signedBytes, response.signature)
  }
}
