/** Properties that relate the decoder, the wire layout and the signed payload
    across several calls. */
module RegisterResponseLemmas {
  import opened Bytes
  import CertificateParser
  import Crypto
  import opened RegisterResponse

  /** The wire encoding of a response whose certificate is encoded as `certDer`. */
  function WireBytes(userPublicKey: seq<byte>, keyHandle: seq<byte>, certDer: seq<byte>, signature: seq<byte>): seq<byte>
    requires |keyHandle| < 256
  {
    [ToOctet(REGISTRATION_RESERVED_BYTE_VALUE)] + userPublicKey + [|keyHandle| as byte] + keyHandle + certDer + signature
  }

  /** A decoded buffer is exactly its fields put back in wire order: marker,
      public key, key-handle length, key handle, the bytes the certificate
      parser consumed, signature. Nothing is skipped and nothing is left over. */
  lemma {:induction false} DecodeReconstructs<C>(input: seq<byte>, parseDer: CertificateParser.Parser<C>)
    requires CertificateParser.Contract(parseDer)
    requires Decode(input, parseDer).Success?
    ensures var r := Decode(input, parseDer).response;
            var certStart := KeyHandleEnd(input);
            && |r.keyHandle| < 256
            && certStart <= |input| - |r.signature|
            && var certDer := input[certStart..|input| - |r.signature|];
               && parseDer(certDer + r.signature) == CertificateParser.Parsed(r.attestationCertificate, |certDer|)
               && input == WireBytes(r.userPublicKey, r.keyHandle, certDer, r.signature)
  {
    var r := Decode(input, parseDer).response;
    var certStart := KeyHandleEnd(input);
    var rest := input[certStart..];
    var consumed := parseDer(rest).consumed;
    var certDer := input[certStart..|input| - |r.signature|];
    assert certDer == rest[..consumed];
    assert certDer + r.signature == rest;
    assert [input[0]] == [ToOctet(REGISTRATION_RESERVED_BYTE_VALUE)];
    assert [input[66]] == [|r.keyHandle| as byte];
    assert input == input[..1] + input[1..66] + [input[66]] + input[67..certStart] + certDer + r.signature;
  }

  /** The converse: the wire encoding of any public key, key handle and
      signature, with a certificate the parser delimits exactly, decodes to
      those very fields. */
  lemma {:induction false} DecodeWireBytes<C>(userPublicKey: seq<byte>, keyHandle: seq<byte>, certDer: seq<byte>,
                                             signature: seq<byte>, certificate: C,
                                             parseDer: CertificateParser.Parser<C>)
    requires CertificateParser.Contract(parseDer)
    requires |userPublicKey| == USER_PUBLIC_KEY_LENGTH && |keyHandle| < 256
    requires parseDer(certDer + signature) == CertificateParser.Parsed(certificate, |certDer|)
    ensures Decode(WireBytes(userPublicKey, keyHandle, certDer, signature), parseDer)
         == Success(RawRegisterResponse(userPublicKey, keyHandle, certificate, signature))
  {
    var input := WireBytes(userPublicKey, keyHandle, certDer, signature);
    assert input[0] == 0x05;
    assert input[66] as int == |keyHandle|;
    assert KeyHandleEnd(input) == 67 + |keyHandle|;
    assert input[1..66] == userPublicKey;
    assert input[67..67 + |keyHandle|] == keyHandle;
    assert input[67 + |keyHandle|..] == certDer + signature;
    assert (certDer + signature)[|certDer|..] == signature;
  }

  /** A buffer of `0x05`, sixty-five zero bytes, the length 4, the key handle
      1, 2, 3, 4, a certificate and the signature 9, 9 decodes to those fields
      (syntactically: the all-zero key is not a curve point). */
  lemma ExampleRegistration<C>(certDer: seq<byte>, certificate: C, parseDer: CertificateParser.Parser<C>)
    requires CertificateParser.Contract(parseDer)
    requires parseDer(certDer + [9, 9]) == CertificateParser.Parsed(certificate, |certDer|)
    ensures Decode([0x05] + seq(65, _ => 0) + [0x04] + [1, 2, 3, 4] + certDer + [9, 9], parseDer)
         == Success(RawRegisterResponse(seq(65, _ => 0), [1, 2, 3, 4], certificate, [9, 9]))
  {
    DecodeWireBytes(seq(65, _ => 0), [1, 2, 3, 4], certDer, [9, 9], certificate, parseDer);
    assert WireBytes(seq(65, _ => 0), [1, 2, 3, 4], certDer, [9, 9])
        == [0x05] + seq(65, _ => 0) + [0x04] + [1, 2, 3, 4] + certDer + [9, 9];
  }

  /** The two reserved bytes cannot be confused: a signed payload handed to
      the decoder is refused at its first byte, which reads as 0. */
  lemma SignedPayloadIsNotARegistration<C>(appIdHash: seq<byte>, clientDataHash: seq<byte>,
                                           keyHandle: seq<byte>, userPublicKey: seq<byte>,
                                           parseDer: CertificateParser.Parser<C>)
    requires CertificateParser.Contract(parseDer)
    ensures Decode(SignedPayload(appIdHash, clientDataHash, keyHandle, userPublicKey), parseDer)
         == Failure(BadMarker(REGISTRATION_SIGNED_RESERVED_BYTE_VALUE))
  {
  }

  /** With the four field lengths fixed, the signed payload determines every
      field: changing any byte of any field changes the payload. */
  lemma SignedPayloadInjective(appIdHash: seq<byte>, clientDataHash: seq<byte>, keyHandle: seq<byte>, userPublicKey: seq<byte>,
                               appIdHash': seq<byte>, clientDataHash': seq<byte>, keyHandle': seq<byte>, userPublicKey': seq<byte>)
    requires |appIdHash| == |appIdHash'| && |clientDataHash| == |clientDataHash'| && |keyHandle| == |keyHandle'|
    requires SignedPayload(appIdHash, clientDataHash, keyHandle, userPublicKey)
          == SignedPayload(appIdHash', clientDataHash', keyHandle', userPublicKey')
    ensures appIdHash == appIdHash' && clientDataHash == clientDataHash'
    ensures keyHandle == keyHandle' && userPublicKey == userPublicKey'
  {
  }

  /** The lengths matter: nothing in the payload separates the fields, so
      moving a byte from one field to the next gives the same payload. The
      hashes are expected to be 32-byte digests; that is left to the caller. */
  lemma SignedPayloadNeedsFieldLengths()
    ensures SignedPayload([7], [], [], []) == SignedPayload([], [7], [], [])
  {
  }

  /** A signature the verifier accepts over the payload of one response and
      pair of hashes is rejected for any other response under the same
      certificate and signature whose hashes and key handle have the same
      lengths but whose fields differ, provided the verifier accepts one
      signature for one message only. */
  lemma {:induction false} VerifySignatureTamperEvident<C>(
      response: RawRegisterResponse<C>, appIdHash: seq<byte>, clientDataHash: seq<byte>,
      response': RawRegisterResponse<C>, appIdHash': seq<byte>, clientDataHash': seq<byte>,
      verify: Crypto.SignatureVerifier<C>)
    requires Crypto.CoversOneMessage(verify, response.attestationCertificate, response.signature)
    requires response'.attestationCertificate == response.attestationCertificate
    requires response'.signature == response.signature
    requires |appIdHash| == |appIdHash'| && |clientDataHash| == |clientDataHash'|
    requires |response.keyHandle| == |response'.keyHandle|
    requires appIdHash != appIdHash' || clientDataHash != clientDataHash'
          || response.keyHandle != response'.keyHandle || response.userPublicKey != response'.userPublicKey
    requires VerifySignature(response, appIdHash, clientDataHash, verify)
    ensures !VerifySignature(response', appIdHash', clientDataHash', verify)
  {
    var m := SignedPayload(appIdHash, clientDataHash, response.keyHandle, response.userPublicKey);
    var m' := SignedPayload(appIdHash', clientDataHash', response'.keyHandle, response'.userPublicKey);
    if m == m' {
      SignedPayloadInjective(appIdHash, clientDataHash, response.keyHandle, response.userPublicKey,
                             appIdHash', clientDataHash', response'.keyHandle, response'.userPublicKey);
      assert false;
    }
    assert verify(response.attestationCertificate, m, response.signature);
  }
}
