# U2F registration response: decoder and signed payload

A model of `RawRegisterResponse` from the U2F part of java-webauthn-server. A
security key answers a U2F registration request with a binary blob:

| offset | field | length |
|---|---|---|
| 0 | reserved byte, `0x05` | 1 |
| 1 | user public key (uncompressed P-256 point) | 65 |
| 66 | key-handle length `n`, unsigned | 1 |
| 67 | key handle | `n` |
| 67+n | attestation certificate, DER | self-delimiting |
| after it | signature | the rest |

The decoder walks this layout with a cursor and stops at the first problem:

- a wrong reserved byte is `BadMarker`, which carries the byte read as a signed Java `byte`;
- running out of bytes is `Truncated`;
- a certificate the parser refuses is `MalformedCertificate`.

The attestation signature does not cover the blob. It covers a payload rebuilt
from the decoded fields:
`0x00 ‖ appIdHash ‖ clientDataHash ‖ keyHandle ‖ userPublicKey`.
`verifySignature` hands that payload, the certificate and the stored signature
to the cryptography provider and returns its answer.

Files:

- `bytes.dfy` (module `Bytes`): octets, Java's signed `byte`, and the two conversions the stream classes perform.
- `collaborators.dfy` (modules `CertificateParser` and `Crypto`): the two external collaborators.
  The DER parser is a function parameter whose contract says a successful parse consumes between 1 and all of the remaining bytes.
  The signature verifier is a function parameter too.
- `register_response.dfy` (module `RegisterResponse`): the entity, the error type, and the decoder.
  The decoder comes twice: `Decode`, stated on the layout, and `FromBytes`, the cursor walk proved equal to it.
  The payload builder also comes twice: `SignedPayload` and `PackBytesToSign`, the buffer-appending method proved equal to it.
  The module also holds `VerifySignature`.
- `register_response_lemmas.dfy` (module `RegisterResponseLemmas`): the round trip in both directions, a worked example, the separation of the two reserved bytes, and tamper-evidence of the signed payload.

Every slice in `FromBytes` and `Decode` is checked by the verifier to be in
bounds, so no read goes past the end of the input.

In three places the code's behaviour may be unexpected; the model follows the code:

- A certificate cut short is a certificate-parser failure, so it yields `MalformedCertificate`, not `Truncated`.
- The signature may be empty: `readAll` of zero remaining bytes succeeds.
- Verification returns the verifier's boolean. A provider fault is an unchecked exception in the code and is not part of the model (see "Left out").

## Model

| member | source | states |
|---|---|---|
| `Bytes.ToSigned` | webauthn-server-core/src/main/java/com/yubico/u2f/impl/RawRegisterResponse.java:77 | `readSigned` reads an octet as the two's-complement `byte` congruent to it modulo 256, non-negative exactly for octets below 128 |
| `Bytes.ToOctet` | webauthn-server-core/src/main/java/com/yubico/u2f/impl/RawRegisterResponse.java:106 | writing a `byte` emits the value itself when non-negative and the value plus 256 when negative |
| `Bytes.OctetRoundTrip` | webauthn-server-core/src/main/java/com/yubico/u2f/impl/RawRegisterResponse.java:77 | writing back an octet read as a signed `byte` gives the same octet |
| `Bytes.SignedRoundTrip` | webauthn-server-core/src/main/java/com/yubico/u2f/impl/RawRegisterResponse.java:106 | reading back a written signed `byte` gives the same value |
| `Bytes.ToSignedInjective` | webauthn-server-core/src/main/java/com/yubico/u2f/impl/RawRegisterResponse.java:77-78 | two octets read as the same signed `byte` exactly when they are equal, so the signed comparison against the reserved byte is an octet comparison |
| `RegisterResponse.Decode` | webauthn-server-core/src/main/java/com/yubico/u2f/impl/RawRegisterResponse.java:74-96 | `BadMarker` exactly when the first byte is present and is not `0x05`, whatever follows, carrying that byte as read; `Truncated` exactly when the input is empty or, after a good marker, lacks the 65-byte key, the length byte or the `n` key-handle bytes; `MalformedCertificate` exactly when all of those are present and the parser fails on the rest; on success the key is the 65 bytes `input[1..66]`, the key handle has length `input[66]` and is `input[67..67+n]`, the certificate is the parser's, and the signature is what follows the bytes the parser consumed |
| `RegisterResponse.FromBytes` | webauthn-server-core/src/main/java/com/yubico/u2f/impl/RawRegisterResponse.java:74-97 | the cursor walk (reserved byte, 65 bytes, unsigned length, key handle, certificate, rest) with a bounds check before each read returns exactly `Decode`'s result |
| `RegisterResponse.SignedPayload` | webauthn-server-core/src/main/java/com/yubico/u2f/impl/RawRegisterResponse.java:104-112 | the payload's length is one plus the lengths of the four fields; it starts with `0x00`, holds each field at the offset where the previous one ends, and its first byte differs from the wire reserved byte `0x05` |
| `RegisterResponse.PackBytesToSign` | webauthn-server-core/src/main/java/com/yubico/u2f/impl/RawRegisterResponse.java:104-112 | appending the signed reserved byte and the four fields to an empty buffer yields `SignedPayload` of them |
| `RegisterResponse.SignedLayoutUnique` | webauthn-server-core/src/main/java/com/yubico/u2f/impl/RawRegisterResponse.java:105-111 | any buffer with the signed layout of four fields is the payload built from them |
| `RegisterResponse.VerifySignature` | webauthn-server-core/src/main/java/com/yubico/u2f/impl/RawRegisterResponse.java:99-102 | the result is the verifier's answer for the stored certificate, the buffer with the signed layout of the two hashes, the stored key handle and the stored public key, and the stored signature |
| `RegisterResponseLemmas.DecodeReconstructs` | webauthn-server-core/src/main/java/com/yubico/u2f/impl/RawRegisterResponse.java:85-91 | a decoded input equals the reserved byte `0x05`, userPublicKey, one byte holding the length of keyHandle, keyHandle, certBytes and signature, in that order, where certBytes are exactly the bytes the parser consumed |
| `RegisterResponseLemmas.DecodeWireBytes` | webauthn-server-core/src/main/java/com/yubico/u2f/impl/RawRegisterResponse.java:77-91 | the wire encoding of a 65-byte key, a key handle of under 256 bytes, a certificate the parser delimits exactly and any signature decodes to exactly those fields |
| `RegisterResponseLemmas.ExampleRegistration` | webauthn-server-core/src/main/java/com/yubico/u2f/impl/RawRegisterResponse.java:85-91 | `0x05`, 65 zero bytes, `0x04`, `[1,2,3,4]`, a certificate and `[9,9]` decode to key handle `[1,2,3,4]`, signature `[9,9]` and the 65 zero bytes as public key |
| `RegisterResponseLemmas.SignedPayloadIsNotARegistration` | webauthn-server-core/src/main/java/com/yubico/u2f/impl/RawRegisterResponse.java:32-33 | a signed payload given to the decoder is refused with `BadMarker(0)`: the two reserved bytes cannot be confused |
| `RegisterResponseLemmas.SignedPayloadInjective` | webauthn-server-core/src/main/java/com/yubico/u2f/impl/RawRegisterResponse.java:104-112 | with the hash and key-handle lengths fixed, equal payloads have equal fields |
| `RegisterResponseLemmas.SignedPayloadNeedsFieldLengths` | webauthn-server-core/src/main/java/com/yubico/u2f/impl/RawRegisterResponse.java:104-112 | without fixed lengths the payload is ambiguous: moving a byte from `appIdHash` to `clientDataHash` gives the same payload |
| `RegisterResponseLemmas.VerifySignatureTamperEvident` | webauthn-server-core/src/main/java/com/yubico/u2f/impl/RawRegisterResponse.java:99-102 | if the verifier accepts one signature for one message only, a signature accepted for one response and hash pair is rejected for any other with the same certificate and field lengths in which any field differs |

## Left out

- Base64 decoding of the input string is not modelled. `FromBytes` starts from the decoded bytes; a base64 error is not one of its outcomes.
- X.509 DER parsing is not modelled. The parser is a function parameter that returns a failure, or a certificate and the number of bytes it consumed. The certificate is a type parameter.
- ECDSA verification, P-256 point decoding and SHA-256 are not modelled. They live in `BouncyCastleCrypto` and wrap the platform's cryptography libraries. The verifier is a function parameter.
- `VerifySignatureTamperEvident` assumes an idealised verifier that accepts a signature for one message only. Real ECDSA gives this only computationally, not absolutely.
- Registering the BouncyCastle provider at class-load time is not modelled. It is process-wide start-up state.
- Provider faults are not modelled. The code turns them into unchecked exceptions in `BouncyCastleCrypto`, so they are not a `false` result. The model's verifier always answers.
- The cryptography provider field is not part of the response value. The code also leaves it out of equality and hashing. The two constructors, one choosing the default provider, become the single datatype constructor, and the provider is passed to `VerifySignature`.
- `VerifySignature` is a function, so it builds the payload with `SignedPayload`, the function `PackBytesToSign` is proved equal to, instead of calling that method.
- Exception messages and the wrapping of exceptions are not modelled. Each failure is one `DecodeError` variant.
- Generated `equals`, `hashCode` and `toString` are not modelled. Datatype equality is structural over the four fields.
- The byte cursor class the code reads through is not part of this model. Its reads are modelled as bounds-checked slices of the input at a position that advances after each read. The model assumes that `readSigned`, `readUnsigned` and `read(n)` throw an end-of-file `IOException` when fewer bytes remain than they need, which the decoder reports as `Truncated`, and that `readAll` returns exactly the bytes that remain.
