# OCSP response verification, modelled in Dafny

This project models `verify(options, cb)` of `lib/agent/verify.js`. That
function decides whether one OCSP response (RFC 6960, decoded with the
RFC 2560 ASN.1 schema) is accepted for a request. It checks the response
against the request's CertID and against a trusted issuer certificate. The
function is a chain of checks, and the first check that fails ends the call
with one completion:

1. decode the issuer (unless the request already carries it) and parse the response;
2. look up the response's signature algorithm in the sign table;
3. choose the trusted key: the issuer's key, or the key of the first embedded
   (delegated responder) certificate once the issuer's key verifies that
   certificate's signature;
4. verify the response signature over the encoded `tbsResponseData`;
5. require at least one entry and take the first one;
6. compare the CertID: hash algorithm, then issuer-name hash, then issuer-key hash, then serial number;
7. require status `good`;
8. require `thisUpdate - nudge <= now <= nextUpdate + nudge`.

The modules follow the components of that chain:

- `OcspTypes` (types.dfy) holds the data model.
- `Encoding` (encoding.dfy) gives the dotted and hexadecimal string forms the
  code compares, with their inverse parsers.
- `AlgorithmRegistry` (registry.dfy) is the sign-table lookup.
- `CertIdMatcher` (certid.dfy) compares CertIDs.
- `StatusFreshness` (freshness.dfy) checks the nudge, the status and the freshness window.
- `Delegation` (delegation.dfy) chooses the trusted key.
- `Verification` (verify.dfy) is the orchestrator.

The decision is modelled as pure functions. The code reassigns the local
`issuerKey` to the delegated key. Here that is the two-state `TrustedKey`
value (`IssuerKey` or `DelegatedKey`), which `Delegation.ChooseTrustedKey`
returns. The code also reassigns `res` from the parsed response to its first
entry. Here that is the `res` field of the `Completion` that `Verification.Verify`
returns: the value that `done` passes to the callback as its second argument.

The model does not implement the decoders, the DER encoders, the signature
primitive or the sign table. They are fields of the `Services` value that the
check receives:

- `decodeIssuer` is `rfc3280.Certificate.decode` after `toDER`.
- `parseResponse` is `ocsp.utils.parseResponse`. A thrown decoding error is `None`.
- `encodeResponseData` and `encodeTbsCertificate` are the DER encoders.
- `sigOk(key, alg, bytes, signature)` is `crypto` verification.
- `signTable` is `ocsp.utils.sign`, a map from a dotted OID string to a scheme name.

The key given to `sigOk` is the `SubjectPublicKeyInfo` record. The code passes
`toPEM(encode(spki))`, which is a function of that record. The wall clock
`+new Date()` is the parameter `now`, in milliseconds.

In these places the code behaves differently from what its design suggests. The model follows the code:

- The code checks signatures over re-encoded `tbsResponseData` and
  `tbsCertificate`, not over the bytes as received. The model checks over
  `encodeResponseData(tbsResponseData)` and `encodeTbsCertificate(tbs)`.
- The code reports one "Invalid signature" error for both the delegated
  certificate and the response. The model has one `InvalidSignature` kind.
- `options.nudge || 60000` replaces a nudge of 0 with the default, as well as
  an absent one (`StatusFreshness.EffectiveNudge`).
- `done` passes `res` to the callback on failures too. This is the parsed
  response for failures at lines 55-96 and the first entry after line 98
  (`Verification.Verify`).
- An absent `nextUpdate` gives no upper bound, because `undefined + nudge` is
  `NaN` and every comparison with `NaN` is false.
- An empty string in the sign table is falsy. That OID is treated as unknown.

## Model

| member | source | states |
|---|---|---|
| `Verification.Verify` | lib/agent/verify.js:32-130 | one completion per call; on success the value passed along is the first entry; no value before parsing, exactly the parsed response for algorithm, signature and missing-entry failures, and `responses[0]` for every later outcome; DecodeError exactly when a decoding fails; an envelope failure is the outcome of the algorithm, key, signature and entry-count checks on the parsed response; once those pass, the outcome is that of the CertID, status and freshness checks on the first entry |
| `Verification.VerifyAcceptsIff` | lib/agent/verify.js:43-129 | success if and only if both decodings succeed and every acceptance requirement holds (authorized signature, an entry, same CertID, good, inside the window); the success entry is `responses[0]` |
| `Verification.DecodeFailureStops` | lib/agent/verify.js:43-51 | a failed issuer decoding or response parse gives DecodeError with nothing passed along, before any later check |
| `Verification.PreDecodedIssuerSkipsDecoding` | lib/agent/verify.js:44-46 | when the request carries a decoded issuer, the issuer bytes and the issuer decoder do not affect the outcome |
| `Verification.UnknownAlgorithmPrecedesSignatures` | lib/agent/verify.js:55-62 | an unlisted response algorithm gives UnknownAlg, whatever the signature primitive answers |
| `Verification.ForgedDelegationRejected` | lib/agent/verify.js:74-81 | a delegated certificate with a listed algorithm that the issuer did not sign gives InvalidSignature, even if the response verifies under its key |
| `Verification.BadResponseSignatureRejected` | lib/agent/verify.js:91-93 | a response signature that fails under the trusted key gives InvalidSignature before entries, CertID, status or time are examined |
| `Verification.NoEntriesIsMissingResponse` | lib/agent/verify.js:95-96 | a correctly signed response with no entries gives MissingResponse |
| `Verification.OnlyFirstEntryExamined` | lib/agent/verify.js:98-127 | after the envelope checks pass, two responses with the same first entry get the same completion |
| `Verification.NotGoodNeverAccepted` | lib/agent/verify.js:120-122 | a revoked or unknown status gives BadStatus with that status, even when signature and CertID pass |
| `Verification.IssuerOf` | lib/agent/verify.js:44-46 | an issuer carried by the request is used as it is; otherwise the issuer is exactly what decoding the issuer bytes gives |
| `Verification.CheckSignedResponse` | lib/agent/verify.js:55-96 | the algorithm, trusted-key, signature and entry-count checks pass if and only if the reference signature requirement holds and there is an entry; UnknownAlg exactly when the response's or the delegated certificate's algorithm is unlisted; a missing entry is reported only for a correctly signed response; every other failure is InvalidSignature |
| `Verification.CheckEntry` | lib/agent/verify.js:100-127 | success if and only if the entry has the requested CertID, is good and is inside the window; a CertID failure exactly when the CertIDs differ, and then the one the matcher names for the first differing field; then BadStatus, then Expired |
| `CertIdMatcher.MatchCertId` | lib/agent/verify.js:102-118 | the string and `cmp` comparisons match exactly when the CertIDs are equal; the first differing field, in the order hash algorithm, name hash, key hash, serial, names the failure |
| `Encoding.Dotted` | lib/agent/verify.js:55 | `join('.')`: empty exactly for an empty OID, made of digits and dots, starting and ending with a digit |
| `Encoding.Hex` | lib/agent/verify.js:107-113 | `toString('hex')`: two lower-case hexadecimal digits per byte |
| `Encoding.DottedInjective` | lib/agent/verify.js:102-103 | two OIDs joined with '.' give the same string if and only if they are equal |
| `Encoding.HexInjective` | lib/agent/verify.js:107-115 | two byte strings have the same hexadecimal form if and only if they are equal |
| `AlgorithmRegistry.LookupAlg` | lib/agent/verify.js:55-59 | an OID resolves only to a non-empty table entry under its own dotted form; otherwise nothing, with no fallback |
| `AlgorithmRegistry.LookupOnlyMatchesOwnOid` | lib/agent/verify.js:55 | a table entry written for one OID is found for that OID and for no other |
| `Delegation.ChooseTrustedKey` | lib/agent/verify.js:65-88 | the issuer key when `certs[0]` is absent or has no subject public key; otherwise the delegated key exactly when the issuer signed that certificate, else UnknownAlg for an unlisted algorithm or InvalidSignature |
| `Delegation.TrustedKeyIsAuthorized` | lib/agent/verify.js:72-88 | a chosen key is either the issuer key with no delegation offered, or the subject key of a certificate the issuer signed |
| `Delegation.OnlyFirstCertificateExamined` | lib/agent/verify.js:72-73 | certificates after `certs[0]` never change the chosen key |
| `Delegation.DelegationAsWritten` | lib/agent/verify.js:72-88 | as written, the step throws exactly when `certs[0]` carries a subject public key and its algorithm is unlisted; a delegated key it returns is one the issuer signed |
| `Delegation.UnlistedDelegatedAlgorithmThrows` | lib/agent/verify.js:76-77 | as written, a delegated certificate with an unlisted algorithm makes the step throw, with no completion |
| `Delegation.CorrectedStepRefinesAsWritten` | lib/agent/verify.js:76-81 | the modelled step agrees with the code wherever the code completes, and reports UnknownAlg exactly where the code throws |
| `StatusFreshness.EffectiveNudge` | lib/agent/verify.js:125 | a given non-zero nudge is used; an absent or zero nudge gives 60000; the tolerance is never zero |
| `StatusFreshness.IsExpired` | lib/agent/verify.js:126 | not expired if and only if `thisUpdate - nudge <= now` and, when nextUpdate is present, `now <= nextUpdate + nudge` |
| `StatusFreshness.EvaluateEntry` | lib/agent/verify.js:120-127 | a status other than good gives BadStatus with that status; a good entry succeeds if and only if it is not expired |
| `StatusFreshness.WindowBoundsInclusive` | lib/agent/verify.js:126 | nextUpdate equal to `now - nudge` is accepted and `now - nudge - 1` is rejected |
| `StatusFreshness.NoNextUpdateNoUpperBound` | lib/agent/verify.js:126 | without nextUpdate, a response fresh now stays fresh at every later time |

## Left out

- The `process.nextTick` deferral in `done` (line 38) is scheduling, so it is not modelled. The completion is the one value `Verify` returns.
- Signature primitives (`crypto.createVerify`, `update`, `verify`) are foreign calls. They are the uninterpreted `sigOk` field. An exception they might throw on a malformed key is not modelled.
- ASN.1, DER and PEM work (`rfc3280.Certificate.decode`, `parseResponse`, `toDER`, `toPEM`, the `encode(..., 'der')` calls) is done by external libraries. It is represented by the `Services` fields. Checks made inside `parseResponse`, such as the response status and type, belong to it.
- The contents of `ocsp.utils.sign` belong to an external table. The table is the abstract `signTable` map.
- The wall clock is the parameter `now`.
- The checks the code does not make are not modelled either: the OCSP-signing extended key usage on a delegated certificate (section 4.2.2.2 of RFC 6960), the hash-algorithm parameters, and any entry or certificate after index 0.
- Error message strings are not modelled; only the error kinds are.
- JavaScript coercions of a `nudge` that is not an integer (a string, a fraction) are outside the model. The nudge is an `int`.
- Verification.Verify: reports UnknownAlg for an embedded certificate with an unlisted algorithm, where the code throws and calls no callback (see Findings).
- A property about cryptography, that changing one signed byte always breaks the signature, depends on the primitive. It cannot be stated over an uninterpreted `sigOk`.

## Findings

| source | as written | input that shows it | evidently intended | confidence | as-written member | corrected member |
|---|---|---|---|---|---|---|
| lib/agent/verify.js:76-77 | `crypto.createVerify(ocsp.utils.sign[oid])` with no check that the lookup found a scheme; the throw happens outside the `try` of lines 43-51, so `cb` is never called | a response whose `certs[0]` has a subject public key and a signature algorithm OID that is not in `ocsp.utils.sign` | report an unknown signature algorithm through the callback, as lines 55-59 do for the response's own algorithm | not executed | `Delegation.DelegationAsWritten`, shown by `Delegation.UnlistedDelegatedAlgorithmThrows` | `Delegation.ChooseTrustedKey`, related by `Delegation.CorrectedStepRefinesAsWritten` |
