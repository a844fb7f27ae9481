# Credential verifier model

This project models the verifier service of a verifiable-credential proof of
concept. The service receives a credential as a compact JWS token (section 7.1
of RFC 7515). Its `verify_vc_jwt` runs a fixed sequence of checks and either
returns `{"valid": true, "claims": ...}` or raises an HTTP error:

1. the claims and the header decode without any signature check (else 400 "Invalid JWT format");
2. the `iss` claim is a `did:ethr:` DID (else 400 "Missing or invalid 'iss'"), and
   every `did:ethr:` is removed from it (`str.replace`). The rest goes to `to_checksum_address`;
3. the signing input is the token text before the last `.` (`rsplit('.', 1)`),
   encoded as UTF-8 and hashed with Keccak-256;
4. the text after the last `.` is base64url-decoded (with `"=="` appended) into a
   65-byte recoverable secp256k1 signature, and the signer's checksum address is recovered;
5. the recovered address must equal the claimed one (any failure in 3-5 gives 400
   "Cryptographic verification failed");
6. a registry contract must be loaded (else 500) and must list the issuer (else 400 "not registered");
7. the decoded claims are returned.

The model is pure, as the source is. The verifier's own logic is written out:
the order of the checks, Python truthiness of `iss`, `startswith`, `replace`,
`rsplit`, UTF-8 encoding, the `+ "=="` padding and the address comparison.
The 65-byte length is not checked by the verifier itself: eth_keys'
`Signature` constructor refuses any other length. The model keeps that library
check explicit, beside `recoverSigner`, so that it can be stated. Everything
else the verifier calls without showing its code is a field of the `Env`
datatype in `verifier.dfy`:

- python-jose's decoders;
- `to_checksum_address`;
- Keccak-256;
- `urlsafe_b64decode`;
- key recovery;
- the registry-loaded flag and the registry lookup.

A library call that raises is a `None`.

Files: `results.dfy` (Option, Result), `pystr.dfy` (the Python string
operations), `claims.dfy` (JSON values, `dict.get`, truthiness), `verifier.dfy`
(the pipeline and the HTTP mapping), `verifier_properties.dfy` (what the
pipeline guarantees).

Behaviour of the code that a reader of RFC 7515 and RFC 8812 might not expect; the model follows the code:

- A truthy non-string `iss` makes `startswith` raise. A `did:ethr:` DID whose
  remainder `to_checksum_address` refuses makes line 55 raise. Neither is
  caught, so both end as the framework's generic 500 (`Unhandled`), not as the
  400 issuer error.
- Only a registry that failed to load at start-up gives the 500. An exception
  from the registry call itself is not caught or mapped.
- The header must decode, but its content (`alg: ES256K` included) is never checked.
- The token is split once at its last dot. The three-segment structure is left to the jose decoder.
- The signature is Keccak-256 with a 65-byte recoverable signature. RFC 8812,
  section 3.2, gives ES256K as SHA-256 with a 64-byte signature.
- The issuer address comes from removing every `did:ethr:` in `iss`, not only the leading one.

## Model

| member | source | states |
|---|---|---|
| `Verifier.Verify` | verifier-service/app/main.py:42-94 | on success the result says `valid: true` and carries exactly the claims decoded in step 1; the claimed issuer is then well-formed, equals the address recovered from the signature, the registry is configured and lists it |
| `Verifier.DecodeUnverified` | verifier-service/app/main.py:44-48 | decoding succeeds exactly when both the claims and the header decode; any decoding failure is the "Invalid JWT format" error |
| `Verifier.ClaimedIssuer` | verifier-service/app/main.py:51-55 | the 400 issuer error happens exactly when `iss` is falsy or a string not starting with `did:ethr:`; a truthy non-string `iss` is the uncaught `startswith` exception; for a `did:ethr:` string the result is `Ok(a)` exactly when the checksum form of `iss` split at every `did:ethr:` and joined back without it is `a`, and the uncaught checksum exception when that is refused |
| `Verifier.RecoveredSigner` | verifier-service/app/main.py:60-75 | a recovered signer comes with a decomposition `message.signature` (no dot in `signature`) whose 65-byte signature over `keccak(utf8(message))` recovers to it; a token without a dot yields the no-separator failure |
| `VerifierProperties.RecoveredSignerComplete` | verifier-service/app/main.py:60-75 | every decomposition `message.signature` with no dot in `signature` whose 65-byte signature over `keccak(utf8(message))` recovers to `signer` makes `signer` the recovered address |
| `Verifier.CheckSignature` | verifier-service/app/main.py:78-83 | passes exactly when the recovered address equals the claimed one; every failure of signature decoding, recovery or comparison is the cryptographic failure |
| `Verifier.CheckRegistry` | verifier-service/app/main.py:86-91 | passes exactly when a registry is configured and lists the issuer; no registry gives `RegistryUnavailable`, an unlisted issuer gives `IssuerNotRegistered` with that address |
| `Verifier.VerifyCredential` | verifier-service/app/main.py:101-104 | status 200 exactly when verification succeeds, and only a 200 body carries `valid: true` and the decoded claims; status 500 exactly for the missing registry and for uncaught exceptions; every other failure is 400 |
| `VerifierProperties.AcceptanceRule` | verifier-service/app/main.py:42-94 | the verifier returns `{valid: true, claims}` if and only if the declarative acceptance rule holds (decodable claims and header, `did:ethr:` issuer normalising to an address, a last-dot split whose signature recovers that address, a configured registry listing it) |
| `VerifierProperties.MalformedTokenRejectedFirst` | verifier-service/app/main.py:44-48 | a token whose claims or header do not decode fails with the 400 format error, whatever else holds |
| `VerifierProperties.IssuerClaimRejections` | verifier-service/app/main.py:51-53 | a falsy `iss` or a string `iss` without the `did:ethr:` prefix gives the 400 issuer error; a truthy non-string `iss` escapes as an uncaught exception |
| `VerifierProperties.IssuerCheckedBeforeCrypto` | verifier-service/app/main.py:44-55 | a failure in decoding or at the issuer check is the same whatever hash, signature decoder, key recovery and registry are used: none of them is consulted before |
| `VerifierProperties.CryptoCheckedBeforeRegistry` | verifier-service/app/main.py:58-91 | any failure up to the signature check is the same whatever the registry holds and whether one is configured |
| `VerifierProperties.HeaderContentIgnored` | verifier-service/app/main.py:46 | the verdict depends on the header only through whether it decodes |
| `VerifierProperties.ForeignSignerRejected` | verifier-service/app/main.py:78-83 | a token signed by one address but claiming another fails with the 400 mismatch error |
| `VerifierProperties.NoSeparatorRejected` | verifier-service/app/main.py:60 | a token with no dot that passes decoding and the issuer check fails as a cryptographic failure |
| `VerifierProperties.SeparatorFailureUnreachable` | verifier-service/app/main.py:45-60 | with a decoder that requires a dot, the no-separator failure never occurs |
| `VerifierProperties.Es256kSignatureRejected` | verifier-service/app/main.py:68-69 | a 64-byte signature, the ES256K form of RFC 8812, is always refused with the cryptographic failure |
| `VerifierProperties.RegistryOutcomes` | verifier-service/app/main.py:86-94 | after a passing signature check, a missing registry gives 500 `RegistryUnavailable`, an unlisted issuer 400 `IssuerNotRegistered`, a listed one success |
| `VerifierProperties.ClaimedIssuerOfDid` | verifier-service/app/main.py:55 | for `iss = "did:ethr:" + rest` with no colon in `rest`, the claimed issuer is the checksum form of `rest`, or an uncaught exception when that raises |
| `VerifierProperties.CanonicalDidStable` | verifier-service/app/main.py:55 | with an idempotent checksum, replacing `iss` by `did:ethr:` plus the claimed address gives the same claimed address |
| `VerifierProperties.ReplaceCutsInnerPrefix` | verifier-service/app/main.py:55 | `replace` turns `did:ethr:0x12did:ethr:34` into `0x1234` |
| `VerifierProperties.InnerPrefixAlsoRemoved` | verifier-service/app/main.py:55 | the issuer of `did:ethr:0x12did:ethr:34` is the checksum form of `0x1234`, not of the text after the prefix |
| `VerifierProperties.WellFormedTokenAccepted` | verifier-service/app/main.py:42-94 | a token `header.payload.signature` whose 65-byte signature over `header.payload` recovers the checksum address of its `did:ethr:` issuer, listed in a configured registry, is accepted with its own claims |
| `PyStr.Split` | verifier-service/app/main.py:55 | `str.split` always yields at least one piece |
| `PyStr.SplitJoin` | verifier-service/app/main.py:55 | joining the pieces of `s.split(sep)` with `sep` gives back `s` |
| `PyStr.SplitPiecesFree` | verifier-service/app/main.py:55 | no piece of `s.split(sep)` contains `sep` |
| `PyStr.ReplaceIsJoinOfSplit` | verifier-service/app/main.py:55 | `s.replace(pat, rep)` equals `rep.join(s.split(pat))` |
| `PyStr.ReplaceAbsent` | verifier-service/app/main.py:55 | replacing a pattern that does not occur changes nothing |
| `PyStr.ReplaceLeadingPattern` | verifier-service/app/main.py:55 | a leading occurrence is replaced and replacing continues after it |
| `PyStr.ReplaceSkipsPlainText` | verifier-service/app/main.py:55 | text without the pattern's first character is copied unchanged |
| `PyStr.RFind` | verifier-service/app/main.py:60 | the index found holds the separator and no later index does, or it is -1 |
| `PyStr.RSplitOnce` | verifier-service/app/main.py:60 | two parts exactly when the separator occurs, joined by it they give the string, and the right part holds no separator; otherwise the one-element list of the string |
| `PyStr.RSplitOnceUnique` | verifier-service/app/main.py:60 | any split `before + sep + after` with no separator in `after` is the one `rsplit` returns |
| `PyStr.Utf8RoundTrip` | verifier-service/app/main.py:61 | decoding the UTF-8 signing input gives back the token text's code points, so the hashed bytes determine the text |
| `PyStr.Utf8Ascii` | verifier-service/app/main.py:61 | for an ASCII token the signing input bytes are the characters' codes, the ASCII form of section 5.1 of RFC 7515 |

## Left out

- The FastAPI app, the root route and the request model: HTTP plumbing. `VerifyCredential` keeps only the status and detail text of the response.
- The start-up connection to the node and the loading of the contract artifact (file and network I/O): reduced to the `registryConfigured` flag.
- python-jose decoding, `to_checksum_address`, Keccak-256, `urlsafe_b64decode` with its leniency, secp256k1 key recovery and EIP-55 form: foreign library code, kept as `Env` functions. Checksum idempotence is a hypothesis (`ChecksumIdempotent`) where it is used.
- Exceptions raised by the registry call: the source does not catch them, and what the framework then does is not modelled. `isIssuerRegistered` is total.
- `VerifyCredential`: the text of a caught exception, which the source appends to "Invalid JWT format: " and "Cryptographic verification failed: ", is left out; the detail ends at the colon.
- JSON numbers are reals: NaN and infinities, which Python's json also reads, are not told apart from other non-zero numbers.
- `PyStr.Utf8Encode`: strings holding lone surrogates, which Python's `encode` refuses, cannot occur in the model, whose characters are Unicode scalar values.
- `PyStr.ReplaceAll`: requires a non-empty pattern, which is all the verifier uses; Python's empty-pattern case is not modelled.
- The issuing side, which signs tokens, and the deployment script are not part of this model.
