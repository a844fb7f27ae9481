/** The credential verifier of the verifier service: `verify_vc_jwt` checks a
    compact JWS (section 7.1 of RFC 7515) whose issuer is an Ethereum DID, and
    `verify_credential` turns its outcome into an HTTP response.

    The libraries the verifier calls (python-jose, web3, eth_keys, base64) and
    the on-chain registry are the fields of `Env`; everything the verifier
    itself does with strings and with their results is written out here. */
module Verifier {

  import opened Results
  import opened PyStr
  import opened Claims

  /** An Ethereum address in the textual form web3 returns. */
  type Address = string

  /** A Keccak-256 digest. */
  type Hash = h: seq<byte> | |h| == 32 witness seq(32, _ => 0)

  /** The raw bytes eth_keys accepts as a recoverable signature: r, s and the recovery id. */
  const SignatureLength: nat := 65
  type SignatureBytes = s: seq<byte> | |s| == SignatureLength witness seq(65, _ => 0)

  /** The DID method prefix an issuer claim must carry. */
  const DidPrefix: string := "did:ethr:"

  /** The separator between the segments of a compact JWS. */
  const Dot: char := '.'

  /** The services the verifier relies on without seeing their code. `None`
      stands for the call raising an exception. */
  datatype Env = Env(
    // jose.jwt.get_unverified_claims
    unverifiedClaims: string -> Option<ClaimSet>,
    // jose.jwt.get_unverified_headers
    unverifiedHeaders: string -> Option<ClaimSet>,
    // web3.to_checksum_address (EIP-55 form)
    toChecksumAddress: string -> Option<Address>,
    // web3.keccak
    keccak: seq<byte> -> Hash,
    // base64.urlsafe_b64decode
    urlsafeB64Decode: string -> Option<seq<byte>>,
    // eth_keys: Signature(..).recover_public_key_from_msg_hash(..).to_checksum_address()
    recoverSigner: (Hash, SignatureBytes) -> Option<Address>,
    // credential_registry_contract was loaded at start-up
    registryConfigured: bool,
    // credential_registry_contract.functions.isIssuerRegistered(..).call()
    isIssuerRegistered: Address -> bool
  )

  /** Why the signature check failed; all of these reach the caller as the
      same 400 "Cryptographic verification failed" error. */
  datatype CryptoCause =
    | NoSeparator                                      // `rsplit` found no dot to unpack
    | SignatureNotBase64                               // urlsafe_b64decode raised
    | SignatureWrongLength                             // eth_keys refused a length other than 65
    | RecoveryFailed                                   // public-key recovery raised
    | SignerMismatch(recovered: Address, claimed: Address) // the ValueError the verifier raises itself

  /** Exceptions the verifier does not catch. */
  datatype Uncaught =
    | IssuerNotString   // `iss` is truthy but not a string: it has no `startswith`
    | ChecksumRejected  // to_checksum_address raised on the text after the prefix

  /** How a verification ends when it does not return claims. */
  datatype Failure =
    | InvalidFormat                        // 400 "Invalid JWT format"
    | InvalidIssuer                        // 400 "Missing or invalid 'iss' (issuer) claim"
    | Unhandled(what: Uncaught)            // an exception that escapes verify_vc_jwt
    | CryptographicFailure(cause: CryptoCause) // 400 "Cryptographic verification failed"
    | RegistryUnavailable                  // 500 "not connected to the blockchain registry"
    | IssuerNotRegistered(issuer: Address) // 400 "is not registered or not trusted"

  /** `{"valid": True, "claims": ...}` */
  datatype Verification = Verification(valid: bool, claims: ClaimSet)

  /** Step 1: the claims and the header, decoded without any check of the signature. */
  function DecodeUnverified(env: Env, token: string): (r: Result<ClaimSet, Failure>)
    ensures r.Ok? <==> env.unverifiedClaims(token).Some? && env.unverifiedHeaders(token).Some?
    ensures r.Ok? ==> env.unverifiedClaims(token) == Some(r.value)
    ensures r.Err? ==> r.error == InvalidFormat
  {
    match env.unverifiedClaims(token)
    case None => Err(InvalidFormat)
    case Some(claims) =>
      if env.unverifiedHeaders(token).None? then Err(InvalidFormat) else Ok(claims)
  }

  /** Step 2: the issuer address the claims assert: the `iss` string with
      every `did:ethr:` removed, in checksum form. */
  function ClaimedIssuer(env: Env, claims: ClaimSet): (r: Result<Address, Failure>)
    ensures r == Err(InvalidIssuer) <==>
      !Truthy(Get(claims, "iss"))
      || (Get(claims, "iss").JString? && !StartsWith(Get(claims, "iss").s, DidPrefix))
    ensures r.Ok? ==>
      Get(claims, "iss").JString? && StartsWith(Get(claims, "iss").s, DidPrefix)
      && env.toChecksumAddress(Join("", Split(Get(claims, "iss").s, DidPrefix))) == Some(r.value)
    ensures r.Err? ==> r.error == InvalidIssuer || r.error.Unhandled?
    ensures Truthy(Get(claims, "iss")) && !Get(claims, "iss").JString? ==>
      r == Err(Unhandled(IssuerNotString))
    ensures Get(claims, "iss").JString? && StartsWith(Get(claims, "iss").s, DidPrefix) ==>
      var normalised := env.toChecksumAddress(Join("", Split(Get(claims, "iss").s, DidPrefix)));
      && (normalised.None? ==> r == Err(Unhandled(ChecksumRejected)))
      && (normalised.Some? ==> r == Ok(normalised.value))
  {
    var did := Get(claims, "iss");
    if !Truthy(did) then Err(InvalidIssuer)
    else if !did.JString? then Err(Unhandled(IssuerNotString))
    else if !StartsWith(did.s, DidPrefix) then Err(InvalidIssuer)
    else
      ReplaceIsJoinOfSplit(did.s, DidPrefix, "");
      match env.toChecksumAddress(ReplaceAll(did.s, DidPrefix, ""))
      case None => Err(Unhandled(ChecksumRejected))
      case Some(address) => Ok(address)
  }

  /** Steps 3 and 4: the address recovered from the signature segment over the
      Keccak-256 digest of the UTF-8 signing input, the text before the last dot. */
  function RecoveredSigner(env: Env, token: string): (r: Result<Address, CryptoCause>)
    ensures r.Ok? ==> exists message, signature :: SignedBy(env, token, message, signature, r.value)
    ensures Dot !in token ==> r == Err(NoSeparator)
  {
    var parts := RSplitOnce(token, Dot);
    if |parts| != 2 then Err(NoSeparator)
    else
      var message, encodedSignature := parts[0], parts[1];
      var messageHash := env.keccak(Utf8Encode(message));
      match env.urlsafeB64Decode(encodedSignature + "==")
      case None => Err(SignatureNotBase64)
      case Some(signature) =>
        if |signature| != SignatureLength then Err(SignatureWrongLength)
        else match env.recoverSigner(messageHash, signature)
          case None => Err(RecoveryFailed)
          case Some(recovered) =>
            assert SignedBy(env, token, message, encodedSignature, recovered);
            Ok(recovered)
  }

  /** `token` is `message.signature` with no dot in `signature`, and the
      signature segment decodes to a recoverable signature over `message` whose
      signer is `signer`. */
  ghost predicate SignedBy(env: Env, token: string, message: string, signature: string, signer: Address) {
    && token == message + [Dot] + signature
    && Dot !in signature
    && env.urlsafeB64Decode(signature + "==").Some?
    && |env.urlsafeB64Decode(signature + "==").value| == SignatureLength
    && env.recoverSigner(env.keccak(Utf8Encode(message)), env.urlsafeB64Decode(signature + "==").value) == Some(signer)
  }

  /** Step 5: the recovered address must be the claimed one, compared as text. */
  function CheckSignature(env: Env, token: string, claimed: Address): (r: Result<Address, Failure>)
    ensures r.Ok? <==> RecoveredSigner(env, token) == Ok(claimed)
    ensures r.Ok? ==> r.value == claimed
    ensures r.Err? ==> r.error.CryptographicFailure?
  {
    match RecoveredSigner(env, token)
    case Err(cause) => Err(CryptographicFailure(cause))
    case Ok(recovered) =>
      if recovered != claimed then Err(CryptographicFailure(SignerMismatch(recovered, claimed)))
      else Ok(recovered)
  }

  /** Step 6: a registry must be configured and must list the issuer. */
  function CheckRegistry(env: Env, issuer: Address): (r: Result<Address, Failure>)
    ensures r.Ok? <==> env.registryConfigured && env.isIssuerRegistered(issuer)
    ensures r.Err? && env.registryConfigured ==> r.error == IssuerNotRegistered(issuer)
    ensures r.Err? && !env.registryConfigured ==> r.error == RegistryUnavailable
  {
    if !env.registryConfigured then Err(RegistryUnavailable)
    else if !env.isIssuerRegistered(issuer) then Err(IssuerNotRegistered(issuer))
    else Ok(issuer)
  }

  /** `verify_vc_jwt`: the checks in their order, each ending the verification
      when it fails; the claims returned are the ones decoded in step 1. */
  function Verify(env: Env, token: string): (r: Result<Verification, Failure>)
    ensures r.Ok? ==> r.value.valid && env.unverifiedClaims(token) == Some(r.value.claims)
    ensures r.Ok? ==>
      var issuer := ClaimedIssuer(env, r.value.claims);
      && issuer.Ok?
      && RecoveredSigner(env, token) == Ok(issuer.value)
      && env.registryConfigured
      && env.isIssuerRegistered(issuer.value)
  {
    match DecodeUnverified(env, token)
    case Err(e) => Err(e)
    case Ok(claims) =>
      match ClaimedIssuer(env, claims)
      case Err(e) => Err(e)
      case Ok(issuer) =>
        match CheckSignature(env, token, issuer)
        case Err(e) => Err(e)
        case Ok(_) =>
          match CheckRegistry(env, issuer)
          case Err(e) => Err(e)
          case Ok(_) => Ok(Verification(true, claims))
  }

  /** The HTTP status a failure reaches the caller with. An exception the
      verifier does not catch becomes the framework's generic 500. */
  function Status(f: Failure): int {
    match f
    case Unhandled(_) => 500
    case RegistryUnavailable => 500
    case _ => 400
  }

  /** The fixed text of each failure's `detail`. Where the source appends the
      caught exception's message after the colon, the text ends at the colon. */
  function Detail(f: Failure): string {
    match f
    case InvalidFormat => "Invalid JWT format: "
    case InvalidIssuer => "Missing or invalid 'iss' (issuer) claim in JWT."
    case Unhandled(_) => "Internal Server Error"
    case CryptographicFailure(SignerMismatch(_, _)) =>
      "Cryptographic verification failed: Signature is invalid. Recovered address does not match issuer."
    case CryptographicFailure(_) => "Cryptographic verification failed: "
    case RegistryUnavailable => "Verifier is not connected to the blockchain registry."
    case IssuerNotRegistered(a) =>
      "Issuer " + a + " is not registered or not trusted in the blockchain registry."
  }

  datatype Body = Accepted(result: Verification) | ErrorDetail(detail: string)

  datatype Response = Response(status: int, body: Body)

  /** `POST /verify`: the verification's result as a 200 response, or its
      failure as an error response. */
  function VerifyCredential(env: Env, vcJwt: string): (resp: Response)
    ensures resp.status == 200 <==> Verify(env, vcJwt).Ok?
    ensures resp.body.Accepted? <==> resp.status == 200
    ensures resp.body.Accepted? ==>
      resp.body.result.valid && env.unverifiedClaims(vcJwt) == Some(resp.body.result.claims)
    ensures resp.status == 500 <==>
      Verify(env, vcJwt) == Err(RegistryUnavailable) || (Verify(env, vcJwt).Err? && Verify(env, vcJwt).error.Unhandled?)
    ensures resp.status == 200 || resp.status == 400 || resp.status == 500
  {
    match Verify(env, vcJwt)
    case Ok(v) => Response(200, Accepted(v))
    case Err(f) => Response(Status(f), ErrorDetail(Detail(f)))
  }
}
