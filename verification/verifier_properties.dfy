/** What `verify_vc_jwt` guarantees: the rule by which it accepts a token, the
    order of its checks, how each kind of bad token is rejected, and how the
    issuer DID is turned into an address. */
module VerifierProperties {

  import opened Results
  import opened PyStr
  import opened Claims
  import opened Verifier

  /** The acceptance rule, stated without the pipeline: the claims and header
      decode, `iss` is a `did:ethr:` DID whose text with every `did:ethr:` cut
      out normalises to `issuer`, the token is `message.signature` with a
      65-byte signature over `message` recovering to `issuer`, and the
      configured registry lists `issuer`. */
  ghost predicate Accepts(env: Env, token: string, claims: ClaimSet,
                          message: string, signature: string, issuer: Address) {
    && env.unverifiedClaims(token) == Some(claims)
    && env.unverifiedHeaders(token).Some?
    && Get(claims, "iss").JString?
    && StartsWith(Get(claims, "iss").s, DidPrefix)
    && env.toChecksumAddress(Join("", Split(Get(claims, "iss").s, DidPrefix))) == Some(issuer)
    && SignedBy(env, token, message, signature, issuer)
    && env.registryConfigured
    && env.isIssuerRegistered(issuer)
  }

  /** The verifier returns `{valid: true, claims}` exactly when the acceptance
      rule holds of the token and those claims. */
  lemma AcceptanceRule(env: Env, token: string, claims: ClaimSet)
    ensures Verify(env, token) == Ok(Verification(true, claims)) <==>
      exists message, signature, issuer :: Accepts(env, token, claims, message, signature, issuer)
  {
    if Verify(env, token) == Ok(Verification(true, claims)) {
      var issuer := ClaimedIssuer(env, claims).value;
      var message, signature :| SignedBy(env, token, message, signature, issuer);
      assert Accepts(env, token, claims, message, signature, issuer);
    }
    if exists message, signature, issuer :: Accepts(env, token, claims, message, signature, issuer) {
      var message, signature, issuer :| Accepts(env, token, claims, message, signature, issuer);
      var did := Get(claims, "iss").s;
      ReplaceIsJoinOfSplit(did, DidPrefix, "");
      assert ClaimedIssuer(env, claims) == Ok(issuer);
      RSplitOnceUnique(token, Dot, message, signature);
      assert RecoveredSigner(env, token) == Ok(issuer);
    }
  }

  /** Conversely, any split of the token at a dot after which no dot follows,
      whose signature segment decodes to 65 bytes recovering to `signer`,
      makes `signer` the recovered address. */
  lemma RecoveredSignerComplete(env: Env, token: string, message: string, signature: string, signer: Address)
    requires SignedBy(env, token, message, signature, signer)
    ensures RecoveredSigner(env, token) == Ok(signer)
  {
    RSplitOnceUnique(token, Dot, message, signature);
  }

  /** The step of the pipeline at which a failure is raised. */
  function Stage(f: Failure): nat {
    match f
    case InvalidFormat => 1
    case InvalidIssuer => 2
    case Unhandled(_) => 2
    case CryptographicFailure(_) => 3
    case RegistryUnavailable => 4
    case IssuerNotRegistered(_) => 4
  }

  /** A token whose claims or header do not decode is refused as malformed,
      before anything else is looked at. */
  lemma MalformedTokenRejectedFirst(env: Env, token: string)
    requires env.unverifiedClaims(token).None? || env.unverifiedHeaders(token).None?
    ensures Verify(env, token) == Err(InvalidFormat)
    ensures VerifyCredential(env, token).status == 400
  {
  }

  /** A missing or falsy `iss`, or a string `iss` that is not a `did:ethr:`
      DID, is refused with the 400 issuer error; a truthy `iss` that is not a
      string escapes as an unhandled exception. */
  lemma IssuerClaimRejections(env: Env, token: string, claims: ClaimSet)
    requires env.unverifiedClaims(token) == Some(claims) && env.unverifiedHeaders(token).Some?
    ensures !Truthy(Get(claims, "iss")) ==> Verify(env, token) == Err(InvalidIssuer)
    ensures Get(claims, "iss").JString? && !StartsWith(Get(claims, "iss").s, DidPrefix) ==>
      Verify(env, token) == Err(InvalidIssuer)
    ensures Truthy(Get(claims, "iss")) && !Get(claims, "iss").JString? ==>
      Verify(env, token) == Err(Unhandled(IssuerNotString))
  {
  }

  /** Everything up to and including the issuer check is decided without the
      hash, the signature decoder, key recovery or the registry: replacing
      all of those leaves an early failure as it was. */
  lemma IssuerCheckedBeforeCrypto(env: Env, token: string,
                                  keccak: seq<byte> -> Hash,
                                  decode: string -> Option<seq<byte>>,
                                  recover: (Hash, SignatureBytes) -> Option<Address>,
                                  configured: bool, registered: Address -> bool)
    requires Verify(env, token).Err? && Stage(Verify(env, token).error) <= 2
    ensures Verify(env.(keccak := keccak, urlsafeB64Decode := decode, recoverSigner := recover,
                        registryConfigured := configured, isIssuerRegistered := registered), token)
            == Verify(env, token)
  {
  }

  /** The registry is consulted only once the signature check has passed: a
      token failing earlier fails the same way whatever the registry says,
      and whether or not one is configured. */
  lemma CryptoCheckedBeforeRegistry(env: Env, token: string,
                                    configured: bool, registered: Address -> bool)
    requires Verify(env, token).Err? && Stage(Verify(env, token).error) <= 3
    ensures Verify(env.(registryConfigured := configured, isIssuerRegistered := registered), token)
            == Verify(env, token)
  {
  }

  /** The header must decode, but what it says (its `alg` in particular) is
      never checked. */
  lemma HeaderContentIgnored(env: Env, token: string, headers: string -> Option<ClaimSet>)
    requires headers(token).Some? == env.unverifiedHeaders(token).Some?
    ensures Verify(env.(unverifiedHeaders := headers), token) == Verify(env, token)
  {
  }

  /** A token signed by one address but claiming another is refused as a
      cryptographic failure, whatever the registry holds. */
  lemma ForeignSignerRejected(env: Env, token: string, claims: ClaimSet, signer: Address, claimed: Address)
    requires DecodeUnverified(env, token) == Ok(claims)
    requires ClaimedIssuer(env, claims) == Ok(claimed)
    requires RecoveredSigner(env, token) == Ok(signer) && signer != claimed
    ensures Verify(env, token) == Err(CryptographicFailure(SignerMismatch(signer, claimed)))
    ensures VerifyCredential(env, token).status == 400
  {
  }

  /** A token without a dot gets past decoding only if the decoder allows it;
      it is then refused as a cryptographic failure. */
  lemma NoSeparatorRejected(env: Env, token: string, claims: ClaimSet)
    requires DecodeUnverified(env, token) == Ok(claims) && ClaimedIssuer(env, claims).Ok?
    requires Dot !in token
    ensures Verify(env, token) == Err(CryptographicFailure(NoSeparator))
  {
  }

  /** python-jose splits a token at its dots before decoding anything. */
  ghost predicate DecoderNeedsSeparator(env: Env) {
    forall token :: env.unverifiedClaims(token).Some? ==> Dot in token
  }

  /** With such a decoder the missing-separator failure cannot occur. */
  lemma SeparatorFailureUnreachable(env: Env, token: string)
    requires DecoderNeedsSeparator(env)
    ensures Verify(env, token) != Err(CryptographicFailure(NoSeparator))
  {
    if env.unverifiedClaims(token).Some? {
      assert Dot in token;
      var parts := RSplitOnce(token, Dot);
      assert |parts| == 2;
    }
  }

  /** A 64-byte R || S signature, the ES256K form of section 3.2 of RFC 8812
      that the header names, is refused: the verifier only takes the 65-byte
      recoverable form. */
  lemma Es256kSignatureRejected(env: Env, token: string, claims: ClaimSet,
                                message: string, signature: string)
    requires DecodeUnverified(env, token) == Ok(claims) && ClaimedIssuer(env, claims).Ok?
    requires token == message + [Dot] + signature && Dot !in signature
    requires env.urlsafeB64Decode(signature + "==").Some?
    requires |env.urlsafeB64Decode(signature + "==").value| == 64
    ensures Verify(env, token) == Err(CryptographicFailure(SignatureWrongLength))
  {
    RSplitOnceUnique(token, Dot, message, signature);
  }

  /** Once the signature holds, a missing registry (500) and an unlisted
      issuer (400) are told apart. */
  lemma RegistryOutcomes(env: Env, token: string, claims: ClaimSet, issuer: Address)
    requires DecodeUnverified(env, token) == Ok(claims)
    requires ClaimedIssuer(env, claims) == Ok(issuer) && RecoveredSigner(env, token) == Ok(issuer)
    ensures !env.registryConfigured ==>
      Verify(env, token) == Err(RegistryUnavailable) && VerifyCredential(env, token).status == 500
    ensures env.registryConfigured && !env.isIssuerRegistered(issuer) ==>
      Verify(env, token) == Err(IssuerNotRegistered(issuer)) && VerifyCredential(env, token).status == 400
    ensures env.registryConfigured && env.isIssuerRegistered(issuer) ==>
      Verify(env, token) == Ok(Verification(true, claims))
  {
  }

  /** The issuer address of `iss = "did:ethr:" + rest`, where `rest` holds no
      colon (a hex address, say), is the checksum form of `rest`; when that
      raises, the exception escapes the verifier. */
  lemma ClaimedIssuerOfDid(env: Env, claims: ClaimSet, rest: string)
    requires Get(claims, "iss") == JString(DidPrefix + rest) && ':' !in rest
    ensures env.toChecksumAddress(rest).None? ==> ClaimedIssuer(env, claims) == Err(Unhandled(ChecksumRejected))
    ensures env.toChecksumAddress(rest).Some? ==> ClaimedIssuer(env, claims) == Ok(env.toChecksumAddress(rest).value)
  {
    var did := DidPrefix + rest;
    assert StartsWith(did, DidPrefix);
    assert did[..|DidPrefix|] == DidPrefix && did[|DidPrefix|..] == rest;
    AbsentCharExcludesPattern(rest, DidPrefix, ':');
    ReplaceAbsent(rest, DidPrefix, "");
    assert ReplaceAll(did, DidPrefix, "") == rest;
  }

  /** `to_checksum_address` maps an address already in checksum form to itself. */
  ghost predicate ChecksumIdempotent(env: Env) {
    forall s :: env.toChecksumAddress(s).Some? ==>
      env.toChecksumAddress(env.toChecksumAddress(s).value) == env.toChecksumAddress(s)
  }

  /** Re-stating the issuer as `did:ethr:` followed by its checksum address
      names the same issuer. */
  lemma CanonicalDidStable(env: Env, claims: ClaimSet, issuer: Address)
    requires ChecksumIdempotent(env)
    requires ClaimedIssuer(env, claims) == Ok(issuer) && ':' !in issuer
    ensures ClaimedIssuer(env, claims["iss" := JString(DidPrefix + issuer)]) == Ok(issuer)
  {
    var stripped := Join("", Split(Get(claims, "iss").s, DidPrefix));
    assert env.toChecksumAddress(stripped) == Some(issuer);
    assert env.toChecksumAddress(issuer) == Some(issuer);
    ClaimedIssuerOfDid(env, claims["iss" := JString(DidPrefix + issuer)], issuer);
  }

  /** `replace` cuts a `did:ethr:` out of the middle of a string as well as
      from its front. */
  lemma ReplaceCutsInnerPrefix()
    ensures ReplaceAll("did:ethr:0x12did:ethr:34", DidPrefix, "") == "0x1234"
  {
    var did := DidPrefix + ("0x12" + (DidPrefix + "34"));
    assert did == "did:ethr:0x12did:ethr:34";
    ReplaceLeadingPattern(DidPrefix, "0x12" + (DidPrefix + "34"), "");
    ReplaceSkipsPlainText("0x12", DidPrefix + "34", DidPrefix, "");
    ReplaceLeadingPattern(DidPrefix, "34", "");
    assert ReplaceAll("34", DidPrefix, "") == "34";
  }

  /** So the issuer of `did:ethr:0x12did:ethr:34` is the checksum form of
      `0x1234`, where a prefix strip would have given `0x12did:ethr:34`. */
  lemma InnerPrefixAlsoRemoved(env: Env, claims: ClaimSet)
    requires Get(claims, "iss") == JString("did:ethr:0x12did:ethr:34")
    ensures env.toChecksumAddress("0x1234").Some? ==>
      ClaimedIssuer(env, claims) == Ok(env.toChecksumAddress("0x1234").value)
  {
    ReplaceCutsInnerPrefix();
  }

  /** A token laid out as an issuer produces it, `header.payload.signature`,
      signed over `header.payload` by the checksum address of its DID, which
      the registry lists, is accepted with its own claims. */
  lemma WellFormedTokenAccepted(env: Env, header: string, payload: string, signature: string,
                                claims: ClaimSet, rest: string)
    requires Dot !in signature && ':' !in rest
    requires var token := header + [Dot] + payload + [Dot] + signature;
      && env.unverifiedClaims(token) == Some(claims)
      && env.unverifiedHeaders(token).Some?
    requires Get(claims, "iss") == JString(DidPrefix + rest)
    requires env.toChecksumAddress(rest).Some?
    requires env.urlsafeB64Decode(signature + "==").Some?
    requires |env.urlsafeB64Decode(signature + "==").value| == SignatureLength
    requires env.recoverSigner(env.keccak(Utf8Encode(header + [Dot] + payload)),
                               env.urlsafeB64Decode(signature + "==").value)
             == env.toChecksumAddress(rest)
    requires env.registryConfigured && env.isIssuerRegistered(env.toChecksumAddress(rest).value)
    ensures Verify(env, header + [Dot] + payload + [Dot] + signature) == Ok(Verification(true, claims))
  {
    var token := header + [Dot] + payload + [Dot] + signature;
    var message := header + [Dot] + payload;
    assert token == message + [Dot] + signature;
    ClaimedIssuerOfDid(env, claims, rest);
    RSplitOnceUnique(token, Dot, message, signature);
  }
}
