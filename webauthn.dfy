/** The client-side WebAuthn helpers: the capability gate, the registration and
    authentication ceremonies, the base 64 codec for credential ids and keys, and
    the device label derived from the user agent.

    The browser is an `Environment` value. The platform ceremonies
    (`navigator.credentials.create` / `get`) are oracle functions from the options
    record to the ceremony's result, and `crypto.getRandomValues` is the sequence
    of bytes it would produce. `throw` is the `Raised` completion. */
module WebAuthn {
  import opened Wrappers
  import Base64
  import Utf8
  import Text
  import Bytes

  // ----- The environment and the capability gate. -----

  /** The answer of `PublicKeyCredential.isUserVerifyingPlatformAuthenticatorAvailable()`. */
  datatype PlatformQuery = QueryThrows | QueryAnswer(available: bool)

  datatype Environment = Environment(
    hasWindow: bool,               // typeof window !== "undefined"
    hasPublicKeyCredential: bool,  // window.PublicKeyCredential !== undefined
    hasCredentials: bool,          // navigator.credentials !== undefined
    platformQuery: PlatformQuery,
    hostname: string,              // window.location.hostname
    userAgent: string)             // navigator.userAgent

  /** `isWebAuthnSupported`: a window, the PublicKeyCredential interface and
      the credentials container are all present. */
  predicate IsWebAuthnSupported(env: Environment)
  {
    env.hasWindow && env.hasPublicKeyCredential && env.hasCredentials
  }

  /** Support needs all three of the window, `PublicKeyCredential` and
      `navigator.credentials`; the platform, host name and user agent play no part. */
  lemma SupportNeedsAllThree(env: Environment)
    ensures !IsWebAuthnSupported(env.(hasWindow := false))
    ensures !IsWebAuthnSupported(env.(hasPublicKeyCredential := false))
    ensures !IsWebAuthnSupported(env.(hasCredentials := false))
    ensures IsWebAuthnSupported(env.(hasWindow := true, hasPublicKeyCredential := true, hasCredentials := true))
  {
  }

  /** `isPlatformAuthenticatorAvailable`: false without asking the platform when
      WebAuthn is unsupported; otherwise the platform's answer, and false when the
      platform query throws (the error is logged, never raised). */
  function IsPlatformAuthenticatorAvailable(env: Environment): (available: bool)
    ensures available ==> IsWebAuthnSupported(env)
    ensures env.platformQuery == QueryThrows ==> !available
    ensures IsWebAuthnSupported(env) && env.platformQuery.QueryAnswer? ==>
      available == env.platformQuery.available
  {
    if !IsWebAuthnSupported(env) then false
    else match env.platformQuery
      case QueryThrows => false
      case QueryAnswer(b) => b
  }

  /** When WebAuthn is unsupported the platform is not consulted: the answer is
      false whatever the platform would have said. */
  lemma UnsupportedIgnoresPlatform(env: Environment, query: PlatformQuery)
    requires !IsWebAuthnSupported(env)
    ensures !IsPlatformAuthenticatorAvailable(env.(platformQuery := query))
  {
  }

  // ----- Device label. -----

  /** The user-agent tokens `getDeviceName` tests, in the order it tests them,
      and the label each one yields. */
  const DeviceTokens: seq<string> := ["iPhone", "iPad", "Mac", "Windows", "Android", "Linux"]
  const DeviceLabels: seq<string> := ["iPhone", "iPad", "Mac", "Windows PC", "Android", "Linux"]
  const UnknownDevice: string := "Unknown Device"

  /** `getDeviceName`: the first token of the cascade found in the user agent
      decides the label. */
  function GetDeviceName(userAgent: string): (name: string)
    ensures name == UnknownDevice || name in DeviceLabels
    ensures name != ""
  {
    TokenTable();
    if Text.Contains(userAgent, "iPhone") then "iPhone"
    else if Text.Contains(userAgent, "iPad") then "iPad"
    else if Text.Contains(userAgent, "Mac") then "Mac"
    else if Text.Contains(userAgent, "Windows") then "Windows PC"
    else if Text.Contains(userAgent, "Android") then "Android"
    else if Text.Contains(userAgent, "Linux") then "Linux"
    else UnknownDevice
  }

  /** The label is the one of token `k` exactly when token `k` occurs in the user
      agent and no token tested before it does (first match wins). */
  lemma DeviceNamePriority(userAgent: string, k: nat)
    requires k < |DeviceTokens|
    ensures GetDeviceName(userAgent) == DeviceLabels[k] <==>
      Text.Contains(userAgent, DeviceTokens[k]) &&
      forall j :: 0 <= j < k ==> !Text.Contains(userAgent, DeviceTokens[j])
  {
    TokenTable();
    if k == 0 {
    } else if k == 1 {
    } else if k == 2 {
    } else if k == 3 {
    } else if k == 4 {
    } else {
    }
  }

  lemma TokenTable()
    ensures DeviceTokens[0] == "iPhone" && DeviceTokens[1] == "iPad" && DeviceTokens[2] == "Mac"
    ensures DeviceTokens[3] == "Windows" && DeviceTokens[4] == "Android" && DeviceTokens[5] == "Linux"
    ensures DeviceLabels[0] == "iPhone" && DeviceLabels[1] == "iPad" && DeviceLabels[2] == "Mac"
    ensures DeviceLabels[3] == "Windows PC" && DeviceLabels[4] == "Android" && DeviceLabels[5] == "Linux"
    ensures forall j, k :: 0 <= j < k < |DeviceLabels| ==> DeviceLabels[j] != DeviceLabels[k]
    ensures UnknownDevice !in DeviceLabels
  {
  }

  /** "Unknown Device" exactly when none of the six tokens occurs; otherwise one
      of the six labels. */
  lemma DeviceNameUnknown(userAgent: string)
    ensures GetDeviceName(userAgent) == UnknownDevice <==>
      forall k :: 0 <= k < |DeviceTokens| ==> !Text.Contains(userAgent, DeviceTokens[k])
    ensures GetDeviceName(userAgent) == UnknownDevice || GetDeviceName(userAgent) in DeviceLabels
  {
    TokenTable();
  }

  /** A user agent that mentions both "iPhone" and "Mac" is labelled "iPhone". */
  lemma IPhoneBeforeMac(userAgent: string)
    requires Text.Contains(userAgent, "iPhone") && Text.Contains(userAgent, "Mac")
    ensures GetDeviceName(userAgent) == "iPhone"
  {
  }

  // ----- Options records (Web Authentication Level 2, sections 5.4 and 5.5). -----

  datatype PublicKeyCredentialRpEntity = PublicKeyCredentialRpEntity(name: string, id: string)

  datatype PublicKeyCredentialUserEntity =
    PublicKeyCredentialUserEntity(id: seq<bv8>, name: string, displayName: string)

  datatype PublicKeyCredentialParameters =
    PublicKeyCredentialParameters(credentialType: string, alg: int)

  datatype AuthenticatorSelectionCriteria = AuthenticatorSelectionCriteria(
    authenticatorAttachment: string, userVerification: string, requireResidentKey: bool)

  datatype PublicKeyCredentialCreationOptions = PublicKeyCredentialCreationOptions(
    challenge: seq<bv8>,
    rp: PublicKeyCredentialRpEntity,
    user: PublicKeyCredentialUserEntity,
    pubKeyCredParams: seq<PublicKeyCredentialParameters>,
    authenticatorSelection: AuthenticatorSelectionCriteria,
    timeout: nat,
    attestation: string)

  datatype PublicKeyCredentialDescriptor =
    PublicKeyCredentialDescriptor(credentialType: string, id: seq<bv8>)

  datatype PublicKeyCredentialRequestOptions = PublicKeyCredentialRequestOptions(
    challenge: seq<bv8>,
    allowCredentials: seq<PublicKeyCredentialDescriptor>,
    timeout: nat,
    userVerification: string)

  const RelyingPartyName: string := "Impulse Buy Budget Tracer"
  const PublicKeyType: string := "public-key"
  /** COSE algorithm identifiers: ES256 (section 8.1 of RFC 8152) and RS256
      (section 2 of RFC 8812). */
  const ES256: int := -7
  const RS256: int := -257
  const CeremonyTimeout: nat := 60000
  const ChallengeLength: nat := 32

  // ----- Ceremony results and flow outcomes. -----

  /** What `navigator.credentials.create` does: resolve to null, reject, or
      resolve to a credential whose `response.getPublicKey()` may be null. */
  datatype AttestationResult =
    | AttestationNull
    | AttestationThrows
    | Attested(rawId: seq<bv8>, publicKey: Option<seq<bv8>>)

  /** What `navigator.credentials.get` does. */
  datatype AssertionResult = AssertionNull | AssertionThrows | Asserted(rawId: seq<bv8>)

  datatype WebAuthnCredential =
    WebAuthnCredential(credentialId: string, publicKey: string, deviceName: string)

  /** How a flow completes: by returning a value or by throwing an Error. */
  datatype Completion<T> = Returned(value: T) | Raised(message: string)

  const NotSupportedMessage: string := "WebAuthn is not supported in this browser"

  // ----- The codec helpers (imperative, as in the source). -----

  /** The loop of `arrayBufferToBase64`: one character per byte, character i
      having code `bytes[i]`. */
  method BinaryStringOf(bytes: seq<bv8>) returns (binary: string)
    ensures |binary| == |bytes|
    ensures forall i :: 0 <= i < |bytes| ==> binary[i] as int == bytes[i] as int
    ensures binary == Base64.BinaryString(bytes)
  {
    binary := "";
    for i := 0 to |bytes|
      invariant |binary| == i
      invariant forall k :: 0 <= k < i ==> binary[k] as int == bytes[k] as int
    {
      binary := binary + [(bytes[i] as int) as char];
    }
  }

  /** `arrayBufferToBase64`: the base 64 text of the bytes. */
  method ArrayBufferToBase64(bytes: seq<bv8>) returns (base64: string)
    ensures base64 == Base64.Encode(bytes)
    ensures Base64.Decode(base64) == Some(bytes)
  {
    var binary := BinaryStringOf(bytes);
    Base64.BtoaOfBinaryString(bytes);
    Base64.RoundTrip(bytes);
    var encoded := Base64.Btoa(binary);
    base64 := encoded.GetOr("");
  }

  /** `base64ToArrayBuffer`: `atob` and a `Uint8Array` filled in place from the
      character codes. None stands for the exception `atob` throws on malformed
      input. */
  method Base64ToArrayBuffer(base64: string) returns (bytes: Option<seq<bv8>>)
    ensures bytes == Base64.Decode(base64)
  {
    var binary := Base64.Atob(base64);
    if binary.None? {
      return None;
    }
    var text := binary.value;
    ghost var decoded := Base64.Decode(base64).value;
    assert text == Base64.BinaryString(decoded) && |text| == |decoded|;
    var buffer := new bv8[|text|];
    for i := 0 to |text|
      invariant forall k :: 0 <= k < i ==> buffer[k] == decoded[k]
    {
      // A Uint8Array element stores its value modulo 256.
      assert text[i] as int == decoded[i] as int;
      Bytes.ToUint8OfByte(decoded[i]);
      buffer[i] := Bytes.ToUint8(text[i] as int);
    }
    assert buffer[..] == decoded;
    bytes := Some(buffer[..]);
  }

  /** `new Uint8Array(32)` filled by `crypto.getRandomValues`; `entropy` is what
      the random source yields. */
  method NewChallenge(entropy: seq<bv8>) returns (challenge: seq<bv8>)
    requires |entropy| == ChallengeLength
    ensures |challenge| == ChallengeLength && challenge == entropy
  {
    var buffer := new bv8[ChallengeLength];
    GetRandomValues(buffer, entropy);
    challenge := buffer[..];
  }

  method GetRandomValues(buffer: array<bv8>, entropy: seq<bv8>)
    requires |entropy| == buffer.Length
    modifies buffer
    ensures buffer[..] == entropy
  {
    forall i | 0 <= i < buffer.Length {
      buffer[i] := entropy[i];
    }
  }

  // ----- Registration. -----

  /** The creation options `registerWebAuthnCredential` passes to the ceremony. */
  predicate IsRegistrationRequest(options: PublicKeyCredentialCreationOptions,
                                  entropy: seq<bv8>, env: Environment,
                                  userId: string, userName: string)
  {
    && options.challenge == entropy
    && options.rp == PublicKeyCredentialRpEntity(RelyingPartyName, env.hostname)
    && options.user == PublicKeyCredentialUserEntity(Utf8.Encode(userId), userName, userName)
    && options.pubKeyCredParams == [PublicKeyCredentialParameters(PublicKeyType, ES256),
                                    PublicKeyCredentialParameters(PublicKeyType, RS256)]
    && options.authenticatorSelection == AuthenticatorSelectionCriteria("platform", "required", false)
    && options.timeout == CeremonyTimeout
    && options.attestation == "none"
  }

  /** What registration returns once the ceremony has answered. A missing public
      key is not rejected: `new Uint8Array(null)` is empty, so the record carries
      the encoding of no bytes. */
  function RegistrationResult(attestation: AttestationResult, userAgent: string)
    : (credential: Option<WebAuthnCredential>)
    ensures credential.None? <==> !attestation.Attested?
    ensures credential.Some? ==>
      && Base64.Decode(credential.value.credentialId) == Some(attestation.rawId)
      && Base64.Decode(credential.value.publicKey) == Some(attestation.publicKey.GetOr([]))
      && credential.value.deviceName == GetDeviceName(userAgent)
  {
    match attestation
    case AttestationNull => None
    case AttestationThrows => None
    case Attested(rawId, publicKey) =>
      Base64.RoundTrip(rawId);
      Base64.RoundTrip(publicKey.GetOr([]));
      Some(WebAuthnCredential(Base64.Encode(rawId), Base64.Encode(publicKey.GetOr([])),
                              GetDeviceName(userAgent)))
  }

  /** `registerWebAuthnCredential`. `request` is the options record handed to the
      ceremony, None when the flow throws before building it. */
  method RegisterWebAuthnCredential(env: Environment, userId: string, userName: string,
                                    entropy: seq<bv8>,
                                    create: PublicKeyCredentialCreationOptions -> AttestationResult)
    returns (outcome: Completion<Option<WebAuthnCredential>>,
             request: Option<PublicKeyCredentialCreationOptions>)
    requires |entropy| == ChallengeLength
    ensures !IsWebAuthnSupported(env) ==> outcome == Raised(NotSupportedMessage) && request == None
    ensures IsWebAuthnSupported(env) ==>
      && request.Some?
      && IsRegistrationRequest(request.value, entropy, env, userId, userName)
      && outcome == Returned(RegistrationResult(create(request.value), env.userAgent))
  {
    if !IsWebAuthnSupported(env) {
      return Raised(NotSupportedMessage), None;
    }
    var challenge := NewChallenge(entropy);
    var options := PublicKeyCredentialCreationOptions(
      challenge,
      PublicKeyCredentialRpEntity(RelyingPartyName, env.hostname),
      PublicKeyCredentialUserEntity(Utf8.Encode(userId), userName, userName),
      [PublicKeyCredentialParameters(PublicKeyType, ES256),
       PublicKeyCredentialParameters(PublicKeyType, RS256)],
      AuthenticatorSelectionCriteria("platform", "required", false),
      CeremonyTimeout,
      "none");
    request := Some(options);
    var attestation := create(options);
    if !attestation.Attested? {
      // A null credential, or a ceremony error caught and logged.
      return Returned(None), request;
    }
    var credentialId := ArrayBufferToBase64(attestation.rawId);
    var publicKey := ArrayBufferToBase64(attestation.publicKey.GetOr([]));
    var deviceName := GetDeviceName(env.userAgent);
    outcome := Returned(Some(WebAuthnCredential(credentialId, publicKey, deviceName)));
  }

  /** A non-null registration result whose ceremony gave no public key carries an
      empty public key; it is not turned into null. */
  lemma MissingPublicKeyGivesEmptyKey(rawId: seq<bv8>, userAgent: string)
    ensures RegistrationResult(Attested(rawId, None), userAgent).Some?
    ensures RegistrationResult(Attested(rawId, None), userAgent).value.publicKey == ""
  {
    Base64.EncodeLength([]);
  }

  /** Both fields of a registration result are non-empty exactly when the
      ceremony gave a non-empty raw id and a non-empty public key. */
  lemma RegistrationFieldsNonEmpty(attestation: AttestationResult, userAgent: string)
    requires attestation.Attested?
    ensures var c := RegistrationResult(attestation, userAgent).value;
      (c.credentialId != "" && c.publicKey != "") <==>
      (attestation.rawId != [] && attestation.publicKey.Some? && attestation.publicKey.value != [])
  {
    Base64.EncodeLength(attestation.rawId);
    Base64.EncodeLength(attestation.publicKey.GetOr([]));
  }

  // ----- Authentication. -----

  /** The allow-list of `authenticateWebAuthn`: every id decoded, in order; None
      when some id is not valid base 64 (`atob` throws inside the `map`). */
  function AllowList(credentialIds: seq<string>)
    : (allow: Option<seq<PublicKeyCredentialDescriptor>>)
    ensures allow.None? <==> exists i :: 0 <= i < |credentialIds| && Base64.Decode(credentialIds[i]).None?
    ensures allow.Some? ==> |allow.value| == |credentialIds|
    ensures allow.Some? ==>
      forall i :: 0 <= i < |credentialIds| ==>
        Some(allow.value[i].id) == Base64.Decode(credentialIds[i]) &&
        allow.value[i].credentialType == PublicKeyType
  {
    if credentialIds == [] then Some([])
    else match (Base64.Decode(credentialIds[0]), AllowList(credentialIds[1..]))
      case (Some(id), Some(rest)) => Some([PublicKeyCredentialDescriptor(PublicKeyType, id)] + rest)
      case (None, _) => None
      case (_, None) =>
        assert forall i :: 1 <= i < |credentialIds| ==> credentialIds[1..][i - 1] == credentialIds[i];
        None
  }

  /** One id that atob rejects makes the whole allow-list fail, whatever the others. */
  lemma AllowListRejects()
    ensures AllowList(["A"]) == None
    ensures AllowList(["AA==", "AA*A"]) == None
  {
    Base64.DecodeRejects();
    assert ["A"][0] == "A";
    assert ["AA==", "AA*A"][1] == "AA*A";
  }

  function AssertionResultId(assertion: AssertionResult): (id: Option<string>)
    ensures id.Some? <==> assertion.Asserted?
    ensures id.Some? ==> Base64.Decode(id.value) == Some(assertion.rawId)
  {
    match assertion
    case Asserted(rawId) => Base64.RoundTrip(rawId); Some(Base64.Encode(rawId))
    case _ => None
  }

  /** `authenticateWebAuthn`. `request` is the options record handed to the
      ceremony, None when the flow throws or fails before building it. */
  method AuthenticateWebAuthn(env: Environment, credentialIds: seq<string>, entropy: seq<bv8>,
                              get: PublicKeyCredentialRequestOptions -> AssertionResult)
    returns (outcome: Completion<Option<string>>,
             request: Option<PublicKeyCredentialRequestOptions>)
    requires |entropy| == ChallengeLength
    ensures !IsWebAuthnSupported(env) ==> outcome == Raised(NotSupportedMessage) && request == None
    ensures IsWebAuthnSupported(env) && AllowList(credentialIds).None? ==>
      outcome == Returned(None) && request == None
    ensures IsWebAuthnSupported(env) && AllowList(credentialIds).Some? ==>
      && request == Some(PublicKeyCredentialRequestOptions(
           entropy, AllowList(credentialIds).value, CeremonyTimeout, "required"))
      && outcome == Returned(AssertionResultId(get(request.value)))
  {
    if !IsWebAuthnSupported(env) {
      return Raised(NotSupportedMessage), None;
    }
    var challenge := NewChallenge(entropy);
    var allowCredentials := AllowList(credentialIds);
    if allowCredentials.None? {
      // `atob` threw while building the allow-list; caught and logged.
      return Returned(None), None;
    }
    var options := PublicKeyCredentialRequestOptions(
      challenge, allowCredentials.value, CeremonyTimeout, "required");
    request := Some(options);
    var assertion := get(options);
    if !assertion.Asserted? {
      return Returned(None), request;
    }
    var id := ArrayBufferToBase64(assertion.rawId);
    outcome := Returned(Some(id));
  }

  /** Ids that are themselves encodings (as registration stores them) all decode,
      so the allow-list has one entry per id holding exactly its bytes. */
  lemma {:induction false} AllowListOfEncodedIds(rawIds: seq<seq<bv8>>)
    ensures var ids := seq(|rawIds|, i requires 0 <= i < |rawIds| => Base64.Encode(rawIds[i]));
      AllowList(ids).Some? &&
      forall i :: 0 <= i < |rawIds| ==> AllowList(ids).value[i].id == rawIds[i]
  {
    var ids := seq(|rawIds|, i requires 0 <= i < |rawIds| => Base64.Encode(rawIds[i]));
    forall i | 0 <= i < |rawIds| ensures Base64.Decode(ids[i]) == Some(rawIds[i]) {
      Base64.RoundTrip(rawIds[i]);
    }
  }

  /** When the ids are encodings and the platform asserts a credential of the
      allow-list, the returned id is one of the given ids. */
  lemma AuthenticatedIdIsAllowed(rawIds: seq<seq<bv8>>, rawId: seq<bv8>)
    requires rawId in rawIds
    ensures var ids := seq(|rawIds|, i requires 0 <= i < |rawIds| => Base64.Encode(rawIds[i]));
      AssertionResultId(Asserted(rawId)).value in ids
  {
    var k :| 0 <= k < |rawIds| && rawIds[k] == rawId;
    var ids := seq(|rawIds|, i requires 0 <= i < |rawIds| => Base64.Encode(rawIds[i]));
    assert ids[k] == Base64.Encode(rawId);
  }

  /** The returned id is not checked against the given ids: with the unpadded id
      "AB", the platform asserting exactly the allow-listed credential makes the
      flow return "AA==", which is not among the ids. */
  lemma AuthenticatedIdMayDifferFromGivenId()
    ensures AllowList(["AB"]) == Some([PublicKeyCredentialDescriptor(PublicKeyType, [0])])
    ensures AssertionResultId(Asserted([0])) == Some("AA==")
  {
    Base64.DecodeIsLenient();
    var ids := ["AB"];
    assert ids[0] == "AB" && ids[1..] == [];
    assert AllowList(ids[1..]) == Some([]);
    assert Base64.Decode(ids[0]) == Some([0]);
    var descriptor := PublicKeyCredentialDescriptor(PublicKeyType, [0]);
    assert AllowList(ids) == Some([descriptor] + []);
    assert [descriptor] + [] == [descriptor];
    assert AssertionResultId(Asserted([0])) == Some(Base64.Encode([0]));
  }
}
