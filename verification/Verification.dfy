/** The contract's read-only checks: freshness of the VRF challenge, verification of a registration and
    of an authentication. */
module Verification {
  import opened Common
  import opened AuthData
  import opened Verifiers
  import Base64Codec
  import Unicode

  type U64 = n: int | 0 <= n < 0x1_0000_0000_0000_0000

  datatype VrfData = VrfData(
    input: seq<Byte>, output: seq<Byte>, proof: seq<Byte>, publicKey: seq<Byte>,
    userId: string, rpId: string, blockHeight: U64)

  datatype RegistrationCredential =
    RegistrationCredential(clientDataJson: string, attestationObject: string, transports: Option<seq<string>>)

  datatype AuthenticationCredential =
    AuthenticationCredential(id: string, clientDataJson: string, authenticatorData: string, signature: string)

  /** How a call ends: an abort that undoes it, or a value. */
  datatype Outcome<+T> = Panic | Return(value: T)

  // ---------- base64url without padding ----------

  function Encode64(b: seq<Byte>): string {
    Base64Codec.UrlChars(Base64Codec.Sextets(b))
  }

  /** The strict decoder, which the contract uses for everything it is sent. */
  function Decode64(s: string): Option<seq<Byte>> {
    Base64Codec.StrictDecode(s)
  }

  lemma Decode64ExactlyInvertsEncode64(s: string, b: seq<Byte>)
    ensures Decode64(s) == Some(b) <==> s == Encode64(b)
  {
    hide Base64Codec.UrlChars, Base64Codec.Sextets, Base64Codec.StrictDecode;
    Base64Codec.StrictDecodeExactlyInvertsEncoding(s, b);
  }

  function Utf8(s: string): seq<Byte> {
    Unicode.EncodeAll(CodePoints(s))
  }

  function CodePoints(s: string): seq<Unicode.Scalar> {
    seq(|s|, i requires 0 <= i < |s| => s[i] as int)
  }

  /** The octets hashed for a relying party are well-formed UTF-8 and decode to exactly its characters. */
  lemma Utf8Decodes(s: string)
    ensures var b := Utf8(s);
            && Unicode.IsUtf8(b) && |Unicode.DecodeAll(b)| == |s|
            && forall i :: 0 <= i < |s| ==> Unicode.DecodeAll(b)[i] == s[i] as int
  {
    Unicode.DecodeInvertsEncode(CodePoints(s));
  }

  // ---------- freshness ----------

  datatype Freshness = Fresh | Stale | Overflow

  /** The height test with its short circuit: the sum is formed only when the claim is not in the future. */
  function HeightTest(current: U64, claimed: U64, maxAge: U64): Freshness {
    if current < claimed then Stale
    else if claimed + maxAge >= 0x1_0000_0000_0000_0000 then Overflow
    else if current > claimed + maxAge then Stale
    else Fresh
  }

  /** A caller can make the sum overflow exactly when the current height plus the permitted age does. */
  lemma OverflowPossibleExactlyAtTheEdge(current: U64, maxAge: U64)
    ensures (exists claimed: U64 :: HeightTest(current, claimed, maxAge) == Overflow)
       <==> current + maxAge >= 0x1_0000_0000_0000_0000
  {
    assert HeightTest(current, current, maxAge) == Overflow <==> current + maxAge >= 0x1_0000_0000_0000_0000;
  }

  lemma FreshExactlyWithinTheAge(current: U64, claimed: U64, maxAge: U64)
    requires current + maxAge < 0x1_0000_0000_0000_0000
    ensures HeightTest(current, claimed, maxAge) == Fresh <==> 0 <= current - claimed <= maxAge
  {}

  /** The challenge a VRF output stands for. */
  function Challenge(output: seq<Byte>): string
    requires |output| >= 32
  {
    Encode64(output[..32])
  }

  function ExtractChallenge(lib: Libraries, height: U64, maxAge: U64, v: VrfData): Outcome<Option<string>> {
    match HeightTest(height, v.blockHeight, maxAge)
    case Overflow => Panic
    case Stale => Return(None)
    case Fresh =>
      match lib.vrf(v.proof, v.publicKey, v.input)
      case None => Return(None)
      case Some(output) =>
        if output != v.output then Return(None) else Return(Some(Challenge(v.output)))
  }

  // ---------- registration ----------

  datatype RegistrationInfo = RegistrationInfo(credentialId: seq<Byte>, publicKey: seq<Byte>)

  /** The authenticator data is for `rpId`, with the user verified (where required) and present. */
  predicate AcceptableData(lib: Libraries, d: AuthenticatorData, rpId: string, requireUserVerification: bool) {
    && d.rpIdHash == lib.sha256(Utf8(rpId))
    && (requireUserVerification ==> HasFlag(d.flags, UV))
    && HasFlag(d.flags, UP)
  }

  function ParseClientData(lib: Libraries, clientDataJson: string): Option<ClientData> {
    match Decode64(clientDataJson)
    case None => None
    case Some(bytes) => lib.json(bytes)
  }

  function ParseAttestation(lib: Libraries, attestationObject: string): Option<Attestation> {
    match Decode64(attestationObject)
    case None => None
    case Some(bytes) => match lib.cbor(bytes) case None => None case Some(c) => ParseAttestationObject(c)
  }

  function VerifyCredential(lib: Libraries, credential: RegistrationCredential, challenge: string, rpId: string,
                            requireUserVerification: bool): Option<RegistrationInfo>
  {
    match ParseClientData(lib, credential.clientDataJson)
    case None => None
    case Some(client) =>
      if client.challenge != challenge || client.origin != "https://" + rpId || client.kind != "webauthn.create"
      then None
      else match ParseAttestation(lib, credential.attestationObject)
           case None => None
           case Some(a) => VerifyAttested(lib, a, Decode64(credential.clientDataJson).value, rpId,
                                          requireUserVerification)
  }

  function VerifyAttested(lib: Libraries, a: Attestation, clientData: seq<Byte>, rpId: string,
                          requireUserVerification: bool): Option<RegistrationInfo>
  {
    match Parse(a.authData)
    case Err(_) => None
    case Ok(d) =>
      if !AcceptableData(lib, d, rpId, requireUserVerification) || !HasFlag(d.flags, AT) || d.attested.None? then None
      else
        var attested := d.attested.value;
        if CheckAttestation(lib, a, lib.sha256(clientData), attested.credentialPublicKey) != Ok(true) then None
        else Some(RegistrationInfo(attested.credentialId, attested.credentialPublicKey))
  }

  /** The whole check behind both registration entry points. */
  function RegistrationCheck(lib: Libraries, height: U64, maxAge: U64, v: VrfData, credential: RegistrationCredential)
    : Outcome<Option<RegistrationInfo>>
  {
    match ExtractChallenge(lib, height, maxAge, v)
    case Panic => Panic
    case Return(None) => Return(None)
    case Return(Some(challenge)) => Return(VerifyCredential(lib, credential, challenge, v.rpId, true))
  }

  // ---------- authentication ----------

  datatype Transport = Usb | Nfc | Ble | Internal | Hybrid

  datatype StoredAuthenticator =
    StoredAuthenticator(publicKey: seq<Byte>, transports: Option<seq<Transport>>, registered: string,
                        vrfKeys: seq<seq<Byte>>)

  datatype Device = Device(credentialId: seq<Byte>, publicKey: seq<Byte>, counter: nat)

  datatype AuthenticationInfo = AuthenticationInfo(
    credentialId: seq<Byte>, newCounter: nat, userVerified: bool, multiDevice: bool, backedUp: bool,
    origin: string, rpId: string)

  function RpIdOf(origin: string): string {
    if "https://" <= origin then origin[8..] else if "http://" <= origin then origin[7..] else origin
  }

  function VerifyAssertion(lib: Libraries, credential: AuthenticationCredential, challenge: string, origin: string,
                           rpId: string, device: Device, requireUserVerification: bool): Option<AuthenticationInfo>
  {
    match ParseClientData(lib, credential.clientDataJson)
    case None => None
    case Some(client) =>
      if client.kind != "webauthn.get" || client.challenge != challenge || client.origin != origin then None
      else match Decode64(credential.authenticatorData)
           case None => None
           case Some(bytes) =>
             match Parse(bytes)
             case Err(_) => None
             case Ok(d) =>
               if !AcceptableData(lib, d, rpId, requireUserVerification)
                  || (device.counter > 0 && d.counter <= device.counter)
                  || Decode64(credential.signature).None?
               then None
               else
                 var clientData := Decode64(credential.clientDataJson).value;
                 var signed := bytes + lib.sha256(clientData);
                 if CheckAssertion(lib, Decode64(credential.signature).value, signed, device.publicKey) != Ok(true)
                 then None
                 else Some(AuthenticationInfo(device.credentialId, d.counter, HasFlag(d.flags, UV),
                                              HasFlag(d.flags, BE), HasFlag(d.flags, BS), origin, rpId))
  }

  function OrEmpty(o: Option<seq<Byte>>): seq<Byte> {
    if o.Some? then o.value else []
  }

  /** verify_authentication_response over the caller-supplied data and the authenticator found for it. */
  function VerifyAuthentication(lib: Libraries, height: U64, maxAge: U64, v: VrfData,
                                credential: AuthenticationCredential, stored: Option<StoredAuthenticator>)
    : Outcome<Option<AuthenticationInfo>>
  {
    match ExtractChallenge(lib, height, maxAge, v)
    case Panic => Panic
    case Return(None) => Return(None)
    case Return(Some(challenge)) =>
      if !lib.isAccountId(v.userId) || stored.None? || v.publicKey !in stored.value.vrfKeys then Return(None)
      else
        var device := Device(OrEmpty(Decode64(credential.id)), stored.value.publicKey, 0);
        match ParseClientData(lib, credential.clientDataJson)
        case None => Return(None)
        case Some(client) =>
          Return(VerifyAssertion(lib, credential, challenge, client.origin, RpIdOf(client.origin), device, true))
  }

  // ---------- what a positive answer establishes ----------

  /** The domain an origin belongs to: what follows https:// or http://, or all of it without either. */
  predicate IsDomain(origin: string, domain: string) {
    || origin == "https://" + domain
    || origin == "http://" + domain
    || (origin == domain && !("https://" <= origin) && !("http://" <= origin))
  }

  lemma RpIdIsTheDomain(origin: string, domain: string)
    ensures RpIdOf(origin) == domain <==> IsDomain(origin, domain)
  {
    assert ("https://" + domain)[8..] == domain && ("http://" + domain)[7..] == domain;
    assert ("https://" + domain)[4] == 's' && ("http://" + domain)[4] == ':';
    if "https://" <= origin {
      assert origin == "https://" + origin[8..] && origin[4] == 's';
    } else if "http://" <= origin {
      assert origin == "http://" + origin[7..] && origin[4] == ':';
    }
  }

  /** The id a credential names: its octets in base64url, or none when it is not base64url. */
  ghost predicate NamesId(id: string, octets: seq<Byte>) {
    id == Encode64(octets) || (octets == [] && forall b :: id != Encode64(b))
  }

  lemma DecodedIdIsNamed(id: string, octets: seq<Byte>)
    ensures octets == OrEmpty(Decode64(id)) <==> NamesId(id, octets)
  {
    hide Decode64, Encode64;
    forall b ensures Decode64(id) == Some(b) <==> id == Encode64(b) {
      Decode64ExactlyInvertsEncode64(id, b);
    }
    if Decode64(id).Some? {
      assert id == Encode64(Decode64(id).value);
    }
  }

  /** The checked facts behind the positive answer `info`, whatever order they were checked in. */
  ghost predicate Authenticated(lib: Libraries, height: U64, maxAge: U64, v: VrfData,
                                credential: AuthenticationCredential, stored: StoredAuthenticator,
                                info: AuthenticationInfo)
  {
    exists bytes: seq<Byte>, clientBytes: seq<Byte>, signature: seq<Byte>, output: VrfOutput ::
      && 0 <= height - v.blockHeight <= maxAge
      && lib.vrf(v.proof, v.publicKey, v.input) == Some(output)
      && v.publicKey in stored.vrfKeys
      && Assertion(lib, credential, output, stored.publicKey, info, bytes, clientBytes, signature)
  }

  /** The credential is an assertion for the challenge of `output` and for the domain of its own origin: user
      present and verified, signed with the stored key over the authenticator data and the hash of the client
      data; and `info` is what it says. */
  ghost predicate Assertion(lib: Libraries, credential: AuthenticationCredential, output: VrfOutput,
                            publicKey: seq<Byte>, info: AuthenticationInfo,
                            bytes: seq<Byte>, clientBytes: seq<Byte>, signature: seq<Byte>)
  {
    && credential.authenticatorData == Encode64(bytes)
    && credential.clientDataJson == Encode64(clientBytes)
    && credential.signature == Encode64(signature)
    && lib.json(clientBytes) == Some(ClientData("webauthn.get", Encode64(output[..32]), info.origin))
    && IsDomain(info.origin, info.rpId)
    && Parse(bytes).Ok?
    && var d := Parse(bytes).value;
    && d.rpIdHash == lib.sha256(Utf8(info.rpId))
    && HasFlag(d.flags, UP) && HasFlag(d.flags, UV)
    && Verifies(lib, publicKey, bytes + lib.sha256(clientBytes), signature)
    && NamesId(credential.id, info.credentialId)
    && info == AuthenticationInfo(info.credentialId, d.counter, true, HasFlag(d.flags, BE), HasFlag(d.flags, BS),
                                  info.origin, info.rpId)
  }

  lemma AssertionAccepted(lib: Libraries, credential: AuthenticationCredential, output: VrfOutput, device: Device)
    requires ParseClientData(lib, credential.clientDataJson).Some? && device.counter == 0
    requires device.credentialId == OrEmpty(Decode64(credential.id))
    requires var origin := ParseClientData(lib, credential.clientDataJson).value.origin;
             VerifyAssertion(lib, credential, Challenge(output), origin, RpIdOf(origin), device, true).Some?
    ensures Decode64(credential.authenticatorData).Some? && Decode64(credential.clientDataJson).Some?
    ensures Decode64(credential.signature).Some?
    ensures var origin := ParseClientData(lib, credential.clientDataJson).value.origin;
            var info := VerifyAssertion(lib, credential, Challenge(output), origin, RpIdOf(origin), device, true).value;
            Assertion(lib, credential, output, device.publicKey, info, Decode64(credential.authenticatorData).value,
                      Decode64(credential.clientDataJson).value, Decode64(credential.signature).value)
  {
    hide Decode64, Encode64, Parse, HasFlag, CheckAssertion, Verifies, Utf8, RpIdOf, IsDomain, NamesId;
    Decode64ExactlyInvertsEncode64(credential.authenticatorData, OrEmpty(Decode64(credential.authenticatorData)));
    Decode64ExactlyInvertsEncode64(credential.clientDataJson, OrEmpty(Decode64(credential.clientDataJson)));
    Decode64ExactlyInvertsEncode64(credential.signature, OrEmpty(Decode64(credential.signature)));
    DecodedIdIsNamed(credential.id, device.credentialId);
    var origin := ParseClientData(lib, credential.clientDataJson).value.origin;
    RpIdIsTheDomain(origin, RpIdOf(origin));
    AssertionAcceptsExactly(
      lib, Decode64(credential.signature).value,
      Decode64(credential.authenticatorData).value + lib.sha256(Decode64(credential.clientDataJson).value),
      device.publicKey);
  }

  lemma AssertionSuffices(lib: Libraries, credential: AuthenticationCredential, output: VrfOutput, device: Device,
                          info: AuthenticationInfo, bytes: seq<Byte>, clientBytes: seq<Byte>, signature: seq<Byte>)
    requires Assertion(lib, credential, output, device.publicKey, info, bytes, clientBytes, signature)
    requires device.counter == 0 && device.credentialId == OrEmpty(Decode64(credential.id))
    ensures ParseClientData(lib, credential.clientDataJson).Some?
    ensures var origin := ParseClientData(lib, credential.clientDataJson).value.origin;
            VerifyAssertion(lib, credential, Challenge(output), origin, RpIdOf(origin), device, true) == Some(info)
  {
    hide Decode64, Encode64, Parse, HasFlag, CheckAssertion, Verifies, Utf8, RpIdOf, IsDomain, NamesId;
    Decode64ExactlyInvertsEncode64(credential.authenticatorData, bytes);
    Decode64ExactlyInvertsEncode64(credential.clientDataJson, clientBytes);
    Decode64ExactlyInvertsEncode64(credential.signature, signature);
    DecodedIdIsNamed(credential.id, info.credentialId);
    RpIdIsTheDomain(info.origin, info.rpId);
    AssertionAcceptsExactly(lib, signature, bytes + lib.sha256(clientBytes), device.publicKey);
  }

  /** What a positive answer establishes, even where the height test could have overflowed. */
  lemma VerifiedImpliesAuthenticated(lib: Libraries, height: U64, maxAge: U64, v: VrfData,
                                     credential: AuthenticationCredential, stored: Option<StoredAuthenticator>)
    requires VerifyAuthentication(lib, height, maxAge, v, credential, stored).Return?
    requires VerifyAuthentication(lib, height, maxAge, v, credential, stored).value.Some?
    ensures stored.Some? && lib.isAccountId(v.userId) && lib.vrf(v.proof, v.publicKey, v.input) == Some(v.output)
    ensures Authenticated(lib, height, maxAge, v, credential, stored.value,
                          VerifyAuthentication(lib, height, maxAge, v, credential, stored).value.value)
  {
    hide VerifyAssertion, Assertion, Parse, ParseClientData, Encode64, RpIdOf;
    var device := Device(OrEmpty(Decode64(credential.id)), stored.value.publicKey, 0);
    AssertionAccepted(lib, credential, v.output, device);
  }

  /** Verification answers `info` exactly when the assertion is fresh, for a stored key, and signed, and says
      `info`; the counter never decides, since the stored one is always 0. */
  lemma VerifiedExactlyWhenAuthenticated(lib: Libraries, height: U64, maxAge: U64, v: VrfData,
                                         credential: AuthenticationCredential, stored: StoredAuthenticator,
                                         info: AuthenticationInfo)
    requires height + maxAge < 0x1_0000_0000_0000_0000
    ensures VerifyAuthentication(lib, height, maxAge, v, credential, Some(stored)) == Return(Some(info))
       <==> && lib.isAccountId(v.userId) && lib.vrf(v.proof, v.publicKey, v.input) == Some(v.output)
            && Authenticated(lib, height, maxAge, v, credential, stored, info)
  {
    hide VerifyAssertion, Assertion, Parse, ParseClientData, Encode64, RpIdOf;
    FreshExactlyWithinTheAge(height, v.blockHeight, maxAge);
    var answer := VerifyAuthentication(lib, height, maxAge, v, credential, Some(stored));
    var device := Device(OrEmpty(Decode64(credential.id)), stored.publicKey, 0);
    if answer == Return(Some(info)) {
      VerifiedImpliesAuthenticated(lib, height, maxAge, v, credential, Some(stored));
    }
    if lib.vrf(v.proof, v.publicKey, v.input) == Some(v.output)
       && Authenticated(lib, height, maxAge, v, credential, stored, info) {
      var bytes, clientBytes, signature, output :|
        && lib.vrf(v.proof, v.publicKey, v.input) == Some(output)
        && Assertion(lib, credential, output, stored.publicKey, info, bytes, clientBytes, signature);
      AssertionSuffices(lib, credential, output, device, info, bytes, clientBytes, signature);
    }
  }

  /** Either check aborts exactly when the height test overflows, whatever else it is given. */
  lemma ChecksAbortExactlyOnOverflow(lib: Libraries, height: U64, maxAge: U64, v: VrfData,
                                     credential: AuthenticationCredential, stored: Option<StoredAuthenticator>,
                                     registration: RegistrationCredential)
    ensures var overflows := v.blockHeight <= height && v.blockHeight + maxAge >= 0x1_0000_0000_0000_0000;
            && (VerifyAuthentication(lib, height, maxAge, v, credential, stored) == Panic <==> overflows)
            && (RegistrationCheck(lib, height, maxAge, v, registration) == Panic <==> overflows)
  {
    hide VerifyAssertion, VerifyCredential, ParseClientData, Encode64, Decode64, RpIdOf;
  }

  /** The credential attests `info` for `rpId` in answer to `challenge`: an object of this authenticator data,
      statement and format, user present and verified, attested data included, and the statement vouching for
      the attested key. */
  ghost predicate Attests(lib: Libraries, credential: RegistrationCredential, challenge: string, rpId: string,
                          info: RegistrationInfo, clientBytes: seq<Byte>, objectBytes: seq<Byte>, a: Attestation)
  {
    && credential.clientDataJson == Encode64(clientBytes) && credential.attestationObject == Encode64(objectBytes)
    && lib.json(clientBytes) == Some(ClientData("webauthn.create", challenge, "https://" + rpId))
    && lib.cbor(objectBytes).Some? && lib.cbor(objectBytes).value.Map?
    && var entries := lib.cbor(objectBytes).value.entries;
    && Holds(entries, Text("authData"), Bytes(a.authData)) && Holds(entries, Text("attStmt"), a.statement)
    && Holds(entries, Text("fmt"), Text(a.format))
    && Parse(a.authData).Ok?
    && var d := Parse(a.authData).value;
    && d.rpIdHash == lib.sha256(Utf8(rpId)) && HasFlag(d.flags, UP) && HasFlag(d.flags, UV)
    && d.attested.Some? && info == RegistrationInfo(d.attested.value.credentialId,
                                                    d.attested.value.credentialPublicKey)
    && Vouches(lib, a, U2fFields(d.rpIdHash, info.credentialId), lib.sha256(clientBytes), info.publicKey)
  }

  lemma ParsedFlagsMatch(b: seq<Byte>)
    requires Parse(b).Ok?
    ensures HasFlag(Parse(b).value.flags, AT) <==> Parse(b).value.attested.Some?
  {
    hide HasFlag, Serialize;
    SerializeInvertsParse(b);
  }

  /** The checks on an attestation once its object is read. */
  lemma AttestedExactly(lib: Libraries, a: Attestation, clientBytes: seq<Byte>, rpId: string, info: RegistrationInfo)
    ensures VerifyAttested(lib, a, clientBytes, rpId, true) == Some(info) <==>
            && Parse(a.authData).Ok?
            && var d := Parse(a.authData).value;
            && d.rpIdHash == lib.sha256(Utf8(rpId)) && HasFlag(d.flags, UP) && HasFlag(d.flags, UV)
            && d.attested.Some? && info == RegistrationInfo(d.attested.value.credentialId,
                                                            d.attested.value.credentialPublicKey)
            && Vouches(lib, a, U2fFields(d.rpIdHash, info.credentialId), lib.sha256(clientBytes), info.publicKey)
  {
    hide Parse, HasFlag, CheckAttestation, Vouches, Utf8;
    if Parse(a.authData).Ok? {
      ParsedFlagsMatch(a.authData);
      if Parse(a.authData).value.attested.Some? {
        AcceptedOnTheRegistrationPath(lib, a, lib.sha256(clientBytes));
      }
    }
  }

  lemma CredentialVerifiedExactlyWhenAttests(lib: Libraries, credential: RegistrationCredential, challenge: string,
                                             rpId: string, info: RegistrationInfo)
    ensures VerifyCredential(lib, credential, challenge, rpId, true) == Some(info)
       <==> exists clientBytes, objectBytes, a ::
              Attests(lib, credential, challenge, rpId, info, clientBytes, objectBytes, a)
  {
    hide Decode64, Encode64, Parse, HasFlag, Utf8, ParseAttestationObject, VerifyAttested, Vouches;
    var c, o := credential.clientDataJson, credential.attestationObject;
    if VerifyCredential(lib, credential, challenge, rpId, true) == Some(info) {
      var clientBytes, objectBytes := Decode64(c).value, Decode64(o).value;
      Decode64ExactlyInvertsEncode64(c, clientBytes);
      Decode64ExactlyInvertsEncode64(o, objectBytes);
      var a := ParseAttestationObject(lib.cbor(objectBytes).value).value;
      ReadsAttestationExactly(lib.cbor(objectBytes).value, a.authData, a.statement, a.format);
      AttestedExactly(lib, a, clientBytes, rpId, info);
      assert Attests(lib, credential, challenge, rpId, info, clientBytes, objectBytes, a);
    }
    if clientBytes, objectBytes, a :|
      Attests(lib, credential, challenge, rpId, info, clientBytes, objectBytes, a) {
      Decode64ExactlyInvertsEncode64(c, clientBytes);
      Decode64ExactlyInvertsEncode64(o, objectBytes);
      ReadsAttestationExactly(lib.cbor(objectBytes).value, a.authData, a.statement, a.format);
      AttestedExactly(lib, a, clientBytes, rpId, info);
    }
  }

  /** A registration is verified, yielding `info`, exactly when the VRF output claimed is fresh and proved and
      the credential attests `info` for the claimed relying party in answer to that output's challenge. */
  lemma RegisteredExactlyWhenAttested(lib: Libraries, height: U64, maxAge: U64, v: VrfData,
                                      credential: RegistrationCredential, info: RegistrationInfo)
    requires height + maxAge < 0x1_0000_0000_0000_0000
    ensures RegistrationCheck(lib, height, maxAge, v, credential) == Return(Some(info))
       <==> && 0 <= height - v.blockHeight <= maxAge
            && lib.vrf(v.proof, v.publicKey, v.input) == Some(v.output) && |v.output| == 64
            && exists clientBytes, objectBytes, a ::
                 Attests(lib, credential, Encode64(v.output[..32]), v.rpId, info, clientBytes, objectBytes, a)
  {
    hide VerifyCredential, Attests, Encode64;
    FreshExactlyWithinTheAge(height, v.blockHeight, maxAge);
    if |v.output| == 64 {
      CredentialVerifiedExactlyWhenAttests(lib, credential, Challenge(v.output), v.rpId, info);
    }
  }

  /** A stored counter, had it been kept, would have to be exceeded; and user verification is a further condition
      on top of everything else. */
  lemma CounterAndUserVerificationOnlyRestrict(
    lib: Libraries, credential: AuthenticationCredential, challenge: string, origin: string, rpId: string,
    device: Device)
    ensures var loose := VerifyAssertion(lib, credential, challenge, origin, rpId, device.(counter := 0), false);
            && VerifyAssertion(lib, credential, challenge, origin, rpId, device, false) ==
               (if loose.Some? && (device.counter == 0 || loose.value.newCounter > device.counter) then loose else None)
            && VerifyAssertion(lib, credential, challenge, origin, rpId, device.(counter := 0), true) ==
               (if loose.Some? && loose.value.userVerified then loose else None)
  {
    hide Decode64, Parse, HasFlag, CheckAssertion, Utf8, ParseClientData;
  }

  // ---------- what is not compared ----------

  /** An authentication's answer does not depend on the relying party the VRF data names, on its claimed
      height within the window, or on anything else of it but the proof, its input and output, the key and
      the user; the relying party is the one of the client data's origin. */
  lemma AuthenticationIgnoresClaimedRpIdAndHeight(
    lib: Libraries, height: U64, maxAge: U64, v: VrfData, rpId: string, later: U64, laterAge: U64,
    credential: AuthenticationCredential, stored: Option<StoredAuthenticator>)
    requires VerifyAuthentication(lib, height, maxAge, v, credential, stored).Return?
    requires VerifyAuthentication(lib, height, maxAge, v, credential, stored).value.Some?
    ensures VerifyAuthentication(lib, later, laterAge, v.(rpId := rpId, blockHeight := later), credential, stored) ==
            if later + laterAge < 0x1_0000_0000_0000_0000
            then VerifyAuthentication(lib, height, maxAge, v, credential, stored)
            else Panic
  {
    hide VerifyAssertion, ParseClientData, Encode64, Decode64, RpIdOf;
  }

  /** A registration, in contrast, is bound to the relying party the VRF data names: at most one is accepted. */
  lemma RegistrationBindsTheRpId(lib: Libraries, height: U64, maxAge: U64, v: VrfData, rpId: string,
                                 credential: RegistrationCredential)
    requires RegistrationCheck(lib, height, maxAge, v, credential).Return?
    requires RegistrationCheck(lib, height, maxAge, v, credential).value.Some?
    ensures RegistrationCheck(lib, height, maxAge, v.(rpId := rpId), credential) ==
            if rpId == v.rpId then RegistrationCheck(lib, height, maxAge, v, credential) else Return(None)
  {
    hide VerifyAttested, ParseAttestation, ParseClientData, Encode64, Decode64;
    SameOrigin(v.rpId, rpId);
  }

  lemma SameOrigin(rpId: string, other: string)
    ensures "https://" + rpId == "https://" + other <==> rpId == other
  {
    assert ("https://" + rpId)[8..] == rpId && ("https://" + other)[8..] == other;
  }
}
