/** The contract's signature verifiers. Hashing, curve arithmetic, CBOR and JSON parsing are parameters:
    whatever functions stand for them, the checks around them are the contract's own. */
module Verifiers {
  import opened Common
  import opened AuthData

  datatype Cbor = Integer(i: int) | Bytes(b: seq<Byte>) | Text(t: string) | Map(entries: map<Cbor, Cbor>) | Other

  type Digest = d: seq<Byte> | |d| == 32 witness seq(32, _ => 0)

  type VrfOutput = o: seq<Byte> | |o| == 64 witness seq(64, _ => 0)

  datatype ClientData = ClientData(kind: string, challenge: string, origin: string)

  /** A signature check by one of the libraries: key, message, signature. */
  type SignatureCheck = (seq<Byte>, seq<Byte>, seq<Byte>) -> bool

  datatype Libraries = Libraries(
    sha256: seq<Byte> -> Digest,
    cbor: seq<Byte> -> Option<Cbor>,
    json: seq<Byte> -> Option<ClientData>,
    isPoint: seq<Byte> -> bool,
    isDer: seq<Byte> -> bool,
    p256: SignatureCheck,
    isEd25519Key: seq<Byte> -> bool,
    ed25519: SignatureCheck,
    vrf: (seq<Byte>, seq<Byte>, seq<Byte>) -> Option<VrfOutput>,
    isAccountId: string -> bool)

  datatype VerifierError =
    | NotAMap | MissingSignature | MissingAlgorithm | MissingKeyType | UnsupportedAlgorithm | UnsupportedFormat
    | CertificateChain | BadCoseKey | MissingCoordinate | BadCoordinateLength | BadPoint | BadSignatureFormat
    | U2fLength(error: U2fLengthError)

  // ---------- reading CBOR maps ----------

  function BytesAt(entries: map<Cbor, Cbor>, key: Cbor): Option<seq<Byte>> {
    if key in entries && entries[key].Bytes? then Some(entries[key].b) else None
  }

  function IntegerAt(entries: map<Cbor, Cbor>, key: Cbor): Option<int> {
    if key in entries && entries[key].Integer? then Some(entries[key].i) else None
  }

  function TextAt(entries: map<Cbor, Cbor>, key: Cbor): Option<string> {
    if key in entries && entries[key].Text? then Some(entries[key].t) else None
  }

  datatype Attestation = Attestation(authData: seq<Byte>, statement: Cbor, format: string)

  function ParseAttestationObject(c: Cbor): Option<Attestation> {
    if !c.Map? then None
    else
      var authData := BytesAt(c.entries, Text("authData"));
      var format := TextAt(c.entries, Text("fmt"));
      if authData.None? || format.None? || Text("attStmt") !in c.entries then None
      else Some(Attestation(authData.value, c.entries[Text("attStmt")], format.value))
  }

  // ---------- P-256 ----------

  datatype Point = Point(x: seq<Byte>, y: seq<Byte>)

  function Coordinates(key: Cbor): Result<Point, VerifierError> {
    if !key.Map? then Err(BadCoseKey)
    else
      var x, y := BytesAt(key.entries, Integer(-2)), BytesAt(key.entries, Integer(-3));
      if x.None? || y.None? then Err(MissingCoordinate)
      else if |x.value| != 32 || |y.value| != 32 then Err(BadCoordinateLength)
      else Ok(Point(x.value, y.value))
  }

  /** Coordinates, curve point, DER form and signature, in that order. */
  function CheckP256(lib: Libraries, key: Cbor, message: seq<Byte>, signature: seq<Byte>): Result<bool, VerifierError> {
    match Coordinates(key)
    case Err(e) => Err(e)
    case Ok(p) =>
      var point := UncompressedPoint(p.x, p.y);
      if !lib.isPoint(point) then Err(BadPoint)
      else if !lib.isDer(signature) then Err(BadSignatureFormat)
      else Ok(lib.p256(point, message, signature))
  }

  function CheckEd25519(lib: Libraries, key: map<Cbor, Cbor>, message: seq<Byte>, signature: seq<Byte>)
    : Result<bool, VerifierError>
  {
    var x := BytesAt(key, Integer(-2));
    if x.None? then Err(MissingCoordinate)
    else if |x.value| != 32 then Err(BadCoordinateLength)
    else if |signature| != 64 then Err(BadSignatureFormat)
    else if !lib.isEd25519Key(x.value) then Err(BadPoint)
    else Ok(lib.ed25519(x.value, message, signature))
  }

  // ---------- attestation ----------

  function CheckPacked(lib: Libraries, statement: Cbor, authData: seq<Byte>, clientDataHash: Digest,
                       publicKey: seq<Byte>): Result<bool, VerifierError>
  {
    if !statement.Map? then Err(NotAMap)
    else
      var sig, alg := BytesAt(statement.entries, Text("sig")), IntegerAt(statement.entries, Text("alg"));
      if sig.None? then Err(MissingSignature)
      else if alg.None? then Err(MissingAlgorithm)
      else if alg.value != -7 then Err(UnsupportedAlgorithm)
      else if Text("x5c") in statement.entries then Err(CertificateChain)
      else if lib.cbor(publicKey).None? then Err(BadCoseKey)
      else CheckP256(lib, lib.cbor(publicKey).value, authData + clientDataHash, sig.value)
  }

  function CheckU2f(lib: Libraries, statement: Cbor, authData: seq<Byte>, clientDataHash: Digest,
                    publicKey: seq<Byte>): Result<bool, VerifierError>
  {
    if !statement.Map? then Err(NotAMap)
    else
      var sig := BytesAt(statement.entries, Text("sig"));
      if sig.None? then Err(MissingSignature)
      else match ReadU2fFields(authData)
           case Err(e) => Err(U2fLength(e))
           case Ok(fields) =>
             if lib.cbor(publicKey).None? then Err(BadCoseKey)
             else match Coordinates(lib.cbor(publicKey).value)
                  case Err(e) => Err(e)
                  case Ok(p) =>
                    if Text("x5c") in statement.entries then Err(CertificateChain)
                    else
                      var point := UncompressedPoint(p.x, p.y);
                      var message := U2fMessage(fields.rpIdHash, clientDataHash, fields.credentialId, point);
                      CheckP256(lib, lib.cbor(publicKey).value, message, sig.value)
  }

  function CheckAttestation(lib: Libraries, a: Attestation, clientDataHash: Digest, publicKey: seq<Byte>)
    : Result<bool, VerifierError>
  {
    if a.format == "none" then Ok(true)
    else if a.format == "packed" then CheckPacked(lib, a.statement, a.authData, clientDataHash, publicKey)
    else if a.format == "fido-u2f" then CheckU2f(lib, a.statement, a.authData, clientDataHash, publicKey)
    else Err(UnsupportedFormat)
  }

  /** The signature check of an assertion, by the algorithm the stored COSE key names. */
  function CheckAssertion(lib: Libraries, signature: seq<Byte>, message: seq<Byte>, publicKey: seq<Byte>)
    : Result<bool, VerifierError>
  {
    var key := lib.cbor(publicKey);
    if key.None? || !key.value.Map? then Err(BadCoseKey)
    else
      var kty, alg := IntegerAt(key.value.entries, Integer(1)), IntegerAt(key.value.entries, Integer(3));
      if kty.None? then Err(MissingKeyType)
      else if alg.None? then Err(MissingAlgorithm)
      else if kty.value == 2 && alg.value == -7 then CheckP256(lib, key.value, message, signature)
      else if kty.value == 1 && alg.value == -8 then CheckEd25519(lib, key.value.entries, message, signature)
      else Err(UnsupportedAlgorithm)
  }

  // ---------- what acceptance means ----------

  /** The map holds exactly this value under this key. */
  predicate Holds(entries: map<Cbor, Cbor>, key: Cbor, value: Cbor) {
    key in entries && entries[key] == value
  }

  /** An attestation object is read exactly when it is a map with octets under "authData", text under "fmt" and
      anything under "attStmt", and then as those three. */
  lemma ReadsAttestationExactly(c: Cbor, authData: seq<Byte>, statement: Cbor, format: string)
    ensures ParseAttestationObject(c) == Some(Attestation(authData, statement, format)) <==>
            && c.Map? && Holds(c.entries, Text("authData"), Bytes(authData))
            && Holds(c.entries, Text("fmt"), Text(format)) && Holds(c.entries, Text("attStmt"), statement)
  {}

  predicate HasCoordinate(key: map<Cbor, Cbor>, number: int) {
    Integer(number) in key && key[Integer(number)].Bytes? && |key[Integer(number)].b| == 32
  }

  /** A COSE key's x coordinate is its 32-octet entry -2 and its y coordinate its 32-octet entry -3. */
  lemma ReadsCoordinatesExactly(key: Cbor, p: Point)
    ensures Coordinates(key) == Ok(p) <==>
            && key.Map? && |p.x| == 32 && |p.y| == 32
            && Holds(key.entries, Integer(-2), Bytes(p.x)) && Holds(key.entries, Integer(-3), Bytes(p.y))
  {}

  /** `signature` is a DER signature on exactly `message` under the P-256 point that `publicKey` encodes. */
  predicate VerifiesP256(lib: Libraries, publicKey: seq<Byte>, message: seq<Byte>, signature: seq<Byte>) {
    && lib.cbor(publicKey).Some? && lib.cbor(publicKey).value.Map?
    && var key := lib.cbor(publicKey).value.entries;
    && HasCoordinate(key, -2) && HasCoordinate(key, -3)
    && var point := [0x04] + key[Integer(-2)].b + key[Integer(-3)].b;
    lib.isPoint(point) && lib.isDer(signature) && lib.p256(point, message, signature)
  }

  /** `signature` is a signature on exactly `message` under the Ed25519 key that `publicKey` encodes. */
  predicate VerifiesEd25519(lib: Libraries, publicKey: seq<Byte>, message: seq<Byte>, signature: seq<Byte>) {
    && lib.cbor(publicKey).Some? && lib.cbor(publicKey).value.Map?
    && var key := lib.cbor(publicKey).value.entries;
    && HasCoordinate(key, -2) && |signature| == 64
    && var x := key[Integer(-2)].b;
    lib.isEd25519Key(x) && lib.ed25519(x, message, signature)
  }

  /** The COSE key names this key type, its entry 1, and this algorithm, its entry 3. */
  predicate Names(lib: Libraries, publicKey: seq<Byte>, kty: int, alg: int) {
    && lib.cbor(publicKey).Some? && lib.cbor(publicKey).value.Map?
    && var key := lib.cbor(publicKey).value.entries;
    Holds(key, Integer(1), Integer(kty)) && Holds(key, Integer(3), Integer(alg))
  }

  /** `signature` verifies under an elliptic-curve key naming ES256 or an octet key pair naming EdDSA. */
  predicate Verifies(lib: Libraries, publicKey: seq<Byte>, message: seq<Byte>, signature: seq<Byte>) {
    || (Names(lib, publicKey, 2, -7) && VerifiesP256(lib, publicKey, message, signature))
    || (Names(lib, publicKey, 1, -8) && VerifiesEd25519(lib, publicKey, message, signature))
  }

  lemma P256AcceptsExactly(lib: Libraries, publicKey: seq<Byte>, message: seq<Byte>, signature: seq<Byte>)
    requires lib.cbor(publicKey).Some?
    ensures CheckP256(lib, lib.cbor(publicKey).value, message, signature) == Ok(true)
       <==> VerifiesP256(lib, publicKey, message, signature)
  {}

  /** An assertion's signature is accepted exactly when the stored key is a P-256 key naming ES256 or an
      Ed25519 key naming EdDSA and the signature verifies under it. */
  lemma AssertionAcceptsExactly(lib: Libraries, signature: seq<Byte>, message: seq<Byte>, publicKey: seq<Byte>)
    ensures CheckAssertion(lib, signature, message, publicKey) == Ok(true) <==>
            Verifies(lib, publicKey, message, signature)
  {
    hide CheckP256, VerifiesP256;
    if lib.cbor(publicKey).Some? {
      P256AcceptsExactly(lib, publicKey, message, signature);
    }
  }

  /** The statement's own signature, its entry "sig", where it has one and no certificate chain. */
  function OwnSignature(statement: Cbor): Option<seq<Byte>> {
    if statement.Map? && Text("x5c") !in statement.entries
       && Text("sig") in statement.entries && statement.entries[Text("sig")].Bytes?
    then Some(statement.entries[Text("sig")].b)
    else None
  }

  /** The packed statement names ES256. */
  predicate NamesEs256(statement: Cbor) {
    statement.Map? && Holds(statement.entries, Text("alg"), Integer(-7))
  }

  /** `signature` verifies, under the P-256 point that `publicKey` encodes, on the message of section 8.6 for
      these fields and that same point. */
  predicate VerifiesU2f(lib: Libraries, fields: U2fFields, clientDataHash: Digest, publicKey: seq<Byte>,
                        signature: seq<Byte>)
  {
    && lib.cbor(publicKey).Some? && lib.cbor(publicKey).value.Map?
    && var key := lib.cbor(publicKey).value.entries;
    && HasCoordinate(key, -2) && HasCoordinate(key, -3)
    && var point := [0x04] + key[Integer(-2)].b + key[Integer(-3)].b;
    var message := [0x00] + fields.rpIdHash + clientDataHash + fields.credentialId + point;
    VerifiesP256(lib, publicKey, message, signature)
  }

  /** The attestation vouches for the key: by format "none", which signs nothing, or by its own signature. */
  predicate Vouches(lib: Libraries, a: Attestation, fields: U2fFields, clientDataHash: Digest, publicKey: seq<Byte>) {
    || a.format == "none"
    || (a.format == "packed" && OwnSignature(a.statement).Some? && NamesEs256(a.statement)
        && VerifiesP256(lib, publicKey, a.authData + clientDataHash, OwnSignature(a.statement).value))
    || (a.format == "fido-u2f" && OwnSignature(a.statement).Some?
        && VerifiesU2f(lib, fields, clientDataHash, publicKey, OwnSignature(a.statement).value))
  }

  /** A packed attestation is accepted exactly when it names ES256 and its own signature verifies, under the
      attested key, on the authenticator data followed by the client data hash. */
  lemma PackedAcceptsExactly(lib: Libraries, a: Attestation, clientDataHash: Digest, publicKey: seq<Byte>)
    requires a.format == "packed"
    ensures CheckAttestation(lib, a, clientDataHash, publicKey) == Ok(true) <==>
            && OwnSignature(a.statement).Some? && NamesEs256(a.statement)
            && VerifiesP256(lib, publicKey, a.authData + clientDataHash, OwnSignature(a.statement).value)
  {
    hide CheckP256, VerifiesP256;
    var sig := OwnSignature(a.statement);
    if lib.cbor(publicKey).Some? && sig.Some? {
      P256AcceptsExactly(lib, publicKey, a.authData + clientDataHash, sig.value);
    }
    NeedsAKey(lib, publicKey);
  }

  lemma NeedsAKey(lib: Libraries, publicKey: seq<Byte>)
    ensures forall m, s :: VerifiesP256(lib, publicKey, m, s) ==>
                             lib.cbor(publicKey).Some? && Coordinates(lib.cbor(publicKey).value).Ok?
  {}

  /** A U2F attestation is accepted exactly when its own signature verifies, under the attested key, on the
      message of section 8.6. */
  lemma U2fAcceptsExactly(lib: Libraries, a: Attestation, clientDataHash: Digest, publicKey: seq<Byte>)
    requires a.format == "fido-u2f"
    ensures CheckAttestation(lib, a, clientDataHash, publicKey) == Ok(true) <==>
            && OwnSignature(a.statement).Some? && ReadU2fFields(a.authData).Ok?
            && VerifiesU2f(lib, ReadU2fFields(a.authData).value, clientDataHash, publicKey,
                           OwnSignature(a.statement).value)
  {
    hide CheckP256, VerifiesP256, ReadU2fFields;
    var sig, fields := OwnSignature(a.statement), ReadU2fFields(a.authData);
    NeedsAKey(lib, publicKey);
    if sig.Some? && fields.Ok? && lib.cbor(publicKey).Some? && Coordinates(lib.cbor(publicKey).value).Ok? {
      var p := Coordinates(lib.cbor(publicKey).value).value;
      var message := U2fMessage(fields.value.rpIdHash, clientDataHash, fields.value.credentialId,
                                UncompressedPoint(p.x, p.y));
      P256AcceptsExactly(lib, publicKey, message, sig.value);
    }
  }

  /** On the registration path the U2F verifier never fails on a length, and it accepts exactly when the
      statement's own signature verifies on the message of section 8.6 for the very fields, and under the
      very key, that the parser produced. */
  lemma U2fOnTheRegistrationPath(lib: Libraries, a: Attestation, clientDataHash: Digest)
    requires Parse(a.authData).Ok? && HasFlag(Parse(a.authData).value.flags, AT) && a.format == "fido-u2f"
    ensures Parse(a.authData).value.attested.Some?
    ensures var d := Parse(a.authData).value;
            var attested := d.attested.value;
            var verdict := CheckAttestation(lib, a, clientDataHash, attested.credentialPublicKey);
            && (verdict.Err? ==> !verdict.error.U2fLength?)
            && (verdict == Ok(true) <==>
                && OwnSignature(a.statement).Some?
                && VerifiesU2f(lib, U2fFields(d.rpIdHash, attested.credentialId), clientDataHash,
                               attested.credentialPublicKey, OwnSignature(a.statement).value))
  {
    hide CheckP256, HasFlag, ReadU2fFields, U2fMessage, VerifiesU2f, OwnSignature, Parse;
    ParsedFlags(a.authData);
    U2fReadingAgreesWithParser(a.authData);
    var publicKey := Parse(a.authData).value.attested.value.credentialPublicKey;
    U2fAcceptsExactly(lib, a, clientDataHash, publicKey);
    if lib.cbor(publicKey).Some? {
      P256NeverReportsLengths(lib, publicKey);
    }
  }

  lemma ParsedFlags(b: seq<Byte>)
    requires Parse(b).Ok?
    ensures |b| >= 37 && b[32] == Parse(b).value.flags
  {
    hide HasFlag;
  }

  lemma P256NeverReportsLengths(lib: Libraries, publicKey: seq<Byte>)
    requires lib.cbor(publicKey).Some?
    ensures forall m, s :: var r := CheckP256(lib, lib.cbor(publicKey).value, m, s); r.Err? ==> !r.error.U2fLength?
    ensures var r := Coordinates(lib.cbor(publicKey).value); r.Err? ==> !r.error.U2fLength?
  {}

  /** authData || clientDataHash determines both parts. */
  lemma SignedDataDeterminesItsParts(a: seq<Byte>, h: Digest, a': seq<Byte>, h': Digest)
    ensures a + h == a' + h' <==> a == a' && h == h'
  {
    if a + h == a' + h' {
      assert |a| == |a'|;
      assert (a + h)[..|a|] == a && (a' + h')[..|a'|] == a';
      assert (a + h)[|a|..] == h && (a' + h')[|a'|..] == h';
    }
  }

  /** Exactly three formats can be accepted: "none", which nothing is signed for, and the other two under the
      conditions above. */
  lemma AcceptedFormats(lib: Libraries, a: Attestation, clientDataHash: Digest, publicKey: seq<Byte>)
    ensures CheckAttestation(lib, a, clientDataHash, publicKey) == Ok(true) <==>
            || (a.format != "fido-u2f" && Vouches(lib, a, U2fFields([], []), clientDataHash, publicKey))
            || (a.format == "fido-u2f" && ReadU2fFields(a.authData).Ok?
                && Vouches(lib, a, ReadU2fFields(a.authData).value, clientDataHash, publicKey))
  {
    hide CheckPacked, CheckU2f, VerifiesP256, VerifiesU2f, OwnSignature, ReadU2fFields, NamesEs256;
    if a.format == "packed" {
      PackedAcceptsExactly(lib, a, clientDataHash, publicKey);
    } else if a.format == "fido-u2f" {
      U2fAcceptsExactly(lib, a, clientDataHash, publicKey);
    }
  }

  /** On the registration path an attestation is accepted exactly when it vouches for the parsed key, with the
      parsed relying party and credential id in the message of section 8.6. */
  lemma AcceptedOnTheRegistrationPath(lib: Libraries, a: Attestation, clientDataHash: Digest)
    requires Parse(a.authData).Ok? && HasFlag(Parse(a.authData).value.flags, AT)
    ensures Parse(a.authData).value.attested.Some?
    ensures var d := Parse(a.authData).value;
            var attested := d.attested.value;
            CheckAttestation(lib, a, clientDataHash, attested.credentialPublicKey) == Ok(true) <==>
            Vouches(lib, a, U2fFields(d.rpIdHash, attested.credentialId), clientDataHash, attested.credentialPublicKey)
  {
    hide CheckAttestation, HasFlag, ReadU2fFields, VerifiesU2f, VerifiesP256, OwnSignature, NamesEs256, Parse;
    ParsedFlags(a.authData);
    U2fReadingAgreesWithParser(a.authData);
    AcceptedFormats(lib, a, clientDataHash, Parse(a.authData).value.attested.value.credentialPublicKey);
  }

  // ---------- which error a refusal reports ----------

  predicate HasOctets(entries: map<Cbor, Cbor>, key: Cbor) {
    key in entries && entries[key].Bytes?
  }

  predicate HasInteger(entries: map<Cbor, Cbor>, key: Cbor) {
    key in entries && entries[key].Integer?
  }

  lemma CoordinateErrors(key: Cbor)
    ensures Coordinates(key) == Err(BadCoseKey) <==> !key.Map?
    ensures Coordinates(key) == Err(MissingCoordinate) <==>
            key.Map? && !(HasOctets(key.entries, Integer(-2)) && HasOctets(key.entries, Integer(-3)))
    ensures Coordinates(key) == Err(BadCoordinateLength) <==>
            && key.Map? && HasOctets(key.entries, Integer(-2)) && HasOctets(key.entries, Integer(-3))
            && !(|key.entries[Integer(-2)].b| == 32 && |key.entries[Integer(-3)].b| == 32)
  {}

  /** An ES256 check reports a bad key before a bad point, and that before a signature that is not DER. */
  lemma P256Errors(lib: Libraries, key: Cbor, message: seq<Byte>, signature: seq<Byte>)
    ensures var r := CheckP256(lib, key, message, signature);
            match Coordinates(key)
            case Err(e) => r == Err(e)
            case Ok(p) =>
              var isPoint := lib.isPoint([0x04] + p.x + p.y);
              && (r == Err(BadPoint) <==> !isPoint)
              && (r == Err(BadSignatureFormat) <==> isPoint && !lib.isDer(signature))
              && (r.Ok? <==> isPoint && lib.isDer(signature))
  {}

  lemma Ed25519Errors(lib: Libraries, key: map<Cbor, Cbor>, message: seq<Byte>, signature: seq<Byte>)
    ensures var r := CheckEd25519(lib, key, message, signature);
            && (r == Err(MissingCoordinate) <==> !HasOctets(key, Integer(-2)))
            && (HasOctets(key, Integer(-2)) ==>
                  var x := key[Integer(-2)].b;
                  && (r == Err(BadCoordinateLength) <==> |x| != 32)
                  && (r == Err(BadSignatureFormat) <==> |x| == 32 && |signature| != 64)
                  && (r == Err(BadPoint) <==> |x| == 32 && |signature| == 64 && !lib.isEd25519Key(x))
                  && (r.Ok? <==> |x| == 32 && |signature| == 64 && lib.isEd25519Key(x)))
  {}

  /** A packed statement's errors, in the order of the checks. */
  lemma PackedErrors(lib: Libraries, statement: Cbor, authData: seq<Byte>, clientDataHash: Digest, publicKey: seq<Byte>)
    ensures var r := CheckPacked(lib, statement, authData, clientDataHash, publicKey);
            if !statement.Map? then r == Err(NotAMap)
            else
              var entries := statement.entries;
              if !HasOctets(entries, Text("sig")) then r == Err(MissingSignature)
              else if !HasInteger(entries, Text("alg")) then r == Err(MissingAlgorithm)
              else if entries[Text("alg")] != Integer(-7) then r == Err(UnsupportedAlgorithm)
              else if Text("x5c") in entries then r == Err(CertificateChain)
              else if lib.cbor(publicKey).None? then r == Err(BadCoseKey)
              else
                var message := authData + clientDataHash;
                r == CheckP256(lib, lib.cbor(publicKey).value, message, entries[Text("sig")].b)
  {
    hide CheckP256;
  }

  /** A U2F statement's errors: the certificate chain is looked at after the lengths and the key. */
  lemma U2fErrors(lib: Libraries, statement: Cbor, authData: seq<Byte>, clientDataHash: Digest, publicKey: seq<Byte>)
    ensures var r := CheckU2f(lib, statement, authData, clientDataHash, publicKey);
            if !statement.Map? then r == Err(NotAMap)
            else if !HasOctets(statement.entries, Text("sig")) then r == Err(MissingSignature)
            else if ReadU2fFields(authData).Err? then r == Err(U2fLength(ReadU2fFields(authData).error))
            else if lib.cbor(publicKey).None? then r == Err(BadCoseKey)
            else if Coordinates(lib.cbor(publicKey).value).Err? then
              r == Err(Coordinates(lib.cbor(publicKey).value).error)
            else if Text("x5c") in statement.entries then r == Err(CertificateChain)
            else r.Err? ==> r.error.BadPoint? || r.error.BadSignatureFormat?
  {
    hide ReadU2fFields;
  }

  lemma FormatErrors(lib: Libraries, a: Attestation, clientDataHash: Digest, publicKey: seq<Byte>)
    ensures CheckAttestation(lib, a, clientDataHash, publicKey) == Err(UnsupportedFormat) <==>
            a.format != "none" && a.format != "packed" && a.format != "fido-u2f"
  {
    hide ReadU2fFields;
  }

  /** An assertion's errors, in the order of the checks. */
  lemma AssertionErrors(lib: Libraries, signature: seq<Byte>, message: seq<Byte>, publicKey: seq<Byte>)
    ensures var r, key := CheckAssertion(lib, signature, message, publicKey), lib.cbor(publicKey);
            if key.None? || !key.value.Map? then r == Err(BadCoseKey)
            else
              var entries := key.value.entries;
              if !HasInteger(entries, Integer(1)) then r == Err(MissingKeyType)
              else if !HasInteger(entries, Integer(3)) then r == Err(MissingAlgorithm)
              else if entries[Integer(1)] == Integer(2) && entries[Integer(3)] == Integer(-7) then
                r == CheckP256(lib, key.value, message, signature)
              else if entries[Integer(1)] == Integer(1) && entries[Integer(3)] == Integer(-8) then
                r == CheckEd25519(lib, entries, message, signature)
              else r == Err(UnsupportedAlgorithm)
  {
    hide CheckP256, CheckEd25519;
  }
}
