/** Authenticator data of sections 6.1 and 6.5.1 of Web Authentication Level 2: the contract's parser,
    the layout it inverts, and the fixed-offset reading of the same bytes by the U2F verifier. */
module AuthData {
  import Bits
  import opened Common
  import IntCodec

  datatype AttestedCredentialData =
    AttestedCredentialData(aaguid: seq<Byte>, credentialId: seq<Byte>, credentialPublicKey: seq<Byte>)

  datatype AuthenticatorData =
    AuthenticatorData(rpIdHash: seq<Byte>, flags: Byte, counter: nat, attested: Option<AttestedCredentialData>)

  datatype ParseError = TooShort | TooShortForAttestedData | TooShortForCredentialId

  const UP := 0x01
  const UV := 0x04
  const BS := 0x10
  const BE := 0x20
  const AT := 0x40

  predicate HasFlag(flags: nat, bit: nat) {
    Bits.And(flags, bit) != 0
  }

  /** The flags as binary digits of the octet: UP is digit 0, UV 2, BE 5 (backup eligible), BS 4 (backed up) and
      AT 6. */
  lemma FlagsAreDigits(flags: Byte)
    ensures HasFlag(flags, UP) <==> flags % 2 == 1
    ensures HasFlag(flags, UV) <==> flags / 4 % 2 == 1
    ensures HasFlag(flags, BS) <==> flags / 16 % 2 == 1
    ensures HasFlag(flags, BE) <==> flags / 32 % 2 == 1
    ensures HasFlag(flags, AT) <==> flags / 64 % 2 == 1
  {
    hide Bits.And;
    Bits.SingleDigits(flags);
  }

  // ---------- big-endian integers ----------

  function Number(s: seq<Byte>): nat {
    IntCodec.UnsignedRange(IntCodec.Reverse(s));
    IntCodec.Unsigned(IntCodec.Reverse(s))
  }

  function BigEndian(n: nat, width: nat): (s: seq<Byte>)
    ensures |s| == width
  {
    IntCodec.Reverse(IntCodec.Octets(n, width))
  }

  /** The octet behind the others counts least. */
  lemma NumberIsBigEndian(s: seq<Byte>, b: Byte)
    ensures Number([]) == 0 && Number(s + [b]) == 256 * Number(s) + b
  {
    IntCodec.ReverseGrow(s, b);
    assert ([b] + IntCodec.Reverse(s))[1..] == IntCodec.Reverse(s);
  }

  lemma NumberInvertsBigEndian(n: nat, width: nat)
    requires n < IntCodec.Pow256(width)
    ensures Number(BigEndian(n, width)) == n
  {
    var octets := IntCodec.Octets(n, width);
    IntCodec.ReverseTwice(octets);
    IntCodec.Positional(n, width);
    IntCodec.UnsignedRange(octets);
    IntCodec.QuotientIsUnique(n, IntCodec.Pow256(width), IntCodec.High(n, width), IntCodec.Unsigned(octets));
    IntCodec.QuotientIsUnique(n, IntCodec.Pow256(width), 0, n);
  }

  lemma BigEndianInvertsNumber(s: seq<Byte>)
    ensures Number(s) < IntCodec.Pow256(|s|) && BigEndian(Number(s), |s|) == s
  {
    IntCodec.UnsignedRange(IntCodec.Reverse(s));
    IntCodec.OctetsOfUnsigned(IntCodec.Reverse(s));
    IntCodec.ReverseTwice(s);
  }

  lemma Widths()
    ensures IntCodec.Pow256(2) == 0x10000 && IntCodec.Pow256(4) == 0x1_0000_0000
  {
    assert IntCodec.Pow256(3) == 0x1000000;
  }

  // ---------- the layout ----------

  predicate WellFormed(d: AuthenticatorData) {
    && |d.rpIdHash| == 32
    && d.counter < 0x1_0000_0000
    && (d.attested.Some? <==> HasFlag(d.flags, AT))
    && (d.attested.Some? ==> |d.attested.value.aaguid| == 16 && |d.attested.value.credentialId| < 0x10000)
  }

  function SerializeAttested(a: AttestedCredentialData): seq<Byte>
    requires |a.credentialId| < 0x10000
  {
    a.aaguid + BigEndian(|a.credentialId|, 2) + a.credentialId + a.credentialPublicKey
  }

  function Serialize(d: AuthenticatorData): seq<Byte>
    requires WellFormed(d)
  {
    d.rpIdHash + [d.flags] + BigEndian(d.counter, 4) +
    (if d.attested.Some? then SerializeAttested(d.attested.value) else [])
  }

  // ---------- the parser ----------

  function ParseAttested(b: seq<Byte>): Result<AttestedCredentialData, ParseError>
    requires |b| >= 37
  {
    if |b| < 55 then Err(TooShortForAttestedData)
    else
      var end := 55 + Number(b[53..55]);
      if |b| < end then Err(TooShortForCredentialId)
      else Ok(AttestedCredentialData(b[37..53], b[55..end], b[end..]))
  }

  function Parse(b: seq<Byte>): Result<AuthenticatorData, ParseError> {
    if |b| < 37 then Err(TooShort)
    else
      var counter := Number(b[33..37]);
      if !HasFlag(b[32], AT) then Ok(AuthenticatorData(b[..32], b[32], counter, None))
      else match ParseAttested(b)
           case Ok(a) => Ok(AuthenticatorData(b[..32], b[32], counter, Some(a)))
           case Err(e) => Err(e)
  }

  /** The parser with its running offset: every index it uses is in range. */
  method ParseAuthenticatorData(b: seq<Byte>) returns (r: Result<AuthenticatorData, ParseError>)
    ensures r == Parse(b)
  {
    hide HasFlag;
    if |b| < 37 { return Err(TooShort); }
    var rpIdHash := b[0..32];
    var flags := b[32];
    var counter := Number(b[33..37]);
    var offset := 37;
    var attested := None;
    if HasFlag(flags, AT) {
      if |b| < offset + 18 { return Err(TooShortForAttestedData); }
      var aaguid := b[offset..offset + 16];
      offset := offset + 16;
      var credentialIdLength := Number(b[offset..offset + 2]);
      offset := offset + 2;
      if |b| < offset + credentialIdLength { return Err(TooShortForCredentialId); }
      var credentialId := b[offset..offset + credentialIdLength];
      offset := offset + credentialIdLength;
      attested := Some(AttestedCredentialData(aaguid, credentialId, b[offset..]));
    }
    r := Ok(AuthenticatorData(rpIdHash, flags, counter, attested));
  }

  // ---------- the parser inverts the layout ----------

  /** The bytes a record accounts for: all of them when credential data is attached, else the first 37. */
  function Consumed(b: seq<Byte>): seq<Byte>
    requires |b| >= 37
  {
    if HasFlag(b[32], AT) then b else b[..37]
  }

  lemma SerializedHeader(d: AuthenticatorData)
    requires WellFormed(d)
    ensures var b := Serialize(d);
            && |b| >= 37 && b[..32] == d.rpIdHash && b[32] == d.flags && b[33..37] == BigEndian(d.counter, 4)
            && b[37..] == if d.attested.Some? then SerializeAttested(d.attested.value) else []
  {
    hide HasFlag, BigEndian, SerializeAttested;
  }

  lemma SerializedAttested(a: AttestedCredentialData)
    requires |a.aaguid| == 16 && |a.credentialId| < 0x10000
    ensures var s, n := SerializeAttested(a), |a.credentialId|;
            && |s| >= 18 + n && s[..16] == a.aaguid && s[16..18] == BigEndian(n, 2)
            && s[18..18 + n] == a.credentialId && s[18 + n..] == a.credentialPublicKey
  {
    hide BigEndian;
  }

  lemma SliceOfRest(b: seq<Byte>, from: nat, lo: nat, hi: nat)
    requires from <= |b| && lo <= hi && from + hi <= |b|
    ensures b[from..][lo..hi] == b[from + lo..from + hi]
  {}

  lemma AttestedReads(b: seq<Byte>, a: AttestedCredentialData)
    requires |b| >= 37 && |a.aaguid| == 16 && |a.credentialId| < 0x10000
    requires b[37..] == SerializeAttested(a)
    ensures ParseAttested(b) == Ok(a)
  {
    hide SerializeAttested, Number, BigEndian;
    var s, n := b[37..], |a.credentialId|;
    SerializedAttested(a);
    Widths();
    NumberInvertsBigEndian(n, 2);
    SliceOfRest(b, 37, 0, 16);
    SliceOfRest(b, 37, 16, 18);
    SliceOfRest(b, 37, 18, 18 + n);
    assert b[37..][18 + n..] == b[55 + n..];
  }

  lemma ParseInvertsSerialize(d: AuthenticatorData)
    requires WellFormed(d)
    ensures Parse(Serialize(d)) == Ok(d)
  {
    hide HasFlag, Serialize, SerializeAttested, ParseAttested, Number, BigEndian;
    SerializedHeader(d);
    Widths();
    NumberInvertsBigEndian(d.counter, 4);
    if d.attested.Some? {
      AttestedReads(Serialize(d), d.attested.value);
    }
  }

  lemma SerializeInvertsParse(b: seq<Byte>)
    requires Parse(b).Ok?
    ensures WellFormed(Parse(b).value) && Serialize(Parse(b).value) == Consumed(b)
  {
    hide HasFlag, Number, BigEndian;
    Widths();
    BigEndianInvertsNumber(b[33..37]);
    assert b[..37] == b[..32] + [b[32]] + b[33..37];
    if HasFlag(b[32], AT) {
      BigEndianInvertsNumber(b[53..55]);
      var n := Number(b[53..55]);
      assert b[37..] == b[37..53] + b[53..55] + b[55..55 + n] + b[55 + n..];
      assert b == b[..37] + b[37..];
    }
  }

  /** The parser accepts exactly the layout: it returns a record precisely when the record is well formed
      and its serialization is what the bytes hold, up to the first 37 bytes when the AT flag is clear. */
  lemma ParseExactlyInvertsLayout(b: seq<Byte>, d: AuthenticatorData)
    ensures Parse(b) == Ok(d) <==> |b| >= 37 && WellFormed(d) && Serialize(d) == Consumed(b)
  {
    hide HasFlag, Serialize, ParseAttested;
    if Parse(b) == Ok(d) {
      SerializeInvertsParse(b);
    }
    if |b| >= 37 && WellFormed(d) && Serialize(d) == Consumed(b) {
      ParseInvertsSerialize(d);
      TrailingBytesIgnored(b);
    }
  }

  /** Without attested data nothing after the counter matters. */
  lemma TrailingBytesIgnored(b: seq<Byte>)
    requires |b| >= 37
    ensures Parse(b) == Parse(Consumed(b))
  {
    hide HasFlag, ParseAttested;
    assert b[..37][..32] == b[..32] && b[..37][33..37] == b[33..37];
  }

  /** Rejection depends on lengths alone, and the error on where the input ends. */
  lemma RejectedExactlyWhenTooShort(b: seq<Byte>)
    ensures Parse(b) == Err(TooShort) <==> |b| < 37
    ensures Parse(b) == Err(TooShortForAttestedData) <==> 37 <= |b| < 55 && HasFlag(b[32], AT)
    ensures Parse(b) == Err(TooShortForCredentialId) <==>
            55 <= |b| < 55 + (if |b| < 55 then 0 else Number(b[53..55])) && HasFlag(b[32], AT)
  {
    hide HasFlag, Number;
  }

  /** Where the part of a record ends that its own lengths determine: behind the credential id, or behind the
      counter when nothing is attested. */
  function FixedEnd(d: AuthenticatorData): nat {
    if d.attested.Some? then 55 + |d.attested.value.credentialId| else 37
  }

  /** Cutting accepted bytes short is noticed exactly when the cut falls before that end; after it, only the
      public key gets shorter, which the parser does not see. */
  lemma TruncationNoticedExactlyBeforeTheKey(b: seq<Byte>, k: nat)
    requires Parse(b).Ok? && k <= |b|
    ensures FixedEnd(Parse(b).value) <= |b|
    ensures var d := Parse(b).value;
            && (Parse(b[..k]).Ok? <==> k >= FixedEnd(d))
            && (k >= FixedEnd(d) ==>
                  Parse(b[..k]) == Ok(if d.attested.None? then d
                                      else d.(attested := Some(d.attested.value.(
                                                               credentialPublicKey := b[FixedEnd(d)..k])))))
  {
    hide HasFlag, Number;
    RejectedExactlyWhenTooShort(b);
    RejectedExactlyWhenTooShort(b[..k]);
    if k >= 37 {
      SliceOfStart(b, k, 0, 32);
      SliceOfStart(b, k, 33, 37);
    }
    if k >= 55 {
      SliceOfStart(b, k, 53, 55);
      SliceOfStart(b, k, 37, 53);
      var end := 55 + Number(b[53..55]);
      if k >= end {
        SliceOfStart(b, k, 55, end);
        SliceOfStart(b, k, end, k);
      }
    }
  }

  lemma SliceOfStart(b: seq<Byte>, k: nat, lo: nat, hi: nat)
    requires lo <= hi <= k <= |b|
    ensures b[..k][lo..hi] == b[lo..hi]
    ensures lo == 0 ==> b[..k][..hi] == b[..hi]
    ensures hi == k ==> b[..k][lo..] == b[lo..k]
  {}

  // ---------- the U2F verifier's own reading ----------

  datatype U2fFields = U2fFields(rpIdHash: seq<Byte>, credentialId: seq<Byte>)

  datatype U2fLengthError = TooShortForU2f | TooShortForCredential | TooShortForId

  function ReadU2fFields(b: seq<Byte>): Result<U2fFields, U2fLengthError> {
    if |b| < 37 then Err(TooShortForU2f)
    else if |b| < 55 then Err(TooShortForCredential)
    else
      var n := Number(b[53..55]);
      if |b| < 55 + n then Err(TooShortForId)
      else Ok(U2fFields(b[..32], b[55..55 + n]))
  }

  /** Its three errors, by where the input ends. */
  lemma U2fReadingErrs(b: seq<Byte>)
    ensures ReadU2fFields(b) == Err(TooShortForU2f) <==> |b| < 37
    ensures ReadU2fFields(b) == Err(TooShortForCredential) <==> 37 <= |b| < 55
    ensures ReadU2fFields(b) == Err(TooShortForId) <==> 55 <= |b| < 55 + if |b| < 55 then 0 else Number(b[53..55])
  {
    hide Number;
  }

  /** Where the registration path calls it, on bytes the parser accepted with the AT flag, the U2F
      reading cannot fail and yields the parser's own fields. */
  lemma U2fReadingAgreesWithParser(b: seq<Byte>)
    requires Parse(b).Ok? && HasFlag(b[32], AT)
    ensures var d := Parse(b).value;
            d.attested.Some? && ReadU2fFields(b) == Ok(U2fFields(d.rpIdHash, d.attested.value.credentialId))
  {
    hide HasFlag, Number;
  }

  /** 0x04 || x || y. */
  function UncompressedPoint(x: seq<Byte>, y: seq<Byte>): seq<Byte> {
    [0x04] + x + y
  }

  /** Section 8.6: 0x00 || rpIdHash || clientDataHash || credentialId || publicKeyU2F. */
  function U2fMessage(rpIdHash: seq<Byte>, clientDataHash: seq<Byte>, credentialId: seq<Byte>, publicKey: seq<Byte>)
    : seq<Byte>
  {
    [0x00] + rpIdHash + clientDataHash + credentialId + publicKey
  }

  method BuildU2fMessage(fields: U2fFields, clientDataHash: seq<Byte>, publicKey: seq<Byte>)
    returns (u2fSignatureData: seq<Byte>)
    ensures u2fSignatureData == U2fMessage(fields.rpIdHash, clientDataHash, fields.credentialId, publicKey)
  {
    u2fSignatureData := [];
    u2fSignatureData := u2fSignatureData + [0x00];
    u2fSignatureData := u2fSignatureData + fields.rpIdHash;
    u2fSignatureData := u2fSignatureData + clientDataHash;
    u2fSignatureData := u2fSignatureData + fields.credentialId;
    u2fSignatureData := u2fSignatureData + publicKey;
  }

  lemma MessageParts(rp: seq<Byte>, client: seq<Byte>, id: seq<Byte>, x: seq<Byte>, y: seq<Byte>)
    requires |rp| == 32 && |client| == 32 && |x| == 32 && |y| == 32
    ensures var m := U2fMessage(rp, client, id, UncompressedPoint(x, y));
            var n := |m|;
            && n == 130 + |id| && m[0] == 0x00 && m[1..33] == rp && m[33..65] == client && m[65..n - 65] == id
            && m[n - 65] == 0x04 && m[n - 64..n - 32] == x && m[n - 32..] == y
  {}

  /** The signed message determines every part: the variable-length id has fixed-length neighbours. */
  lemma U2fMessageDeterminesItsParts(
    rp: seq<Byte>, client: seq<Byte>, id: seq<Byte>, x: seq<Byte>, y: seq<Byte>,
    rp': seq<Byte>, client': seq<Byte>, id': seq<Byte>, x': seq<Byte>, y': seq<Byte>)
    requires |rp| == 32 && |client| == 32 && |x| == 32 && |y| == 32
    requires |rp'| == 32 && |client'| == 32 && |x'| == 32 && |y'| == 32
    ensures U2fMessage(rp, client, id, UncompressedPoint(x, y)) ==
            U2fMessage(rp', client', id', UncompressedPoint(x', y'))
       <==> rp == rp' && client == client' && id == id' && x == x' && y == y'
  {
    hide U2fMessage;
    MessageParts(rp, client, id, x, y);
    MessageParts(rp', client', id', x', y');
  }
}
