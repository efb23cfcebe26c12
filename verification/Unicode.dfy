/** Unicode text as this repository handles it: UTF-16 code units in, UTF-8
    octets out, and back. These are the definitions of RFC 3629 and RFC 2781
    that the codecs are held against; no code of the repository is modelled here. */
module Unicode {
  import opened Common

  type Unit = u: int | 0 <= u < 0x10000

  predicate IsLead(u: int) { 0xD800 <= u <= 0xDBFF }

  predicate IsTrail(u: int) { 0xDC00 <= u <= 0xDFFF }

  predicate IsSurrogate(u: int) { IsLead(u) || IsTrail(u) }

  type Scalar = c: int | 0 <= c < 0x110000 && !IsSurrogate(c)

  const REPLACEMENT: Scalar := 0xFFFD

  // ---------- UTF-8, RFC 3629 ----------

  /** Section 3: the octets of one character. */
  function Encode(c: Scalar): (g: seq<Byte>)
    ensures 1 <= |g| <= 4
  {
    if c < 0x80 then [c]
    else if c < 0x800 then [0xC0 + c / 64, 0x80 + c % 64]
    else if c < 0x10000 then [0xE0 + c / 4096, 0x80 + c / 64 % 64, 0x80 + c % 64]
    else [0xF0 + c / 0x40000, 0x80 + c / 4096 % 64, 0x80 + c / 64 % 64, 0x80 + c % 64]
  }

  function EncodeAll(cs: seq<Scalar>): seq<Byte> {
    Concat(Encode, cs)
  }

  predicate Tail(b: Byte) { 0x80 <= b <= 0xBF }

  /** Section 4: the productions UTF8-1 to UTF8-4. */
  predicate IsCharacter(g: seq<Byte>) {
    match |g|
    case 1 => g[0] <= 0x7F
    case 2 => 0xC2 <= g[0] <= 0xDF && Tail(g[1])
    case 3 =>
      && Tail(g[2])
      && ((g[0] == 0xE0 && 0xA0 <= g[1] <= 0xBF)
          || (0xE1 <= g[0] <= 0xEC && Tail(g[1]))
          || (g[0] == 0xED && 0x80 <= g[1] <= 0x9F)
          || (0xEE <= g[0] <= 0xEF && Tail(g[1])))
    case 4 =>
      && Tail(g[2]) && Tail(g[3])
      && ((g[0] == 0xF0 && 0x90 <= g[1] <= 0xBF)
          || (0xF1 <= g[0] <= 0xF3 && Tail(g[1]))
          || (g[0] == 0xF4 && 0x80 <= g[1] <= 0x8F))
    case _ => false
  }

  /** The only length a character starting with this octet can have. */
  function LengthFrom(first: Byte): (n: nat) {
    if first <= 0x7F then 1 else if first <= 0xDF then 2 else if first <= 0xEF then 3 else 4
  }

  /** A tail octet contributes one base-64 digit. */
  function Push(c: nat, b: Byte): nat
    requires Tail(b)
  {
    c * 64 + (b - 0x80)
  }

  lemma ThreeDigits(c: int, x: int, y: int, z: int)
    requires c == (x * 64 + y) * 64 + z && 0 <= y < 64 && 0 <= z < 64
    ensures c / 4096 == x && c / 64 % 64 == y && c % 64 == z
  {
    assert c / 64 == x * 64 + y;
  }

  lemma FourDigits(c: int, w: int, x: int, y: int, z: int)
    requires c == ((w * 64 + x) * 64 + y) * 64 + z && 0 <= x < 64 && 0 <= y < 64 && 0 <= z < 64
    ensures c / 0x40000 == w && c / 4096 % 64 == x && c / 64 % 64 == y && c % 64 == z
  {
    ThreeDigits(c, w * 64 + x, y, z);
    assert c / 0x40000 == c / 4096 / 64;
  }

  function DecodeTwo(a: Byte, b: Byte): (c: Scalar)
    requires 0xC2 <= a <= 0xDF && Tail(b)
    ensures 0x80 <= c < 0x800 && c / 64 == a - 0xC0 && c % 64 == b - 0x80
  {
    Push(a - 0xC0, b)
  }

  function DecodeThree(a: Byte, b: Byte, d: Byte): (c: Scalar)
    requires 0xE0 <= a <= 0xEF && Tail(b) && Tail(d) && (a == 0xE0 ==> b >= 0xA0) && (a == 0xED ==> b <= 0x9F)
    ensures 0x800 <= c < 0x10000
    ensures c / 4096 == a - 0xE0 && c / 64 % 64 == b - 0x80 && c % 64 == d - 0x80
  {
    var c := Push(Push(a - 0xE0, b), d);
    ThreeDigits(c, a - 0xE0, b - 0x80, d - 0x80);
    c
  }

  function DecodeFour(a: Byte, b: Byte, d: Byte, e: Byte): (c: Scalar)
    requires 0xF0 <= a <= 0xF4 && Tail(b) && Tail(d) && Tail(e)
    requires (a == 0xF0 ==> b >= 0x90) && (a == 0xF4 ==> b <= 0x8F)
    ensures 0x10000 <= c
    ensures c / 0x40000 == a - 0xF0 && c / 4096 % 64 == b - 0x80
    ensures c / 64 % 64 == d - 0x80 && c % 64 == e - 0x80
  {
    var c := Push(Push(Push(a - 0xF0, b), d), e);
    FourDigits(c, a - 0xF0, b - 0x80, d - 0x80, e - 0x80);
    c
  }

  function DecodeCharacter(g: seq<Byte>): Scalar
    requires IsCharacter(g)
  {
    if |g| == 1 then g[0]
    else if |g| == 2 then DecodeTwo(g[0], g[1])
    else if |g| == 3 then DecodeThree(g[0], g[1], g[2])
    else DecodeFour(g[0], g[1], g[2], g[3])
  }

  lemma EncodeInvertsDecodeCharacter(g: seq<Byte>)
    requires IsCharacter(g)
    ensures Encode(DecodeCharacter(g)) == g
  {
    hide DecodeTwo, DecodeThree, DecodeFour;
    if |g| == 1 {
      assert g == [g[0]];
    } else if |g| == 2 {
      assert g == [g[0], g[1]];
    } else if |g| == 3 {
      assert g == [g[0], g[1], g[2]];
    } else {
      assert g == [g[0], g[1], g[2], g[3]];
    }
  }

  /** The base-64 digits of a character, and the ranges that keep them in the grammar. */
  lemma Digits(c: int)
    requires 0 <= c < 0x110000
    ensures c == c / 64 * 64 + c % 64
    ensures c / 64 == c / 4096 * 64 + c / 64 % 64
    ensures c / 4096 == c / 0x40000 * 64 + c / 4096 % 64
  {}

  lemma EncodeIsCharacter(c: Scalar)
    ensures IsCharacter(Encode(c)) && |Encode(c)| == LengthFrom(Encode(c)[0])
  {
    Digits(c);
    if 0x800 <= c < 0x10000 {
      assert c / 4096 == 0 ==> c / 64 % 64 >= 32;
      assert !IsSurrogate(c);
      assert c / 4096 == 13 ==> c < 0xD800;
    } else if c >= 0x10000 {
      assert c / 0x40000 == 0 ==> c / 4096 % 64 >= 16;
      assert c / 0x40000 == 4 ==> c / 4096 % 64 < 16;
    }
  }

  lemma EncodeIsInjective(c: Scalar, d: Scalar)
    requires Encode(c) == Encode(d)
    ensures c == d
  {
    Digits(c);
    Digits(d);
    var g := Encode(c);
    if |g| == 2 {
      assert g[0] - 0xC0 == c / 64 == d / 64;
    } else if |g| == 3 {
      assert g[0] - 0xE0 == c / 4096 == d / 4096;
      assert g[1] - 0x80 == c / 64 % 64 == d / 64 % 64;
    } else if |g| == 4 {
      assert g[0] - 0xF0 == c / 0x40000 == d / 0x40000;
      assert g[1] - 0x80 == c / 4096 % 64 == d / 4096 % 64;
      assert g[2] - 0x80 == c / 64 % 64 == d / 64 % 64;
    }
  }

  lemma DecodeCharacterInvertsEncode(c: Scalar)
    ensures IsCharacter(Encode(c)) && DecodeCharacter(Encode(c)) == c
  {
    EncodeIsCharacter(c);
    EncodeInvertsDecodeCharacter(Encode(c));
    EncodeIsInjective(DecodeCharacter(Encode(c)), c);
  }

  /** Whether a character begins at the front of `b`, and how long it is (0 if none does). */
  function Leading(b: seq<Byte>): (n: nat)
    requires b != []
    ensures n <= 4 && n <= |b|
    ensures n > 0 ==> IsCharacter(b[..n])
  {
    var n := LengthFrom(b[0]);
    if n <= |b| && IsCharacter(b[..n]) then n else 0
  }

  lemma LeadingIsTheOnlyPrefix(b: seq<Byte>, n: nat)
    requires 0 < n <= |b| && IsCharacter(b[..n])
    ensures Leading(b) == n
  {
    assert b[..n][0] == b[0];
  }

  /** Characters of an octet string; an octet that starts none counts as one replacement character. */
  function DecodeAll(b: seq<Byte>): seq<Scalar> {
    if b == [] then []
    else
      var n := Leading(b);
      if n > 0 then [DecodeCharacter(b[..n])] + DecodeAll(b[n..])
      else [REPLACEMENT] + DecodeAll(b[1..])
  }

  predicate IsUtf8(b: seq<Byte>) {
    b == [] || (Leading(b) > 0 && IsUtf8(b[Leading(b)..]))
  }

  // ---------- UTF-16, RFC 2781 ----------

  /** Section 2.1: the code units of one character. */
  function Units(c: Scalar): (us: seq<Unit>)
    ensures 1 <= |us| <= 2
  {
    if c < 0x10000 then [c] else [0xD800 + (c - 0x10000) / 1024, 0xDC00 + (c - 0x10000) % 1024]
  }

  function UnitsAll(cs: seq<Scalar>): seq<Unit> {
    Concat(Units, cs)
  }

  function Pair(lead: Unit, trail: Unit): (c: Scalar)
    requires IsLead(lead) && IsTrail(trail)
    ensures c >= 0x10000 && Units(c) == [lead, trail]
  {
    0x10000 + (lead - 0xD800) * 1024 + (trail - 0xDC00)
  }

  predicate StartsPair(s: seq<Unit>) {
    |s| >= 2 && IsLead(s[0]) && IsTrail(s[1])
  }

  /** Section 2.2, with each unpaired surrogate read as the replacement character. */
  function Scalars(s: seq<Unit>): (cs: seq<Scalar>)
    ensures s != [] ==> cs != []
  {
    if s == [] then []
    else if StartsPair(s) then [Pair(s[0], s[1])] + Scalars(s[2..])
    else if IsSurrogate(s[0]) then [REPLACEMENT] + Scalars(s[1..])
    else [s[0]] + Scalars(s[1..])
  }

  /** Every surrogate is half of a pair. */
  predicate IsUtf16(s: seq<Unit>) {
    s == [] || if StartsPair(s) then IsUtf16(s[2..]) else !IsSurrogate(s[0]) && IsUtf16(s[1..])
  }

  // ---------- laws ----------

  /** Section 4 of RFC 3629 admits exactly the encodings of section 3. */
  lemma CharactersAreEncodings(g: seq<Byte>)
    ensures IsCharacter(g) <==> exists c: Scalar :: Encode(c) == g
  {
    if IsCharacter(g) {
      EncodeInvertsDecodeCharacter(g);
    }
    forall c: Scalar | Encode(c) == g ensures IsCharacter(g) {
      EncodeIsCharacter(c);
    }
  }

  lemma {:induction false} DecodeInvertsEncode(cs: seq<Scalar>)
    ensures DecodeAll(EncodeAll(cs)) == cs && IsUtf8(EncodeAll(cs))
  {
    if cs != [] {
      var g, rest := Encode(cs[0]), EncodeAll(cs[1..]);
      EncodeIsCharacter(cs[0]);
      DecodeCharacterInvertsEncode(cs[0]);
      assert (g + rest)[..|g|] == g && (g + rest)[|g|..] == rest;
      LeadingIsTheOnlyPrefix(g + rest, |g|);
      DecodeInvertsEncode(cs[1..]);
    }
  }

  /** Decoding then encoding is the identity on well-formed UTF-8, and only there. */
  lemma {:induction false} EncodeInvertsDecodeExactlyOnUtf8(b: seq<Byte>)
    ensures EncodeAll(DecodeAll(b)) == b <==> IsUtf8(b)
  {
    hide Encode, DecodeCharacter, IsCharacter, Leading;
    if EncodeAll(DecodeAll(b)) == b {
      DecodeInvertsEncode(DecodeAll(b));
    }
    if IsUtf8(b) && b != [] {
      var n := Leading(b);
      EncodeInvertsDecodeCharacter(b[..n]);
      EncodeInvertsDecodeExactlyOnUtf8(b[n..]);
      assert DecodeAll(b)[1..] == DecodeAll(b[n..]);
      assert b == b[..n] + b[n..];
    }
  }

  lemma {:induction false} ScalarsInvertUnits(cs: seq<Scalar>)
    ensures Scalars(UnitsAll(cs)) == cs && IsUtf16(UnitsAll(cs))
  {
    if cs != [] {
      var us, rest := Units(cs[0]), UnitsAll(cs[1..]);
      ScalarsInvertUnits(cs[1..]);
      assert (us + rest)[|us|..] == rest;
      assert |us| == 2 ==> Pair(us[0], us[1]) == cs[0];
    }
  }

  lemma {:induction false} UnitsInvertScalarsExactlyOnUtf16(s: seq<Unit>)
    ensures UnitsAll(Scalars(s)) == s <==> IsUtf16(s)
  {
    if UnitsAll(Scalars(s)) == s {
      ScalarsInvertUnits(Scalars(s));
    }
    if IsUtf16(s) && s != [] {
      var n := if StartsPair(s) then 2 else 1;
      UnitsInvertScalarsExactlyOnUtf16(s[n..]);
      assert Scalars(s)[1..] == Scalars(s[n..]);
      assert s == s[..n] + s[n..];
      assert s[..n] == Units(Scalars(s)[0]);
    }
  }
}
