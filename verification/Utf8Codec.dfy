/** The UTF-8 codec of the Buffer that the signer worker bundle installs globally. */
module Utf8Codec {
  import opened Common
  import opened Unicode
  import opened Bits

  // ---------- specification of utf8ToBytes ----------

  predicate EndsInTwoLeads(s: seq<Unit>) {
    |s| >= 2 && IsLead(s[|s| - 2]) && IsLead(s[|s| - 1])
  }

  /** The characters utf8ToBytes writes: all of them, except that of two unpaired leads at the
      very end only the first is replaced. */
  function Written(s: seq<Unit>): seq<Scalar> {
    var cs := Scalars(s);
    if EndsInTwoLeads(s) then cs[..|cs| - 1] else cs
  }

  /** Zero is JavaScript-falsy, so a budget of 0 means no budget at all. */
  function BytesOf(s: seq<Unit>, units: int): seq<Byte> {
    if units == 0 then EncodeAll(Written(s)) else EncodeAll(Within(Encode, Written(s), units))
  }

  // ---------- specification of utf8Slice ----------

  function StringOf(b: seq<Byte>): seq<Unit> {
    UnitsAll(DecodeAll(b))
  }

  /** The character at the front of `b`, if one is there. */
  function Front(b: seq<Byte>): Option<Scalar>
    requires b != []
  {
    if Leading(b) > 0 then Some(DecodeCharacter(b[..Leading(b)])) else None
  }

  function UnitsOf(read: Option<Scalar>): seq<Unit> {
    if read.Some? then Units(read.value) else [REPLACEMENT]
  }

  // ---------- lemmas ----------

  lemma {:induction false} Utf16HasNoTrailingLead(s: seq<Unit>)
    requires IsUtf16(s) && s != []
    ensures !IsLead(s[|s| - 1])
  {
    var n := if StartsPair(s) then 2 else 1;
    if s[n..] != [] {
      Utf16HasNoTrailingLead(s[n..]);
    }
  }

  // ---------- utf8ToBytes ----------

  /** Where the encoder stands: `done` has been read, `bytes` holds what of it
      fits, and `left` has been charged for all of it. */
  ghost predicate Progress<T>(encode: T -> seq<Byte>, done: seq<T>, units: int, bytes: seq<Byte>, left: int) {
    && (units == 0 ==> bytes == Concat(encode, done))
    && (units != 0 ==> bytes == Concat(encode, Within(encode, done, units)) && left == units - |Concat(encode, done)|)
  }

  lemma ProgressStep<T>(encode: T -> seq<Byte>, done: seq<T>, c: T, units: int, bytes: seq<Byte>, left: int)
    requires Progress(encode, done, units, bytes, left)
    ensures Progress(encode, done + [c], units,
                     if units == 0 || left >= |encode(c)| then bytes + encode(c) else bytes, left - |encode(c)|)
  {
    assert [c][1..] == [];
    assert Concat(encode, [c]) == encode(c);
    ConcatAppend(encode, done, [c]);
    if units != 0 {
      if left < 0 {
        WithinStuck(encode, done, [c], units);
      } else {
        WithinAppend(encode, done, [c], units);
        assert done + [] == done;
        WithinAppend(encode, done, [], units);
        assert Within(encode, [c], left) == if left >= |encode(c)| then [c] else [];
      }
    }
  }

  /** `done` accounts for the first `i` code units, except a lead still waiting for its trail. */
  ghost predicate Scanned(text: seq<Unit>, done: seq<Scalar>, i: nat, lead: Option<Unit>) {
    && i <= |text|
    && (lead.Some? ==> i > 0 && lead.value == text[i - 1])
    && (lead.Some? <==> i > 0 && IsLead(text[i - 1]) && (i < |text| || EndsInTwoLeads(text)))
    && Scalars(text) == done + Scalars(text[if lead.Some? then i - 1 else i..])
  }

  /** The characters the loop adds to `done` when it reads code unit `u`. */
  function Emitted(lead: Option<Unit>, u: Unit, last: bool): seq<Scalar> {
    match lead
    case None => if IsTrail(u) || (IsLead(u) && last) then [REPLACEMENT] else if IsLead(u) then [] else [u]
    case Some(l) =>
      if IsLead(u) || !IsLead(l) then [REPLACEMENT]
      else if IsTrail(u) then [Pair(l, u)]
      else [REPLACEMENT, u]
  }

  function NextLead(lead: Option<Unit>, u: Unit, last: bool): Option<Unit> {
    if IsLead(u) && (lead.Some? || !last) then Some(u) else None
  }

  lemma ScalarsFrom(s: seq<Unit>, k: nat)
    requires k < |s|
    ensures if StartsPair(s[k..]) then Scalars(s[k..]) == [Pair(s[k], s[k + 1])] + Scalars(s[k + 2..])
            else Scalars(s[k..]) == [if IsSurrogate(s[k]) then REPLACEMENT else s[k]] + Scalars(s[k + 1..])
  {
    assert s[k..][1..] == s[k + 1..];
    if StartsPair(s[k..]) {
      assert s[k..][2..] == s[k + 2..];
    }
  }

  lemma ScanStep(text: seq<Unit>, done: seq<Scalar>, i: nat, lead: Option<Unit>)
    requires i < |text| && Scanned(text, done, i, lead)
    ensures var last := i + 1 == |text|;
            Scanned(text, done + Emitted(lead, text[i], last), i + 1, NextLead(lead, text[i], last))
  {
    if lead.Some? {
      ScanPending(text, done, i, lead.value);
    } else {
      ScanFresh(text, done, i);
    }
  }

  /** One code unit read while no lead is waiting. */
  lemma ScanFresh(text: seq<Unit>, done: seq<Scalar>, i: nat)
    requires i < |text| && Scanned(text, done, i, None)
    ensures var last := i + 1 == |text|;
            Scanned(text, done + Emitted(None, text[i], last), i + 1, NextLead(None, text[i], last))
  {
    hide Scalars, Pair;
    ScalarsFrom(text, i);
    assert done + [] == done;
  }

  /** One code unit read after a lead: a pair, or a replacement and the unit itself. */
  lemma ScanPending(text: seq<Unit>, done: seq<Scalar>, i: nat, lead: Unit)
    requires i < |text| && Scanned(text, done, i, Some(lead))
    ensures var last := i + 1 == |text|;
            Scanned(text, done + Emitted(Some(lead), text[i], last), i + 1, NextLead(Some(lead), text[i], last))
  {
    hide Scalars, Pair;
    ScalarsFrom(text, i - 1);
    ScalarsFrom(text, i);
  }

  lemma Start(text: seq<Unit>, units: int)
    ensures Scanned(text, [], 0, None) && Progress(Encode, [], units, [], units)
  {
    assert text[0..] == text;
  }

  /** What the encoder has written once it runs out of room. */
  lemma OutOfRoom(text: seq<Unit>, units: int, done: seq<Scalar>, i: nat, bytes: seq<Byte>, left: int)
    requires Progress(Encode, done, units, bytes, left) && units != 0 && left < 0
    requires Scanned(text, done, i, None) && i > 0 && !IsLead(text[i - 1])
    ensures bytes == BytesOf(text, units)
  {
    assert done <= Written(text);
    assert Written(text) == done + Written(text)[|done|..];
    WithinStuck(Encode, done, Written(text)[|done|..], units);
  }

  /** What the encoder has written once it runs out of input. */
  lemma OutOfInput(text: seq<Unit>, units: int, done: seq<Scalar>, lead: Option<Unit>, bytes: seq<Byte>, left: int)
    requires Progress(Encode, done, units, bytes, left)
    requires Scanned(text, done, |text|, lead)
    ensures bytes == BytesOf(text, units)
  {
    if lead.Some? {
      ScalarsFrom(text, |text| - 1);
    }
    assert Scalars(text[|text|..]) == [];
    assert Written(text) == done;
    if units != 0 {
      if left < 0 {
        WithinStuck(Encode, done, [], units);
      } else {
        WithinAppend(Encode, done, [], units);
        assert Within(Encode, [], left) == [];
      }
      assert done + [] == done;
    }
  }

  function TwoOctetForm(c: nat): seq<nat> {
    [Or(Shr(c, 0x6), 0xC0), Or(And(c, 0x3F), 0x80)]
  }

  function ThreeOctetForm(c: nat): seq<nat> {
    [Or(Shr(c, 0xC), 0xE0), Or(And(Shr(c, 0x6), 0x3F), 0x80), Or(And(c, 0x3F), 0x80)]
  }

  function FourOctetForm(c: nat): seq<nat> {
    [Or(Shr(c, 0x12), 0xF0), Or(And(Shr(c, 0xC), 0x3F), 0x80), Or(And(Shr(c, 0x6), 0x3F), 0x80),
     Or(And(c, 0x3F), 0x80)]
  }

  /** The shifts and masks give the octets of section 3 of RFC 3629. */
  lemma FormsEncode(c: Scalar)
    ensures 0x80 <= c < 0x800 ==> TwoOctetForm(c) == Encode(c)
    ensures 0x800 <= c < 0x10000 ==> ThreeOctetForm(c) == Encode(c)
    ensures 0x10000 <= c ==> FourOctetForm(c) == Encode(c)
  {
    hide Shr, And, Or;
    var n: int := c;
    Shrs(n);
    Masks(n);
    Masks(n / 64);
    Masks(n / 4096);
    Markers(n % 64);
    Markers(n / 64 % 64);
    Markers(n / 4096 % 64);
    if n < 0x800 {
      Markers(n / 64);
    } else if n < 0x10000 {
      Markers(n / 4096);
    } else {
      Markers(n / 0x40000);
    }
  }

  /** The "encode utf8" block of the loop below: charges the budget and writes one character. */
  method WriteCharacter(codePoint: Scalar, unlimited: bool, units: int, bytes: seq<Byte>)
    returns (full: bool, left: int, bytes': seq<Byte>)
    ensures left == units - |Encode(codePoint)|
    ensures full <==> !unlimited && left < 0
    ensures bytes' == if full then bytes else bytes + Encode(codePoint)
  {
    hide TwoOctetForm, ThreeOctetForm, FourOctetForm;
    full, left, bytes' := false, units, bytes;
    FormsEncode(codePoint);
    if codePoint < 0x80 {
      left := left - 1;
      if !unlimited && left < 0 { full := true; return; }
      bytes' := bytes' + [codePoint];
    } else if codePoint < 0x800 {
      left := left - 2;
      if !unlimited && left < 0 { full := true; return; }
      bytes' := bytes' + TwoOctetForm(codePoint);
    } else if codePoint < 0x10000 {
      left := left - 3;
      if !unlimited && left < 0 { full := true; return; }
      bytes' := bytes' + ThreeOctetForm(codePoint);
    } else {
      left := left - 4;
      if !unlimited && left < 0 { full := true; return; }
      bytes' := bytes' + FourOctetForm(codePoint);
    }
  }

  method Utf8ToBytes(text: seq<Unit>, units: int) returns (bytes: seq<Byte>)
    ensures bytes == BytesOf(text, units)
  {
    hide Encode, Units, Scalars, Scanned, Progress, Or, Shl;
    var unlimited := units == 0;
    var left := units;
    var leadSurrogate: Option<Unit> := None;
    bytes := [];

    ghost var done: seq<Scalar> := [];
    Start(text, units);
    for i := 0 to |text|
      invariant leadSurrogate.Some? ==> IsLead(leadSurrogate.value)
      invariant Scanned(text, done, i, leadSurrogate)
      invariant Progress(Encode, done, units, bytes, left)
    {
      var codePoint: int := text[i];
      ghost var emitted := Emitted(leadSurrogate, text[i], i + 1 == |text|);
      ghost var before := done;
      ScanStep(text, done, i, leadSurrogate);

      if 0xD7FF < codePoint < 0xE000 {
        if leadSurrogate.None? {
          if codePoint > 0xDBFF || i + 1 == |text| {
            // an unexpected trail, or a lead with nothing after it
            left, bytes := Replace(unlimited, left, bytes, done, units);
            done := done + emitted;
            continue;
          }
          leadSurrogate := Some(codePoint);
          assert done + emitted == done;
          continue;
        }
        if codePoint < 0xDC00 {
          // two leads in a row
          left, bytes := Replace(unlimited, left, bytes, done, units);
          done := done + emitted;
          leadSurrogate := Some(codePoint);
          continue;
        }
        JoinPair(leadSurrogate.value - 0xD800, codePoint - 0xDC00);
        codePoint := Or(Shl(leadSurrogate.value - 0xD800, 10), codePoint - 0xDC00) + 0x10000;
      } else if leadSurrogate.Some? {
        // a complete character, but the one before it was a lead
        left, bytes := Replace(unlimited, left, bytes, done, units);
        done := done + [REPLACEMENT];
      }
      leadSurrogate := None;

      ProgressStep<Scalar>(Encode, done, codePoint, units, bytes, left);
      done := done + [codePoint];
      assert done == before + emitted;
      var full: bool;
      full, left, bytes := WriteCharacter(codePoint, unlimited, left, bytes);
      if full {
        OutOfRoom(text, units, done, i + 1, bytes, left);
        return;
      }
    }
    OutOfInput(text, units, done, leadSurrogate, bytes, left);
  }

  /** Writes U+FFFD when the budget allows; unlike WriteCharacter it lets the loop go on. */
  method Replace(unlimited: bool, units: int, bytes: seq<Byte>, ghost done: seq<Scalar>, ghost budget: int)
    returns (left: int, bytes': seq<Byte>)
    requires unlimited == (budget == 0) && Progress(Encode, done, budget, bytes, units)
    ensures Progress(Encode, done + [REPLACEMENT], budget, bytes', left)
  {
    ProgressStep<Scalar>(Encode, done, REPLACEMENT, budget, bytes, units);
    left, bytes' := units - 3, bytes;
    if unlimited || left > -1 { bytes' := bytes' + [0xEF, 0xBF, 0xBD]; }
  }

  // ---------- utf8Slice ----------

  /** A mask test picks out the tail octets. */
  predicate Continues(b: Byte) { And(b, 0xC0) == 0x80 }

  lemma TailDigit(b: Byte)
    ensures Continues(b) <==> Tail(b)
    ensures Tail(b) ==> b % 64 == b - 0x80
  {
    hide And;
    TopTwoBits(b);
  }

  /** Six bits of each tail octet behind the low bits of the first. */
  function JoinedTwo(a: nat, b: nat): nat {
    Or(Shl(And(a, 0x1F), 0x6), And(b, 0x3F))
  }

  function JoinedThree(a: nat, b: nat, d: nat): nat {
    Or(Or(Shl(And(a, 0xF), 0xC), Shl(And(b, 0x3F), 0x6)), And(d, 0x3F))
  }

  function JoinedFour(a: nat, b: nat, d: nat, e: nat): nat {
    Or(Or(Or(Shl(And(a, 0xF), 0x12), Shl(And(b, 0x3F), 0xC)), Shl(And(d, 0x3F), 0x6)), And(e, 0x3F))
  }

  lemma JoinsAdd(a: nat, b: nat, d: nat, e: nat)
    ensures JoinedTwo(a, b) == a % 32 * 64 + b % 64
    ensures JoinedThree(a, b, d) == a % 16 * 4096 + b % 64 * 64 + d % 64
    ensures JoinedFour(a, b, d, e) == a % 16 * 0x40000 + b % 64 * 4096 + d % 64 * 64 + e % 64
  {
    hide Or, Shl, And;
    Masks(a);
    Masks(b);
    Masks(d);
    Masks(e);
    JoinSix(a % 32, b % 64);
    JoinThree(a % 16, b % 64, d % 64);
    JoinFour(a % 16, b % 64, d % 64, e % 64);
  }

  lemma TwoOctets(a: Byte, b: Byte)
    requires 0xBF < a <= 0xDF
    ensures var c := JoinedTwo(a, b);
            if Continues(b) && c > 0x7F then IsCharacter([a, b]) && DecodeCharacter([a, b]) == c
            else !IsCharacter([a, b])
  {
    hide Continues, JoinedTwo, JoinedThree, JoinedFour;
    JoinsAdd(a, b, 0, 0);
    TailDigit(b);
    assert a % 32 == a - 0xC0;
  }

  lemma ThreeOctets(a: Byte, b: Byte, d: Byte)
    requires 0xDF < a <= 0xEF
    ensures var c := JoinedThree(a, b, d);
            if Continues(b) && Continues(d) && c > 0x7FF && (c < 0xD800 || c > 0xDFFF)
            then IsCharacter([a, b, d]) && DecodeCharacter([a, b, d]) == c
            else !IsCharacter([a, b, d])
  {
    hide Continues, JoinedTwo, JoinedThree, JoinedFour;
    JoinsAdd(a, b, d, 0);
    TailDigit(b);
    TailDigit(d);
    assert a % 16 == a - 0xE0;
  }

  lemma FourOctets(a: Byte, b: Byte, d: Byte, e: Byte)
    requires 0xEF < a
    ensures var c := JoinedFour(a, b, d, e);
            if Continues(b) && Continues(d) && Continues(e) && c > 0xFFFF && c < 0x110000
            then IsCharacter([a, b, d, e]) && DecodeCharacter([a, b, d, e]) == c
            else !IsCharacter([a, b, d, e])
  {
    hide Continues, JoinedTwo, JoinedThree, JoinedFour;
    JoinsAdd(a, b, d, e);
    TailDigit(b);
    TailDigit(d);
    TailDigit(e);
    assert a % 16 == a - 0xF0;
  }

  /** The switch of utf8Slice: reads the group at `i`, giving nothing unless it is a character. */
  method ReadGroup(buf: seq<Byte>, i: nat, end: nat) returns (codePoint: Option<Scalar>, bytesPerSequence: nat)
    requires i < end <= |buf|
    ensures codePoint == Front(buf[i..end])
    ensures codePoint.Some? ==> bytesPerSequence == Leading(buf[i..end])
  {
    hide Continues, JoinedTwo, JoinedThree, JoinedFour;
    var firstByte: int := buf[i];
    codePoint := None;
    bytesPerSequence :=
      if firstByte > 0xEF then 4 else if firstByte > 0xDF then 3 else if firstByte > 0xBF then 2 else 1;
    ghost var group := buf[i..end];

    if i + bytesPerSequence <= end {
      match bytesPerSequence {
        case 1 =>
          assert group[..1] == [firstByte];
          if firstByte < 0x80 {
            codePoint := Some(firstByte);
          }
        case 2 =>
          var secondByte: int := buf[i + 1];
          TwoOctets(firstByte, secondByte);
          assert group[..2] == [firstByte, secondByte];
          if Continues(secondByte) {
            var tempCodePoint := JoinedTwo(firstByte, secondByte);
            if tempCodePoint > 0x7F {
              codePoint := Some(tempCodePoint);
            }
          }
        case 3 =>
          var secondByte: int, thirdByte: int := buf[i + 1], buf[i + 2];
          ThreeOctets(firstByte, secondByte, thirdByte);
          assert group[..3] == [firstByte, secondByte, thirdByte];
          if Continues(secondByte) && Continues(thirdByte) {
            var tempCodePoint := JoinedThree(firstByte, secondByte, thirdByte);
            if tempCodePoint > 0x7FF && (tempCodePoint < 0xD800 || tempCodePoint > 0xDFFF) {
              codePoint := Some(tempCodePoint);
            }
          }
        case _ =>
          var secondByte: int, thirdByte: int, fourthByte: int := buf[i + 1], buf[i + 2], buf[i + 3];
          FourOctets(firstByte, secondByte, thirdByte, fourthByte);
          assert group[..4] == [firstByte, secondByte, thirdByte, fourthByte];
          if Continues(secondByte) && Continues(thirdByte) && Continues(fourthByte) {
            var tempCodePoint := JoinedFour(firstByte, secondByte, thirdByte, fourthByte);
            if tempCodePoint > 0xFFFF && tempCodePoint < 0x110000 {
              codePoint := Some(tempCodePoint);
            }
          }
      }
    }
  }

  /** One step of decoding at the front of `b`. */
  lemma StringStep(b: seq<Byte>)
    requires b != []
    ensures var n := if Front(b).Some? then Leading(b) else 1;
            1 <= n <= |b| && StringOf(b) == UnitsOf(Front(b)) + StringOf(b[n..])
  {
    assert DecodeAll(b)[1..] == DecodeAll(b[if Leading(b) > 0 then Leading(b) else 1..]);
  }

  lemma SplitPair(c: nat)
    requires c < 0x100000
    ensures Or(And(Shr(c, 10), 0x3FF), 0xD800) == c / 1024 + 0xD800
    ensures Or(0xDC00, And(c, 0x3FF)) == 0xDC00 + c % 1024
  {
    hide Or, And, Shr;
    var high, low := c / 1024, c % 1024;
    assert high < 0x400;
    Shrs(c);
    Masks(c);
    Masks(high);
    SmallRemainder(high);
    Markers(high);
    Markers(low);
  }

  lemma SmallRemainder(n: nat)
    requires n < 0x400
    ensures n % 0x400 == n
  {}

  /** The end of the loop body of utf8Slice: one unit, or a surrogate pair. */
  method PushUnits(res: seq<Unit>, read: Option<Scalar>) returns (res': seq<Unit>)
    ensures res' == res + UnitsOf(read)
  {
    hide Or, And, Shr;
    res' := res;
    var codePoint: int := 0xFFFD;
    if read.Some? {
      codePoint := read.value;
      if codePoint > 0xFFFF {
        codePoint := codePoint - 0x10000;
        SplitPair(codePoint);
        res' := res' + [Or(And(Shr(codePoint, 10), 0x3FF), 0xD800)];
        codePoint := Or(0xDC00, And(codePoint, 0x3FF));
      }
    }
    res' := res' + [codePoint];
  }

  lemma NothingLeft(b: seq<Byte>, end: int)
    ensures 0 <= end <= |b| ==> StringOf(b[end..end]) == []
  {}

  method Utf8Slice(buf: seq<Byte>, start: nat, end: int) returns (text: seq<Unit>)
    ensures text == if start <= Min(|buf|, end) then StringOf(buf[start..Min(|buf|, end)]) else []
  {
    hide Leading, Front, StringOf, UnitsOf;
    var end' := Min(|buf|, end);
    var res: seq<Unit> := [];
    var i := start;
    while i < end'
      invariant start <= end' ==> start <= i <= end' && StringOf(buf[start..end']) == res + StringOf(buf[i..end'])
      invariant start > end' ==> i == start && res == []
    {
      StringStep(buf[i..end']);
      var maybe, bytesPerSequence := ReadGroup(buf, i, end');
      if maybe.None? {
        bytesPerSequence := 1;
      }
      res := PushUnits(res, maybe);
      assert buf[i..end'][bytesPerSequence..] == buf[i + bytesPerSequence..end'];
      i := i + bytesPerSequence;
    }
    NothingLeft(buf, end');
    text := DecodeCodePointsArray(res);
  }

  const MAX_ARGUMENTS_LENGTH := 0x1000

  /** Turning the units into a string piecewise, as long argument lists require, changes nothing. */
  method DecodeCodePointsArray(codePoints: seq<Unit>) returns (res: seq<Unit>)
    ensures res == codePoints
  {
    var len := |codePoints|;
    if len <= MAX_ARGUMENTS_LENGTH {
      return codePoints;
    }
    res := [];
    var i := 0;
    while i < len
      invariant 0 <= i
      invariant res == codePoints[..Min(i, len)]
    {
      var from := i;
      i := i + MAX_ARGUMENTS_LENGTH;
      res := res + codePoints[from..Min(i, len)];
    }
  }

  // ---------- the two directions together ----------

  /** Every decoded string is well-formed, and decoding what was encoded gives
      the string back exactly when it was well-formed to begin with. */
  lemma RoundTripExactlyOnUtf16(s: seq<Unit>)
    ensures IsUtf16(StringOf(BytesOf(s, 0)))
    ensures StringOf(BytesOf(s, 0)) == s <==> IsUtf16(s)
  {
    var cs := Written(s);
    DecodeInvertsEncode(cs);
    ScalarsInvertUnits(cs);
    UnitsInvertScalarsExactlyOnUtf16(s);
    if IsUtf16(s) && s != [] {
      Utf16HasNoTrailingLead(s);
    }
  }

  lemma DecodedStringsAreUtf16(b: seq<Byte>)
    ensures IsUtf16(StringOf(b))
  {
    ScalarsInvertUnits(DecodeAll(b));
  }

  /** The octets survive a trip through a string exactly when they are UTF-8. */
  lemma OctetsSurviveExactlyOnUtf8(b: seq<Byte>)
    ensures BytesOf(StringOf(b), 0) == b <==> IsUtf8(b)
  {
    var s := StringOf(b);
    ScalarsInvertUnits(DecodeAll(b));
    if s != [] {
      Utf16HasNoTrailingLead(s);
    }
    EncodeInvertsDecodeExactlyOnUtf8(b);
  }

  /** Without a budget the encoder writes the RFC 3629 encoding of the text, one replacement
      per unpaired surrogate, exactly when the text does not end in two leads. */
  lemma CompleteExactlyUnlessTwoLeadsEnd(s: seq<Unit>)
    ensures BytesOf(s, 0) == EncodeAll(Scalars(s)) <==> !EndsInTwoLeads(s)
    ensures EndsInTwoLeads(s) ==> BytesOf(s, 0) + [0xEF, 0xBF, 0xBD] == EncodeAll(Scalars(s))
  {
    if EndsInTwoLeads(s) {
      var cs := Scalars(s);
      LastOfTrailingLead(s);
      assert cs == cs[..|cs| - 1] + [REPLACEMENT];
      AppendReplacement(Written(s));
    }
  }

  lemma AppendReplacement(cs: seq<Scalar>)
    ensures EncodeAll(cs + [REPLACEMENT]) == EncodeAll(cs) + [0xEF, 0xBF, 0xBD]
  {
    ConcatAppend(Encode, cs, [REPLACEMENT]);
    assert Encode(REPLACEMENT) == [0xEF, 0xBF, 0xBD];
    assert Concat(Encode, [REPLACEMENT]) == Encode(REPLACEMENT) + Concat(Encode, []);
  }

  lemma {:induction false} LastOfTrailingLead(s: seq<Unit>)
    requires s != [] && IsLead(s[|s| - 1])
    ensures Scalars(s)[|Scalars(s)| - 1] == REPLACEMENT
  {
    var n := if StartsPair(s) then 2 else 1;
    assert Scalars(s)[1..] == Scalars(s[n..]);
    if n < |s| {
      LastOfTrailingLead(s[n..]);
    }
  }

  predicate LongestFit(cs: seq<Scalar>, p: nat, units: nat) {
    && p <= |cs|
    && |EncodeAll(cs[..p])| <= units
    && (p < |cs| ==> |EncodeAll(cs[..p + 1])| > units)
  }

  /** Within a budget the encoder writes as many whole characters as fit, never half of one. */
  lemma BudgetCutsBetweenCharacters(s: seq<Unit>, units: nat)
    requires units > 0
    ensures exists p: nat :: LongestFit(Written(s), p, units) && BytesOf(s, units) == EncodeAll(Written(s)[..p])
  {
    WithinIsLongestFit(Encode, Written(s), units);
    var p := |Within(Encode, Written(s), units)|;
    assert Written(s)[..p] == Within(Encode, Written(s), units);
    assert LongestFit(Written(s), p, units);
  }
}
