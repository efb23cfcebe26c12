/** Base64 as the SDK and its bundled Buffer compute it: two encoders, two decoders, and
    the browser's btoa and atob, which the SDK's own helpers are built on. */
module Base64Codec {
  import opened Bits
  import opened Common

  type Sextet = i: int | 0 <= i < 64

  // ---------- RFC 4648 ----------

  /** The four sextets that three octets straddle. */
  function Top(x: Byte): (i: Sextet) {
    x / 4
  }

  function Upper(x: Byte, y: Byte): (i: Sextet) {
    x % 4 * 16 + y / 16
  }

  function Lower(y: Byte, z: Byte): (i: Sextet) {
    y % 16 * 4 + z / 64
  }

  function Bottom(z: Byte): (i: Sextet) {
    z % 64
  }

  /** Section 4: 3 octets become 4 sextets; the last group may hold 1 or 2 octets. */
  function Sextets(b: seq<Byte>): seq<Sextet> {
    if |b| == 0 then []
    else if |b| == 1 then [Top(b[0]), Upper(b[0], 0)]
    else if |b| == 2 then [Top(b[0]), Upper(b[0], b[1]), Lower(b[1], 0)]
    else [Top(b[0]), Upper(b[0], b[1]), Lower(b[1], b[2]), Bottom(b[2])] + Sextets(b[3..])
  }

  /** The three octets that four sextets straddle. */
  function First(a: int, b: int): int { a * 4 + b / 16 }

  function Second(b: int, c: int): int { b % 16 * 16 + c / 4 }

  function Third(c: int, d: int): int { c % 4 * 64 + d }

  /** The octets in a run of sextets; bits that fill no octet are dropped. */
  function Octets(q: seq<Sextet>): (b: seq<Byte>)
    ensures |b| == |q| * 3 / 4
  {
    if |q| < 2 then []
    else if |q| == 2 then [First(q[0], q[1])]
    else if |q| == 3 then [First(q[0], q[1]), Second(q[1], q[2])]
    else [First(q[0], q[1]), Second(q[1], q[2]), Third(q[2], q[3])] + Octets(q[4..])
  }

  /** Table 1. */
  function Lookup(i: Sextet): char {
    if i < 26 then 'A' + i as char
    else if i < 52 then 'a' + (i - 26) as char
    else if i < 62 then '0' + (i - 52) as char
    else if i == 62 then '+' else '/'
  }

  predicate IsStandard(c: char) {
    'A' <= c <= 'Z' || 'a' <= c <= 'z' || '0' <= c <= '9' || c == '+' || c == '/'
  }

  /** The characters of section 4 and those section 5 puts in their place. */
  predicate IsAlphabet(c: char) {
    IsStandard(c) || c == '-' || c == '_'
  }

  /** Inverse table, with the URL-safe characters; an undefined entry acts as 0 in bit operations. */
  function RevLookup(c: char): Sextet {
    if 'A' <= c <= 'Z' then (c - 'A') as int
    else if 'a' <= c <= 'z' then (c - 'a') as int + 26
    else if '0' <= c <= '9' then (c - '0') as int + 52
    else if c == '+' || c == '-' then 62
    else if c == '/' || c == '_' then 63
    else 0
  }

  const UPPER := "ABCDEFGHIJKLMNOPQRSTUVWXYZ"
  const LOWER := "abcdefghijklmnopqrstuvwxyz"
  const DIGITS := "0123456789"
  const CODE := UPPER + LOWER + DIGITS + "+/"

  lemma UpperAt(k: nat)
    ensures |UPPER| == 26 && (k < 26 ==> UPPER[k] == 'A' + k as char)
  {}

  lemma LowerAt(k: nat)
    ensures |LOWER| == 26 && (k < 26 ==> LOWER[k] == 'a' + k as char)
  {}

  lemma DigitAt(k: nat)
    ensures |DIGITS| == 10 && (k < 10 ==> DIGITS[k] == '0' + k as char)
  {}

  lemma CodeParts(i: Sextet)
    ensures |UPPER| == 26 && |LOWER| == 26 && |DIGITS| == 10 && |CODE| == 64
    ensures i < 26 ==> CODE[i] == UPPER[i]
    ensures 26 <= i < 52 ==> CODE[i] == LOWER[i - 26]
    ensures 52 <= i < 62 ==> CODE[i] == DIGITS[i - 52]
    ensures CODE[62] == '+' && CODE[63] == '/'
  {
    hide UPPER, LOWER, DIGITS;
    UpperAt(26);
    LowerAt(26);
    DigitAt(10);
  }

  /** The table is the code string, and the inverse table inverts it. */
  lemma TableIsTheCode(i: Sextet)
    ensures |CODE| == 64 && Lookup(i) == CODE[i] && RevLookup(CODE[i]) == i && IsStandard(CODE[i])
  {
    hide UPPER, LOWER, DIGITS, CODE;
    CodeParts(i);
    if i < 26 {
      UpperAt(i);
    } else if i < 52 {
      LowerAt(i - 26);
    } else if i < 62 {
      DigitAt(i - 52);
    }
  }

  /** The standard characters are those of the code string, and the alphabet has two more, which stand for 62 and
      63; everything else counts as 0. */
  lemma AlphabetIsTheCode(c: char)
    ensures IsStandard(c) <==> c in CODE
    ensures IsAlphabet(c) <==> c in CODE || c == '-' || c == '_'
    ensures RevLookup('-') == 62 && RevLookup('_') == 63 && (!IsAlphabet(c) ==> RevLookup(c) == 0)
  {
    hide UPPER, LOWER, DIGITS, CODE;
    TableIsTheCode(RevLookup(c));
    if i :| 0 <= i < |CODE| && CODE[i] == c {
      TableIsTheCode(i);
    }
  }

  function Chars(q: seq<Sextet>): (s: string)
    ensures |s| == |q|
  {
    seq(|q|, i requires 0 <= i < |q| => Lookup(q[i]))
  }

  function Values(s: string): (q: seq<Sextet>)
    ensures |q| == |s|
  {
    seq(|s|, i requires 0 <= i < |s| => RevLookup(s[i]))
  }

  lemma RepeatGrows(c: char, n: nat)
    ensures Repeat(c, n + 1) == Repeat(c, n) + [c] && Repeat(c, 0) == []
  {}

  function Padding(length: nat): nat {
    (4 - length % 4) % 4
  }

  function PadOut(q: seq<Sextet>): string {
    Chars(q) + Repeat('=', Padding(|q|))
  }

  function Encoded(b: seq<Byte>): string {
    PadOut(Sextets(b))
  }

  // ---------- string operations ----------

  function Replace(s: string, from: char, to: char): (r: string)
    ensures |r| == |s|
  {
    seq(|s|, i requires 0 <= i < |s| => if s[i] == from then to else s[i])
  }

  function Filter(s: string, keep: char -> bool): string {
    if s == [] then []
    else if keep(s[0]) then [s[0]] + Filter(s[1..], keep)
    else Filter(s[1..], keep)
  }

  /** White space as String.prototype.trim sees it. */
  predicate IsSpace(c: char) {
    c in {'\t', '\n', '\r', ' ', '\U{B}', '\U{C}', '\U{A0}', '\U{1680}', '\U{2028}', '\U{2029}', '\U{202F}',
          '\U{205F}', '\U{3000}', '\U{FEFF}'} || '\U{2000}' <= c <= '\U{200A}'
  }

  function Trim(s: string): string {
    if s == [] then []
    else if IsSpace(s[0]) then Trim(s[1..])
    else if IsSpace(s[|s| - 1]) then Trim(s[..|s| - 1])
    else s
  }

  // ---------- the browser ----------

  /** btoa on a binary string. */
  function Btoa(b: seq<Byte>): string {
    Encoded(b)
  }

  predicate IsAsciiSpace(c: char) {
    c in {'\t', '\n', '\U{C}', '\r', ' '}
  }

  /** The text without its one or two padding characters. */
  function Stripped(d: string): string {
    var n := |d|;
    if n == 0 || n % 4 != 0 || d[n - 1] != '=' then d
    else if d[n - 2] == '=' then d[..n - 2]
    else d[..n - 1]
  }

  /** atob: the forgiving-base64 decode algorithm of the WHATWG Infra Standard. */
  function Atob(s: string): Option<seq<Byte>> {
    var d := Filter(s, c => !IsAsciiSpace(c));
    var e := Stripped(d);
    if |e| % 4 == 1 || exists i :: 0 <= i < |e| && !IsStandard(e[i]) then None
    else Some(Octets(Values(e)))
  }

  // ---------- the SDK's helpers ----------

  function Base64Encode(value: seq<Byte>): string {
    Btoa(value)
  }

  function Base64UrlEncode(value: seq<Byte>): string {
    Filter(Replace(Replace(Base64Encode(value), '+', '-'), '/', '_'), c => c != '=')
  }

  /** Padding counts the characters missing from the last group of four. */
  lemma PaddingReaches(length: nat, n: nat)
    requires length <= n <= length + Padding(length)
    ensures n % 4 == 0 <==> n == length + Padding(length)
  {}

  /** What base64UrlDecode gives; None when atob throws. */
  function UrlDecoded(s: string): Option<seq<Byte>> {
    Atob(Replace(Replace(s, '-', '+'), '_', '/') + Repeat('=', Padding(|s|)))
  }

  method Base64UrlDecode(s: string) returns (r: Option<array<Byte>>)
    ensures r.Some? <==> UrlDecoded(s).Some?
    ensures r.Some? ==> fresh(r.value) && r.value[..] == UrlDecoded(s).value
  {
    var padding := Repeat('=', (4 - |s| % 4) % 4);
    var base64 := Replace(Replace(s, '-', '+'), '_', '/') + padding;
    var decoded := Atob(base64);
    if decoded.None? { return None; }
    var binaryString := decoded.value;
    var bytes := new Byte[|binaryString|];
    for i := 0 to |binaryString|
      invariant bytes[..i] == binaryString[..i]
    {
      bytes[i] := binaryString[i];
    }
    r := Some(bytes);
  }

  // ---------- the Buffer's decoder ----------

  /** The characters base64clean keeps. */
  function Kept(s: string): string {
    Filter(s[..Until(s, '=')], IsAlphabet)
  }

  function Cleaned(s: string): string {
    var k := Kept(s);
    if |k| < 2 then "" else k + Repeat('=', Padding(|k|))
  }

  method Base64Clean(text: string) returns (str: string)
    ensures str == Cleaned(text)
  {
    hide IsAlphabet, Trim, Padding, Repeat;
    str := text[..Until(text, '=')];
    TrimIsSubsumed(str);
    str := Filter(Trim(str), IsAlphabet);
    if |str| < 2 { return ""; }
    ghost var kept := str;
    RepeatGrows('=', 0);
    PaddingReaches(|kept|, |str|);
    while |str| % 4 != 0
      invariant |kept| <= |str| <= |kept| + Padding(|kept|)
      invariant str == kept + Repeat('=', |str| - |kept|)
      invariant |str| % 4 == 0 <==> |str| == |kept| + Padding(|kept|)
      decreases |kept| + Padding(|kept|) - |str|
    {
      RepeatGrows('=', |str| - |kept|);
      PaddingReaches(|kept|, |str| + 1);
      str := str + "=";
    }
  }

  datatype DecodeError = BadLength | NegativeArrayLength

  function Placeholders(b64: string): nat {
    var v := Until(b64, '=');
    if v == |b64| then 0 else 4 - v % 4
  }

  /** What toByteArray returns. When the first '=' stands where a group would begin, four placeholders
      are counted: the last group is not decoded and leaves two zero octets. */
  function ByteArray(b64: string): Result<seq<Byte>, DecodeError> {
    var v := Until(b64, '=');
    if |b64| % 4 > 0 then Err(BadLength)
    else if Placeholders(b64) < 4 then Ok(Octets(Values(b64[..v])))
    else if v == 0 then Err(NegativeArrayLength)
    else Ok(Octets(Values(b64[..v - 4])) + [0, 0])
  }

  /** An array of `length` octets whose front is written and whose rest is still zero. */
  function Filled(front: seq<Byte>, length: nat): (s: seq<Byte>)
    requires |front| <= length
    ensures |s| == length
  {
    front + seq(length - |front|, _ => 0)
  }

  lemma FilledGrows(front: seq<Byte>, length: nat, x: Byte)
    requires |front| < length
    ensures Filled(front, length)[|front| := x] == Filled(front + [x], length)
  {}

  method Append(arr: array<Byte>, x: Byte, ghost front: seq<Byte>, curByte: nat) returns (next: nat)
    requires curByte == |front| < arr.Length && arr[..] == Filled(front, arr.Length)
    modifies arr
    ensures next == curByte + 1 && arr[..] == Filled(front + [x], arr.Length)
  {
    FilledGrows(front, arr.Length, x);
    ghost var before := arr[..];
    arr[curByte] := x;
    assert arr[..] == before[curByte := x];
    next := curByte + 1;
  }

  method AppendTwo(arr: array<Byte>, x: Byte, y: Byte, ghost front: seq<Byte>, curByte: nat) returns (next: nat)
    requires curByte == |front| && |front| + 2 <= arr.Length && arr[..] == Filled(front, arr.Length)
    modifies arr
    ensures next == curByte + 2 && arr[..] == Filled(front + [x, y], arr.Length)
  {
    hide Filled;
    next := Append(arr, x, front, curByte);
    next := Append(arr, y, front + [x], next);
    assert front + [x] + [y] == front + [x, y];
  }

  method AppendThree(arr: array<Byte>, x: Byte, y: Byte, z: Byte, ghost front: seq<Byte>, curByte: nat)
    returns (next: nat)
    requires curByte == |front| && |front| + 3 <= arr.Length && arr[..] == Filled(front, arr.Length)
    modifies arr
    ensures next == curByte + 3 && arr[..] == Filled(front + [x, y, z], arr.Length)
  {
    hide Filled;
    next := AppendTwo(arr, x, y, front, curByte);
    next := Append(arr, z, front + [x, y], next);
    assert front + [x, y] + [z] == front + [x, y, z];
  }

  /** The loop of toByteArray over the groups before `len`. */
  method DecodeGroups(b64: string, validLen: nat, len: int, arr: array<Byte>) returns (i: nat, curByte: nat)
    requires 0 < validLen <= |b64| && (len == validLen - 4 || (len == validLen && len % 4 == 0))
    requires arr.Length >= validLen / 4 * 3 - (if len < validLen && validLen % 4 == 0 then 3 else 0)
    requires arr[..] == Filled([], arr.Length)
    modifies arr
    ensures i == if len < validLen && validLen % 4 == 0 then validLen - 4 else validLen / 4 * 4
    ensures curByte == i / 4 * 3 <= arr.Length
    ensures arr[..] == Filled(Octets(Values(b64[..validLen])[..i]), arr.Length)
  {
    hide Octets, RevLookup, First, Second, Third, Filled;
    ghost var q := Values(b64[..validLen]);
    i, curByte := 0, 0;
    NoOctets();
    ghost var groups := 0;
    while i < len
      invariant i == 4 * groups <= validLen && (groups > 0 ==> i - 4 < len)
      invariant curByte == 3 * groups <= arr.Length
      invariant arr[..] == Filled(Octets(q[..i]), arr.Length)
    {
      curByte := DecodeGroup(b64, i, arr, curByte, q);
      i := i + 4;
      groups := groups + 1;
    }
  }

  method DecodeGroup(b64: string, i: nat, arr: array<Byte>, curByte: nat, ghost q: seq<Sextet>) returns (next: nat)
    requires i % 4 == 0 && i + 4 <= |q| <= |b64| && q == Values(b64[..|q|])
    requires curByte == |Octets(q[..i])| && curByte + 3 <= arr.Length
    requires arr[..] == Filled(Octets(q[..i]), arr.Length)
    modifies arr
    ensures next == curByte + 3 && arr[..] == Filled(Octets(q[..i + 4]), arr.Length)
  {
    hide Octets, RevLookup, First, Second, Third, Filled, PackedFour, LowOctet, Shr;
    var a: int, b: int := RevLookup(b64[i]), RevLookup(b64[i + 1]);
    var c: int, d: int := RevLookup(b64[i + 2]), RevLookup(b64[i + 3]);
    var tmp := PackedFour(a, b, c, d);
    Straddle(a, b, c, d);
    GroupOfFour(q[..i], a, b, c, d);
    assert q[..i + 4] == q[..i] + [a, b, c, d];
    next := AppendThree(arr, LowOctet(Shr(tmp, 16)), LowOctet(Shr(tmp, 8)), LowOctet(tmp), Octets(q[..i]), curByte);
  }

  /** The array always ends up as ByteArray says; it is filled to its last element (`curByte` is
      where writing stopped) exactly when fewer than four placeholders are counted. */
  method ToByteArray(b64: string) returns (r: Result<array<Byte>, DecodeError>, ghost curByte: nat)
    ensures r.Ok? <==> ByteArray(b64).Ok?
    ensures r.Err? ==> r.error == ByteArray(b64).error
    ensures r.Ok? ==> fresh(r.value) && r.value[..] == ByteArray(b64).value
    ensures r.Ok? ==> curByte <= r.value.Length && (curByte == r.value.Length <==> Placeholders(b64) < 4)
  {
    hide Octets, RevLookup, First, Second, Third, Filled;
    if |b64| % 4 > 0 { return Err(BadLength), 0; }
    var validLen: int := Until(b64, '=');
    var placeHoldersLen: int := if validLen == |b64| then 0 else 4 - validLen % 4;
    var length: int := (validLen + placeHoldersLen) * 3 / 4 - placeHoldersLen;
    if length < 0 { return Err(NegativeArrayLength), 0; }
    var arr := new Byte[length](_ => 0);
    Zeros(length);
    assert arr[..] == Filled([], length);
    if validLen == 0 {
      NoOctets();
      FilledToTheEnd([], length);
      return Ok(arr), 0;
    }
    var len := if placeHoldersLen > 0 then validLen - 4 else validLen;
    ghost var q := Values(b64[..validLen]);
    var i, cur := DecodeGroups(b64, validLen, len, arr);
    if placeHoldersLen == 4 {
      assert q[..i] == Values(b64[..validLen - 4]);
      FilledToTheEnd(Octets(q[..i]), length);
    } else {
      cur := DecodeTail(b64, validLen, placeHoldersLen, i, arr, cur);
      FilledToTheEnd(Octets(q), length);
    }
    curByte := cur;
    r := Ok(arr);
  }

  /** The branches after the loop: a group of three or of two sextets. */
  method DecodeTail(b64: string, validLen: nat, placeHoldersLen: nat, i: nat, arr: array<Byte>, curByte: nat)
    returns (next: nat)
    requires 0 < validLen <= |b64| && i == validLen / 4 * 4 && curByte == i / 4 * 3
    requires placeHoldersLen == Padding(validLen) && arr.Length == validLen * 3 / 4
    requires arr[..] == Filled(Octets(Values(b64[..validLen])[..i]), arr.Length)
    modifies arr
    ensures next == arr.Length && arr[..] == Filled(Octets(Values(b64[..validLen])), arr.Length)
  {
    hide Octets, RevLookup, First, Second, Third, Filled, PackedTwo, PackedThree, LowOctet, Shr;
    next := curByte;
    ghost var q := Values(b64[..validLen]);
    if placeHoldersLen == 2 {
      next := DecodeTwo(b64, i, arr, next, q, Octets(q[..i]));
    }
    if placeHoldersLen == 1 {
      next := DecodeThree(b64, i, arr, next, q, Octets(q[..i]));
    }
    if placeHoldersLen == 0 {
      assert q[..i] == q;
    } else if placeHoldersLen == 3 {
      LoneSextet(q[..i], q[i]);
      assert q == q[..i] + [q[i]];
    }
  }

  lemma ValuesAt(b64: string, i: nat, n: nat)
    requires i + n <= |b64| && n in {2, 3}
    ensures var q := Values(b64[..i + n]);
            && q[..i] == Values(b64[..i])
            && (n == 2 ==> q == q[..i] + [RevLookup(b64[i]), RevLookup(b64[i + 1])])
            && (n == 3 ==> q == q[..i] + [RevLookup(b64[i]), RevLookup(b64[i + 1]), RevLookup(b64[i + 2])])
  {
    hide RevLookup;
  }

  method DecodeTwo(b64: string, i: nat, arr: array<Byte>, curByte: nat, ghost q: seq<Sextet>, ghost front: seq<Byte>)
    returns (next: nat)
    requires i % 4 == 0 && i + 2 == |q| <= |b64| && q == Values(b64[..|q|])
    requires front == Octets(q[..i]) && curByte == |front| <= arr.Length == |Octets(q)|
    requires arr[..] == Filled(front, arr.Length)
    modifies arr
    ensures next == arr.Length && arr[..] == Filled(Octets(q), arr.Length)
  {
    hide Octets, Values, RevLookup, First, Second, Third, Filled, PackedTwo, LowOctet;
    var a, b := RevLookup(b64[i]), RevLookup(b64[i + 1]);
    Straddle(a, b, 0, 0);
    ValuesAt(b64, i, 2);
    GroupOfTwo(q[..i], a, b);
    next := Append(arr, LowOctet(PackedTwo(a, b)), front, curByte);
  }

  method DecodeThree(b64: string, i: nat, arr: array<Byte>, curByte: nat, ghost q: seq<Sextet>, ghost front: seq<Byte>)
    returns (next: nat)
    requires i % 4 == 0 && i + 3 == |q| <= |b64| && q == Values(b64[..|q|])
    requires front == Octets(q[..i]) && curByte == |front| <= arr.Length == |Octets(q)|
    requires arr[..] == Filled(front, arr.Length)
    modifies arr
    ensures next == arr.Length && arr[..] == Filled(Octets(q), arr.Length)
  {
    hide Octets, Values, RevLookup, First, Second, Third, Filled, PackedThree, LowOctet, Shr;
    var a, b, c := RevLookup(b64[i]), RevLookup(b64[i + 1]), RevLookup(b64[i + 2]);
    var tmp := PackedThree(a, b, c);
    Straddle(a, b, c, 0);
    ValuesAt(b64, i, 3);
    GroupOfThree(q[..i], a, b, c);
    next := AppendTwo(arr, LowOctet(Shr(tmp, 8)), LowOctet(tmp), front, curByte);
  }

  lemma Zeros(length: nat)
    ensures seq(length, _ => 0) == Filled([], length)
  {}

  lemma FilledToTheEnd(front: seq<Byte>, length: nat)
    requires |front| == length || |front| + 2 == length
    ensures Filled(front, length) == if |front| == length then front else front + [0, 0]
  {}

  // ---------- groups ----------

  lemma NoOctets()
    ensures Octets([]) == []
  {}

  lemma {:induction false} OctetsAppend(front: seq<Sextet>, tail: seq<Sextet>)
    requires |front| % 4 == 0
    ensures Octets(front + tail) == Octets(front) + Octets(tail)
  {
    hide First, Second, Third, Octets;
    if front == [] {
      NoOctets();
      assert front + tail == tail;
      assert [] + Octets(tail) == Octets(tail);
    } else {
      var g, rest := front[..4], front[4..];
      var head := [First(g[0], g[1]), Second(g[1], g[2]), Third(g[2], g[3])];
      OctetsAppend(rest, tail);
      assert front == g + rest && front + tail == g + (rest + tail);
      OctetsCons(g, rest);
      OctetsCons(g, rest + tail);
      assert head + (Octets(rest) + Octets(tail)) == head + Octets(rest) + Octets(tail);
    }
  }

  lemma OctetsCons(g: seq<Sextet>, rest: seq<Sextet>)
    requires |g| == 4
    ensures Octets(g + rest) == [First(g[0], g[1]), Second(g[1], g[2]), Third(g[2], g[3])] + Octets(rest)
  {
    hide First, Second, Third;
    assert (g + rest)[4..] == rest;
  }

  // Sextets shifted into place, and the low octet of a number.

  function PackedFour(a: nat, b: nat, c: nat, d: nat): nat {
    Or(Or(Or(Shl(a, 18), Shl(b, 12)), Shl(c, 6)), d)
  }

  function PackedThree(a: nat, b: nat, c: nat): nat {
    Or(Or(Shl(a, 10), Shl(b, 4)), Shr(c, 2))
  }

  function PackedTwo(a: nat, b: nat): nat {
    Or(Shl(a, 2), Shr(b, 4))
  }

  function LowOctet(n: nat): (b: Byte) {
    Masks(n);
    And(n, 0xFF)
  }

  lemma OctetsOf(n: nat)
    ensures LowOctet(Shr(n, 16)) == n / 0x10000 % 256 && LowOctet(Shr(n, 8)) == n / 0x100 % 256
    ensures LowOctet(n) == n % 256
  {
    hide And, Shr;
    Shrs(n);
    Masks(n);
    Masks(n / 0x10000);
    Masks(n / 0x100);
  }

  /** Shifting four sextets together and cutting the result into octets. */
  lemma Straddle(a: int, b: int, c: int, d: int)
    requires 0 <= a < 64 && 0 <= b < 64 && 0 <= c < 64 && 0 <= d < 64
    ensures var tmp := PackedFour(a, b, c, d);
            && LowOctet(Shr(tmp, 16)) == First(a, b) && LowOctet(Shr(tmp, 8)) == Second(b, c)
            && LowOctet(tmp) == Third(c, d)
    ensures var tmp := PackedThree(a, b, c);
            LowOctet(Shr(tmp, 8)) == First(a, b) && LowOctet(tmp) == Second(b, c)
    ensures LowOctet(PackedTwo(a, b)) == First(a, b)
  {
    hide First, Second, Third, LowOctet, Shr, Shl, Or;
    Bits.JoinFour(a, b, c, d);
    Bits.JoinTails(a, b, c);
    OctetsOf(PackedFour(a, b, c, d));
    OctetsOf(PackedThree(a, b, c));
    OctetsOf(PackedTwo(a, b));
    Regrouped(a, b, c, d);
    ThreeOctets(First(a, b), Second(b, c), Third(c, d));
    ThreeOctets(0, First(a, b), Second(b, c));
    ThreeOctets(0, 0, First(a, b));
  }

  lemma Regrouped(a: int, b: int, c: int, d: int)
    requires 0 <= a < 64 && 0 <= b < 64 && 0 <= c < 64 && 0 <= d < 64
    ensures 0 <= First(a, b) < 256 && 0 <= Second(b, c) < 256 && 0 <= Third(c, d) < 256
    ensures a * 0x40000 + b * 4096 + c * 64 + d == First(a, b) * 0x10000 + Second(b, c) * 0x100 + Third(c, d)
    ensures a * 1024 + b * 16 + c / 4 == First(a, b) * 256 + Second(b, c)
    ensures a * 4 + b / 16 == First(a, b)
  {}

  lemma ThreeOctets(x: int, y: int, z: int)
    requires 0 <= x < 256 && 0 <= y < 256 && 0 <= z < 256
    ensures var tmp := x * 0x10000 + y * 0x100 + z;
            tmp / 0x10000 % 256 == x && tmp / 0x100 % 256 == y && tmp % 256 == z
  {
    assert (x * 0x10000 + y * 0x100 + z) / 0x100 == x * 256 + y;
  }

  lemma GroupOfFour(front: seq<Sextet>, a: Sextet, b: Sextet, c: Sextet, d: Sextet)
    requires |front| % 4 == 0
    ensures Octets(front + [a, b, c, d]) == Octets(front) + [First(a, b), Second(b, c), Third(c, d)]
  {
    hide First, Second, Third;
    OctetsAppend(front, [a, b, c, d]);
    OneGroup([a, b, c, d]);
  }

  lemma OneGroup(q: seq<Sextet>)
    requires |q| == 4
    ensures Octets(q) == [First(q[0], q[1]), Second(q[1], q[2]), Third(q[2], q[3])]
  {
    hide First, Second, Third;
    assert q[4..] == [];
  }

  lemma GroupOfThree(front: seq<Sextet>, a: Sextet, b: Sextet, c: Sextet)
    requires |front| % 4 == 0
    ensures Octets(front + [a, b, c]) == Octets(front) + [First(a, b), Second(b, c)]
  {
    OctetsAppend(front, [a, b, c]);
  }

  lemma GroupOfTwo(front: seq<Sextet>, a: Sextet, b: Sextet)
    requires |front| % 4 == 0
    ensures Octets(front + [a, b]) == Octets(front) + [First(a, b)]
  {
    OctetsAppend(front, [a, b]);
  }

  lemma LoneSextet(front: seq<Sextet>, a: Sextet)
    requires |front| % 4 == 0
    ensures Octets(front + [a]) == Octets(front)
  {
    OctetsAppend(front, [a]);
    assert Octets(front) + [] == Octets(front);
  }

  // ---------- filtering ----------

  lemma {:induction false} FilterAppend(a: string, b: string, keep: char -> bool)
    ensures Filter(a + b, keep) == Filter(a, keep) + Filter(b, keep)
  {
    if a == [] {
      assert a + b == b;
    } else {
      FilterAppend(a[1..], b, keep);
      assert (a + b)[0] == a[0] && (a + b)[1..] == a[1..] + b;
      var head := if keep(a[0]) then [a[0]] else [];
      assert head + (Filter(a[1..], keep) + Filter(b, keep)) == head + Filter(a[1..], keep) + Filter(b, keep);
    }
  }

  lemma SpaceIsDropped(c: char)
    requires IsSpace(c)
    ensures !IsAlphabet(c) && Filter([c], IsAlphabet) == []
  {
    assert [c][1..] == [];
  }

  /** Trimming changes nothing, since white space is filtered out anyway. */
  lemma {:induction false} TrimIsSubsumed(s: string)
    ensures Filter(Trim(s), IsAlphabet) == Filter(s, IsAlphabet)
  {
    hide IsSpace, IsAlphabet;
    if s != [] {
      if IsSpace(s[0]) {
        SpaceIsDropped(s[0]);
        TrimIsSubsumed(s[1..]);
      } else if IsSpace(s[|s| - 1]) {
        var front, last := s[..|s| - 1], s[|s| - 1];
        TrimIsSubsumed(front);
        FilterAppend(front, [last], IsAlphabet);
        assert s == front + [last];
        SpaceIsDropped(last);
        assert Filter(front, IsAlphabet) + [] == Filter(front, IsAlphabet);
      }
    }
  }

  // ---------- the Buffer's encoder ----------

  /** Three octets, each shifted and masked. */
  function Triplet(x: nat, y: nat, z: nat): nat {
    And(Shl(x, 16), 0xFF0000) + And(Shl(y, 8), 0xFF00) + And(z, 0xFF)
  }

  function LowSextet(n: nat): (i: Sextet) {
    Masks(n);
    And(n, 0x3F)
  }

  function TripletToBase64(num: nat): string {
    [Lookup(LowSextet(Shr(num, 18))), Lookup(LowSextet(Shr(num, 12))), Lookup(LowSextet(Shr(num, 6))),
     Lookup(LowSextet(num))]
  }

  lemma SextetsOf(n: nat)
    ensures LowSextet(Shr(n, 18)) == n / 0x40000 % 64 && LowSextet(Shr(n, 12)) == n / 4096 % 64
    ensures LowSextet(Shr(n, 6)) == n / 64 % 64 && LowSextet(n) == n % 64
  {
    hide And, Shr;
    Shrs(n);
    Masks(n);
    Masks(n / 0x40000);
    Masks(n / 4096);
    Masks(n / 64);
  }

  /** Three octets as a 24-bit number, read back six bits at a time. */
  lemma SixBits(x: Byte, y: Byte, z: Byte)
    ensures var num := Triplet(x, y, z);
            && LowSextet(Shr(num, 18)) == Top(x) && LowSextet(Shr(num, 12)) == Upper(x, y)
            && LowSextet(Shr(num, 6)) == Lower(y, z) && LowSextet(num) == Bottom(z)
  {
    hide Top, Upper, Lower, Bottom, LowSextet, Shr, Shl, And;
    JoinOctets(x, y, z);
    SextetsOf(Triplet(x, y, z));
    SplitTriplet(x, y, z);
    FourDigits(Top(x), Upper(x, y), Lower(y, z), Bottom(z));
  }

  lemma SplitTriplet(x: Byte, y: Byte, z: Byte)
    ensures x as int * 0x10000 + y as int * 0x100 + z == Joined(Top(x), Upper(x, y), Lower(y, z), Bottom(z))
  {}

  function Joined(p: int, q: int, r: int, t: int): int {
    p * 0x40000 + q * 4096 + r * 64 + t
  }

  lemma FourDigits(p: int, q: int, r: int, t: int)
    requires 0 <= p < 64 && 0 <= q < 64 && 0 <= r < 64 && 0 <= t < 64
    ensures var num := Joined(p, q, r, t);
            num / 0x40000 % 64 == p && num / 4096 % 64 == q && num / 64 % 64 == r && num % 64 == t
  {
    var num := p * 0x40000 + q * 4096 + r * 64 + t;
    assert num / 64 == p * 4096 + q * 64 + r;
    assert num / 4096 == p * 64 + q;
  }

  /** The last group when it holds one or two octets. */
  lemma TailBits(x: Byte, y: Byte)
    ensures Shr(x, 2) == Top(x) && LowSextet(Shl(x, 4)) == Upper(x, 0)
    ensures var num := Shl(x, 8) + y;
            && Shr(num, 10) == Top(x) && LowSextet(Shr(num, 4)) == Upper(x, y)
            && LowSextet(Shl(num, 2)) == Lower(y, 0)
  {
    hide Shr, Shl, And;
    var a: int, b: int := x, y;
    var num := Shl(a, 8) + b;
    Shrs(a);
    Shls(a);
    Masks(a * 16);
    Shrs(num);
    Shls(num);
    Masks(num / 16);
    Masks(num * 4);
    OneOctetTail(a);
    TwoOctetTail(a, b / 16, b % 16);
    assert num == a * 256 + b / 16 * 16 + b % 16;
  }

  lemma OneOctetTail(a: int)
    requires 0 <= a < 256
    ensures a * 16 % 64 == a % 4 * 16
  {
    assert a * 16 == a / 4 * 64 + a % 4 * 16;
  }

  lemma TwoOctetTail(a: int, high: int, low: int)
    requires 0 <= a < 256 && 0 <= high < 16 && 0 <= low < 16
    ensures var num := a * 256 + high * 16 + low;
            num / 1024 == a / 4 && num / 16 % 64 == a % 4 * 16 + high && num * 4 % 64 == low * 4
  {
    MixedDigits(a / 4, a % 4 * 16 + high, low);
  }

  lemma MixedDigits(p: int, q: int, low: int)
    requires 0 <= p < 64 && 0 <= q < 64 && 0 <= low < 16
    ensures var num := p * 1024 + q * 16 + low;
            num / 1024 == p && num / 16 % 64 == q && num * 4 % 64 == low * 4
  {
    var num := p * 1024 + q * 16 + low;
    assert num / 16 == p * 64 + q;
    assert num * 4 == (p * 64 + q) * 64 + low * 4;
  }

  lemma CharsOf(q: seq<Sextet>)
    ensures |q| == 2 ==> Chars(q) == [Lookup(q[0]), Lookup(q[1])]
    ensures |q| == 3 ==> Chars(q) == [Lookup(q[0]), Lookup(q[1]), Lookup(q[2])]
    ensures |q| == 4 ==> Chars(q) == [Lookup(q[0]), Lookup(q[1]), Lookup(q[2]), Lookup(q[3])]
  {
    hide Lookup;
  }

  lemma ShortGroup(b: seq<Byte>)
    ensures |b| == 1 ==> Sextets(b) == [Top(b[0]), Upper(b[0], 0)]
    ensures |b| == 2 ==> Sextets(b) == [Top(b[0]), Upper(b[0], b[1]), Lower(b[1], 0)]
    ensures |b| == 3 ==> Sextets(b) == [Top(b[0]), Upper(b[0], b[1]), Lower(b[1], b[2]), Bottom(b[2])]
  {
    hide Top, Upper, Lower, Bottom;
    if |b| == 3 {
      assert b[3..] == [];
    }
  }

  lemma TripletOf(x: Byte, y: Byte, z: Byte)
    ensures TripletToBase64(Triplet(x, y, z)) == Chars(Sextets([x, y, z]))
  {
    hide Lookup, Chars, Sextets, Top, Upper, Lower, Bottom, Triplet, Shr, LowSextet;
    SixBits(x, y, z);
    ShortGroup([x, y, z]);
    CharsOf(Sextets([x, y, z]));
  }

  lemma {:induction false} SextetsAppend(a: seq<Byte>, b: seq<Byte>)
    requires |a| % 3 == 0
    ensures Sextets(a + b) == Sextets(a) + Sextets(b)
  {
    hide Top, Upper, Lower, Bottom, Sextets;
    if a == [] {
      EmptySextets();
      assert a + b == b;
      assert [] + Sextets(b) == Sextets(b);
    } else {
      SextetsAppend(a[3..], b);
      assert (a + b)[3..] == a[3..] + b;
      FirstGroup(a);
      var head := Sextets(a)[..4];
      FirstGroup(a + b);
      assert head + (Sextets(a[3..]) + Sextets(b)) == head + Sextets(a[3..]) + Sextets(b);
    }
  }

  lemma CharsAppend(p: seq<Sextet>, q: seq<Sextet>)
    ensures Chars(p + q) == Chars(p) + Chars(q)
  {}

  method EncodeChunk(uint8: seq<Byte>, start: nat, end: nat) returns (output: string)
    requires start <= end <= |uint8| && (end - start) % 3 == 0
    ensures output == Chars(Sextets(uint8[start..end]))
  {
    hide Sextets, Chars, TripletToBase64, Triplet;
    output := "";
    var i := start;
    NoSextets();
    assert uint8[start..i] == [];
    ghost var groups, done := (end - start) / 3, 0;
    while i < end
      invariant i == start + 3 * done && end == start + 3 * groups && done <= groups
      invariant output == Chars(Sextets(uint8[start..i]))
    {
      ExtendByTriplet(uint8[start..i], uint8[i], uint8[i + 1], uint8[i + 2]);
      assert uint8[start..i + 3] == uint8[start..i] + [uint8[i], uint8[i + 1], uint8[i + 2]];
      output := output + TripletToBase64(Triplet(uint8[i], uint8[i + 1], uint8[i + 2]));
      i := i + 3;
      done := done + 1;
    }
  }

  lemma ExtendByTriplet(front: seq<Byte>, x: Byte, y: Byte, z: Byte)
    requires |front| % 3 == 0
    ensures Chars(Sextets(front + [x, y, z])) == Chars(Sextets(front)) + TripletToBase64(Triplet(x, y, z))
  {
    hide Sextets, Chars, TripletToBase64, Triplet;
    TripletOf(x, y, z);
    ExtendChars(front, [x, y, z]);
  }

  lemma EmptySextets()
    ensures Sextets([]) == []
  {}

  lemma NoSextets()
    ensures Chars(Sextets([])) == ""
  {}

  lemma ExtendChars(a: seq<Byte>, b: seq<Byte>)
    requires |a| % 3 == 0
    ensures Chars(Sextets(a + b)) == Chars(Sextets(a)) + Chars(Sextets(b))
  {
    SextetsAppend(a, b);
    CharsAppend(Sextets(a), Sextets(b));
  }

  lemma {:induction false} SextetsLength(b: seq<Byte>)
    ensures |b| % 3 == 0 ==> |Sextets(b)| % 4 == 0
    ensures |b| % 3 != 0 ==> |Sextets(b)| % 4 == |b| % 3 + 1
  {
    hide Top, Upper, Lower, Bottom;
    if |b| >= 3 {
      SextetsLength(b[3..]);
      FirstGroup(b);
    }
  }

  lemma PaddingShift(m: nat, n: nat)
    requires m % 4 == 0
    ensures Padding(m + n) == Padding(n)
  {
    assert (m + n) % 4 == n % 4;
  }

  lemma PadOutAppend(p: seq<Sextet>, q: seq<Sextet>)
    requires |p| % 4 == 0
    ensures PadOut(p + q) == Chars(p) + PadOut(q)
  {
    hide Chars, Padding;
    CharsAppend(p, q);
    PaddingShift(|p|, |q|);
    var pad := Repeat('=', Padding(|q|));
    assert Chars(p) + Chars(q) + pad == Chars(p) + (Chars(q) + pad);
  }

  lemma EncodedAppend(a: seq<Byte>, b: seq<Byte>)
    requires |a| % 3 == 0
    ensures Encoded(a + b) == Chars(Sextets(a)) + Encoded(b)
  {
    hide Chars, Sextets, PadOut;
    SextetsAppend(a, b);
    SextetsLength(a);
    PadOutAppend(Sextets(a), Sextets(b));
  }

  const MAX_CHUNK_LENGTH := 16383

  method FromByteArray(uint8: seq<Byte>) returns (text: string)
    ensures text == Encoded(uint8)
  {
    hide Sextets, Chars, Encoded, TailOfOne, TailOfTwo;
    var len := |uint8|;
    var extraBytes := len % 3;
    var len2 := len - extraBytes;
    text := EncodeChunks(uint8, len2, len / 3);
    assert uint8 == uint8[..len2] + uint8[len2..];
    EncodedAppend(uint8[..len2], uint8[len2..]);
    TailText(uint8[len2..]);
    if extraBytes == 1 {
      text := text + TailOfOne(uint8[len - 1]);
    } else if extraBytes == 2 {
      var x: int, y: int := uint8[len - 2], uint8[len - 1];
      Shls(x);
      text := text + TailOfTwo(Shl(x, 8) + y);
    }
  }

  /** The loop over chunks of whole triplets. */
  method EncodeChunks(uint8: seq<Byte>, len2: nat, ghost groups: nat) returns (text: string)
    requires len2 == 3 * groups <= |uint8|
    ensures text == Chars(Sextets(uint8[..len2]))
  {
    hide Sextets, Chars;
    text := "";
    NoSextets();
    var i := 0;
    ghost var done := 0;
    while i < len2
      invariant i == 3 * done
      invariant text == Chars(Sextets(uint8[..Min(i, len2)]))
    {
      var end := if i + MAX_CHUNK_LENGTH > len2 then len2 else i + MAX_CHUNK_LENGTH;
      ghost var more := if end == len2 then groups - done else 5461;
      assert end - i == 3 * more;
      var part := EncodeChunk(uint8, i, end);
      ExtendChars(uint8[..i], uint8[i..end]);
      assert uint8[..end] == uint8[..i] + uint8[i..end];
      text := text + part;
      i := i + MAX_CHUNK_LENGTH;
      done := done + 5461;
    }
  }

  lemma OneSextet(tmp: nat, k: nat, limit: nat)
    requires tmp < limit && ((k == 2 && limit == 0x100) || (k == 10 && limit == 0x10000))
    ensures Shr(tmp, k) < 64
  {
    hide Shr;
    Shrs(tmp);
  }

  function TailOfOne(tmp: int): string
    requires 0 <= tmp < 0x100
  {
    OneSextet(tmp, 2, 0x100);
    [Lookup(Shr(tmp, 2)), Lookup(LowSextet(Shl(tmp, 4)))] + "=="
  }

  function TailOfTwo(tmp: int): string
    requires 0 <= tmp < 0x10000
  {
    OneSextet(tmp, 10, 0x10000);
    [Lookup(Shr(tmp, 10)), Lookup(LowSextet(Shr(tmp, 4))), Lookup(LowSextet(Shl(tmp, 2)))] + "="
  }

  function TailTwo(x: Byte, y: Byte): string {
    Shls(x);
    TailOfTwo(Shl(x, 8) + y)
  }

  /** The last one or two octets as the encoder writes them. */
  lemma TailText(rest: seq<Byte>)
    requires |rest| < 3
    ensures |rest| == 0 ==> Encoded(rest) == ""
    ensures |rest| == 1 ==> Encoded(rest) == TailOfOne(rest[0])
    ensures |rest| == 2 ==> Encoded(rest) == TailTwo(rest[0], rest[1])
  {
    hide Lookup, Chars, Sextets, Top, Upper, Lower, Bottom, Shr, Shl, LowSextet;
    ShortGroup(rest);
    CharsOf(Sextets(rest));
    if |rest| == 0 {
      NoSextets();
    } else if |rest| == 1 {
      TailBits(rest[0], 0);
      assert Repeat('=', 2) == "==";
    } else {
      TailBits(rest[0], rest[1]);
      assert Repeat('=', 1) == "=";
    }
  }

  // ---------- what the codecs promise ----------

  lemma {:induction false} OctetsInvertSextets(b: seq<Byte>)
    ensures Octets(Sextets(b)) == b
  {
    hide First, Second, Third, Top, Upper, Lower, Bottom;
    if |b| == 1 {
      BitsRejoin(b[0], 0, 0);
    } else if |b| == 2 {
      BitsRejoin(b[0], b[1], 0);
    } else if |b| >= 3 {
      OctetsInvertSextets(b[3..]);
      BitsRejoin(b[0], b[1], b[2]);
      FirstGroup(b);
      OctetsCons(Sextets(b)[..4], Sextets(b[3..]));
      assert b == [b[0], b[1], b[2]] + b[3..];
    }
  }

  lemma BitsRejoin(x: Byte, y: Byte, z: Byte)
    ensures First(Top(x), Upper(x, y)) == x && First(Top(x), Upper(x, 0)) == x
    ensures Second(Upper(x, y), Lower(y, z)) == y && Second(Upper(x, y), Lower(y, 0)) == y
    ensures Third(Lower(y, z), Bottom(z)) == z
  {}

  lemma FirstGroup(b: seq<Byte>)
    requires |b| >= 3
    ensures |Sextets(b)| >= 4 && Sextets(b) == Sextets(b)[..4] + Sextets(b[3..])
    ensures Sextets(b)[..4] == [Top(b[0]), Upper(b[0], b[1]), Lower(b[1], b[2]), Bottom(b[2])]
  {
    hide Top, Upper, Lower, Bottom;
  }

  lemma LookupsInvert(i: Sextet)
    ensures RevLookup(Lookup(i)) == i && IsStandard(Lookup(i))
  {}

  lemma ValuesInvertChars(q: seq<Sextet>)
    ensures Values(Chars(q)) == q
  {
    forall i | 0 <= i < |q| ensures RevLookup(Lookup(q[i])) == q[i] {
      LookupsInvert(q[i]);
    }
  }

  predicate AllAlphabet(s: string) {
    forall i :: 0 <= i < |s| ==> IsAlphabet(s[i])
  }

  lemma {:induction false} FilterAll(s: string, keep: char -> bool)
    requires forall i :: 0 <= i < |s| ==> keep(s[i])
    ensures Filter(s, keep) == s
  {
    if s != [] {
      FilterAll(s[1..], keep);
    }
  }

  lemma {:induction false} FilterNone(s: string, keep: char -> bool)
    requires forall i :: 0 <= i < |s| ==> !keep(s[i])
    ensures Filter(s, keep) == []
  {
    if s != [] {
      FilterNone(s[1..], keep);
    }
  }

  /** The octets an unpadded text stands for. */
  function Meaning(s: string): seq<Byte> {
    Octets(Values(s))
  }

  /** A text cut short by padding decodes to what stands before the padding. */
  lemma PaddedByteArray(s: string)
    requires '=' !in s && s != ""
    ensures ByteArray(s + Repeat('=', Padding(|s|))) == Ok(Meaning(s))
  {
    hide Octets, Values, Until;
    var pad := Repeat('=', Padding(|s|));
    UntilIsUnique(s, pad, '=');
    PaddingReaches(|s|, |s + pad|);
    assert (s + pad)[..|s|] == s;
  }

  lemma KeptIsAll(s: string)
    requires AllAlphabet(s)
    ensures '=' !in s && Kept(s) == s
  {
    hide Filter;
    assert s + [] == s;
    UntilIsUnique(s, [], '=');
    assert s[..|s|] == s;
    FilterAll(s, IsAlphabet);
  }

  /** The Buffer path on any unpadded text over either alphabet. */
  lemma BufferDecodesAlphabet(s: string)
    requires AllAlphabet(s)
    ensures ByteArray(Cleaned(s)) == Ok(Meaning(s))
  {
    hide Octets, Kept, AllAlphabet, Padding;
    KeptIsAll(s);
    if |s| >= 2 {
      PaddedByteArray(s);
    } else {
      FewOctets(Values(s));
      FewOctets(Values(""));
    }
  }

  lemma FewOctets(q: seq<Sextet>)
    requires |q| < 2
    ensures Octets(q) == []
  {}

  lemma FilterKeepsAll(s: string)
    requires forall i :: 0 <= i < |s| ==> !IsAsciiSpace(s[i])
    ensures Filter(s, c => !IsAsciiSpace(c)) == s
  {
    FilterAll(s, c => !IsAsciiSpace(c));
  }

  /** The text with the two URL-safe characters put back. */
  function Standard(s: string): (r: string)
    ensures |r| == |s|
  {
    Replace(Replace(s, '-', '+'), '_', '/')
  }

  lemma StandardIsStandard(s: string)
    requires AllAlphabet(s)
    ensures forall i :: 0 <= i < |s| ==> IsStandard(Standard(s)[i]) && Standard(s)[i] != '='
    ensures Values(Standard(s)) == Values(s)
  {}

  /** atob on an unpadded standard text followed by its padding. */
  lemma AtobOfPadded(t: string)
    requires forall i :: 0 <= i < |t| ==> IsStandard(t[i]) && t[i] != '='
    ensures Atob(t + Repeat('=', Padding(|t|))) == if |t| % 4 == 1 then None else Some(Octets(Values(t)))
  {
    hide Octets, Values, IsStandard, Filter;
    var pad := Repeat('=', Padding(|t|));
    var d := t + pad;
    NotSpaces(t, |pad|);
    FilterKeepsAll(d);
    var n := |d|;
    assert n % 4 == 0;
    if |t| % 4 == 0 {
      assert d == t;
    } else if |t| % 4 == 1 {
      assert d[n - 1] == '=' && d[n - 2] == '=';
      EqualsIsNotStandard();
      var e := Stripped(d);
      assert e == d[..n - 2] && e[|t|] == '=';
      assert !IsStandard(e[|t|]);
    } else if |t| % 4 == 2 {
      assert d[..n - 2] == t;
    } else {
      assert d[n - 2] == t[n - 2];
      assert d[..n - 1] == t;
    }
  }

  lemma EqualsIsNotStandard()
    ensures !IsStandard('=')
  {}

  lemma NotSpaces(t: string, padding: nat)
    requires forall i :: 0 <= i < |t| ==> IsStandard(t[i])
    ensures forall i :: 0 <= i < |t| + padding ==> !IsAsciiSpace((t + Repeat('=', padding))[i])
  {}

  /** On an unpadded text over either alphabet base64UrlDecode agrees with the Buffer, and it throws
      exactly when the length leaves a lone character, which the Buffer silently ignores. */
  lemma DecodersAgreeExactlyWithoutLoneCharacter(s: string)
    requires AllAlphabet(s)
    ensures UrlDecoded(s).Some? <==> |s| % 4 != 1
    ensures |s| % 4 != 1 ==> UrlDecoded(s) == Some(Meaning(s)) && ByteArray(Cleaned(s)) == Ok(UrlDecoded(s).value)
    ensures |s| % 4 == 1 ==> ByteArray(Cleaned(s)) == Ok(Meaning(s[..|s| - 1]))
  {
    hide Octets, Values, Atob, ByteArray, Cleaned, Replace;
    StandardIsStandard(s);
    AtobOfPadded(Standard(s));
    BufferDecodesAlphabet(s);
    if |s| % 4 == 1 {
      LoneCharacter(s);
    }
  }

  lemma {:induction false} FilterMembers(s: string, keep: char -> bool, c: char)
    ensures c in Filter(s, keep) <==> c in s && keep(c)
  {
    if s != [] {
      FilterMembers(s[1..], keep, c);
      assert s == [s[0]] + s[1..];
    }
  }

  lemma StrippedMembers(d: string, c: char)
    requires c in d && c != '='
    ensures c in Stripped(d)
  {
    var n := |d|;
    if n > 0 && n % 4 == 0 && d[n - 1] == '=' {
      var i :| 0 <= i < n && d[i] == c;
      assert Stripped(d)[i] == c;
    }
  }

  /** Whatever base64UrlDecode accepts consists of characters of either alphabet, equals signs and white space. */
  lemma AcceptedCharacters(s: string, i: nat)
    requires UrlDecoded(s).Some? && i < |s|
    ensures var c := s[i];
            || c in CODE || c == '-' || c == '_' || c == '='
            || c == ' ' || c == '\t' || c == '\n' || c == '\r' || c == '\U{C}'
  {
    hide Filter, Octets, Values, Stripped, CODE;
    var text := Standard(s) + Repeat('=', Padding(|s|));
    var c := text[i];
    AlphabetIsTheCode(s[i]);
    if c != '=' && !IsAsciiSpace(c) {
      FilterMembers(text, c => !IsAsciiSpace(c), c);
      StrippedMembers(Filter(text, c => !IsAsciiSpace(c)), c);
    }
  }

  lemma LoneCharacter(s: string)
    requires |s| % 4 == 1
    ensures Meaning(s) == Meaning(s[..|s| - 1])
  {
    hide Octets;
    var front := s[..|s| - 1];
    assert s == front + [s[|s| - 1]];
    assert Values(s) == Values(front) + [RevLookup(s[|s| - 1])];
    LoneSextet(Values(front), RevLookup(s[|s| - 1]));
  }

  // ---------- the round trip ----------

  /** Table 2: the alphabet of section 5. */
  function UrlLookup(i: Sextet): char {
    if i == 62 then '-' else if i == 63 then '_' else Lookup(i)
  }

  function UrlChars(q: seq<Sextet>): (s: string)
    ensures |s| == |q|
  {
    seq(|q|, i requires 0 <= i < |q| => UrlLookup(q[i]))
  }

  lemma UrlCharsAreAlphabet(q: seq<Sextet>)
    ensures AllAlphabet(UrlChars(q)) && Values(UrlChars(q)) == q
    ensures forall i :: 0 <= i < |q| ==> UrlChars(q)[i] != '='
  {
    forall i | 0 <= i < |q|
      ensures RevLookup(UrlChars(q)[i]) == q[i] && IsAlphabet(UrlChars(q)[i]) && UrlChars(q)[i] != '='
    {
      UrlLookupInverts(q[i]);
    }
  }

  lemma UrlLookupInverts(i: Sextet)
    ensures RevLookup(UrlLookup(i)) == i && IsAlphabet(UrlLookup(i)) && UrlLookup(i) != '='
  {}

  lemma ReplacedLookup(i: Sextet)
    ensures var c := Lookup(i);
            var d := if c == '+' then '-' else c;
            UrlLookup(i) == if d == '/' then '_' else d
  {}

  /** The two replacements turn the standard alphabet into the URL-safe one. */
  lemma ReplacedChars(q: seq<Sextet>)
    ensures Replace(Replace(Chars(q), '+', '-'), '/', '_') == UrlChars(q)
  {
    hide Lookup, UrlLookup;
    forall i | 0 <= i < |q|
      ensures Replace(Replace(Chars(q), '+', '-'), '/', '_')[i] == UrlChars(q)[i]
    {
      ReplacedLookup(q[i]);
    }
  }

  lemma ReplacedPadding(n: nat)
    ensures Replace(Replace(Repeat('=', n), '+', '-'), '/', '_') == Repeat('=', n)
  {}

  lemma ReplaceAppend(s: string, t: string, from: char, to: char)
    ensures Replace(s + t, from, to) == Replace(s, from, to) + Replace(t, from, to)
  {}

  /** base64UrlEncode writes one URL-safe character for each sextet and nothing else. */
  lemma UrlEncodeIsUnpadded(b: seq<Byte>)
    ensures Base64UrlEncode(b) == UrlChars(Sextets(b))
  {
    hide Sextets, Chars, UrlChars, Replace, IsAlphabet, RevLookup, Padding, Repeat;
    var q := Sextets(b);
    var pad := Repeat('=', Padding(|q|));
    var keep := c => c != '=';
    UrlCharsAreAlphabet(q);
    ReplaceAppend(Chars(q), pad, '+', '-');
    ReplaceAppend(Replace(Chars(q), '+', '-'), Replace(pad, '+', '-'), '/', '_');
    ReplacedChars(q);
    ReplacedPadding(Padding(|q|));
    FilterAppend(UrlChars(q), pad, keep);
    FilterAll(UrlChars(q), keep);
    FilterNone(pad, keep);
    assert UrlChars(q) + [] == UrlChars(q);
  }

  /** Every octet sequence survives: encoded without padding it decodes to itself through
      base64UrlDecode and through base64clean with toByteArray. */
  lemma RoundTrip(b: seq<Byte>)
    ensures UrlDecoded(Base64UrlEncode(b)) == Some(b)
    ensures ByteArray(Cleaned(Base64UrlEncode(b))) == Ok(b)
  {
    hide Octets, Values, UrlDecoded, ByteArray, Cleaned, Base64UrlEncode, UrlChars, AllAlphabet, Sextets;
    UrlEncodeIsUnpadded(b);
    var s := UrlChars(Sextets(b));
    UrlCharsAreAlphabet(Sextets(b));
    OctetsInvertSextets(b);
    SextetsLength(b);
    DecodersAgreeExactlyWithoutLoneCharacter(s);
  }

  /** The padded text round-trips through the Buffer as well, whichever encoder wrote it. */
  lemma PaddedRoundTrip(b: seq<Byte>)
    ensures ByteArray(Encoded(b)) == Ok(b) && Atob(Encoded(b)) == Some(b)
  {
    hide Octets, Values, Sextets, Chars, Atob;
    var q := Sextets(b);
    var pad := Repeat('=', Padding(|q|));
    CharsAreStandard(q);
    if q != [] {
      PaddedByteArray(Chars(q));
    } else {
      NoOctets();
    }
    ValuesInvertChars(q);
    OctetsInvertSextets(b);
    SextetsLength(b);
    AtobOfPadded(Chars(q));
  }

  lemma CharsAreStandard(q: seq<Sextet>)
    ensures forall i :: 0 <= i < |q| ==> IsStandard(Chars(q)[i]) && Chars(q)[i] != '='
  {
    forall i | 0 <= i < |q| ensures IsStandard(Chars(q)[i]) && Chars(q)[i] != '=' {
      LookupsInvert(q[i]);
    }
  }

  // ---------- the strict decoder ----------

  predicate IsUrl(c: char) {
    'A' <= c <= 'Z' || 'a' <= c <= 'z' || '0' <= c <= '9' || c == '-' || c == '_'
  }

  predicate AllUrl(s: string) {
    forall i :: 0 <= i < |s| ==> IsUrl(s[i])
  }

  /** No lone sextet, and no bits left over in the last one. */
  predicate Canonical(q: seq<Sextet>) {
    && |q| % 4 != 1
    && (|q| % 4 == 2 ==> q[|q| - 1] % 16 == 0)
    && (|q| % 4 == 3 ==> q[|q| - 1] % 4 == 0)
  }

  /** The decoder of unpadded URL-safe text that rejects padding, foreign characters and leftover bits. */
  function StrictDecode(s: string): Option<seq<Byte>> {
    if AllUrl(s) && Canonical(Values(s)) then Some(Octets(Values(s))) else None
  }

  lemma SplitSextets(a: Sextet, b: Sextet, c: Sextet, d: Sextet)
    ensures Top(First(a, b)) == a && Upper(First(a, b), Second(b, c)) == b
    ensures Lower(Second(b, c), Third(c, d)) == c && Bottom(Third(c, d)) == d
    ensures b % 16 == 0 ==> Upper(First(a, b), 0) == b
    ensures c % 4 == 0 ==> Lower(Second(b, c), 0) == c
  {}

  lemma CanonicalRest(q: seq<Sextet>)
    requires |q| >= 4
    ensures Canonical(q[4..]) == Canonical(q)
  {
    assert |q[4..]| % 4 == |q| % 4;
  }

  lemma {:induction false} SextetsInvertOctets(q: seq<Sextet>)
    requires Canonical(q)
    ensures Sextets(Octets(q)) == q
  {
    hide First, Second, Third, Top, Upper, Lower, Bottom;
    if |q| == 2 {
      SplitSextets(q[0], q[1], 0, 0);
    } else if |q| == 3 {
      SplitSextets(q[0], q[1], q[2], 0);
    } else if |q| >= 4 {
      CanonicalRest(q);
      SextetsInvertOctets(q[4..]);
      SplitSextets(q[0], q[1], q[2], q[3]);
      var b := Octets(q);
      assert b[3..] == Octets(q[4..]);
      FirstGroup(b);
      assert q == [q[0], q[1], q[2], q[3]] + q[4..];
    }
  }

  lemma {:induction false} SextetsAreCanonical(b: seq<Byte>)
    ensures Canonical(Sextets(b))
  {
    if |b| >= 3 {
      SextetsAreCanonical(b[3..]);
      FirstGroup(b);
      CanonicalRest(Sextets(b));
      assert Sextets(b)[4..] == Sextets(b[3..]);
    }
  }

  lemma UrlCharsAreUrl(q: seq<Sextet>)
    ensures AllUrl(UrlChars(q))
  {}

  lemma UrlInverts(c: char)
    requires IsUrl(c)
    ensures UrlLookup(RevLookup(c)) == c
  {}

  lemma UrlCharsInvertValues(s: string)
    requires AllUrl(s)
    ensures UrlChars(Values(s)) == s
  {
    forall i | 0 <= i < |s| ensures UrlLookup(RevLookup(s[i])) == s[i] {
      UrlInverts(s[i]);
    }
  }

  /** The strict decoder accepts exactly the unpadded URL-safe encodings, each as what it encodes. */
  lemma StrictDecodeExactlyInvertsEncoding(s: string, b: seq<Byte>)
    ensures StrictDecode(s) == Some(b) <==> s == UrlChars(Sextets(b))
  {
    hide UrlChars, Values, Sextets, Octets, Canonical, AllUrl;
    if StrictDecode(s) == Some(b) {
      SextetsInvertOctets(Values(s));
      UrlCharsInvertValues(s);
    }
    if s == UrlChars(Sextets(b)) {
      UrlCharsAreUrl(Sextets(b));
      UrlCharsAreAlphabet(Sextets(b));
      SextetsAreCanonical(b);
      OctetsInvertSextets(b);
    }
  }
}
