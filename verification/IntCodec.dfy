/** Signed integers of any byte width in a Buffer: readIntLE, readIntBE, writeIntLE, writeIntBE.
    A JavaScript number is exact for the widths the Buffer interface offers (1 to 6);
    over the integers the results hold for every width. */
module IntCodec {
  import opened Common

  // ---------- JavaScript arithmetic ----------

  /** The quotient rounded toward zero, as division followed by >> rounds it. */
  function Truncate(v: int, m: int): int
    requires m > 0
  {
    if v >= 0 then v / m else -(-v / m)
  }

  /** Conversion to a signed 32-bit integer, which >> 0 performs. */
  function ToInt32(x: int): int {
    (x + 0x8000_0000) % 0x1_0000_0000 - 0x8000_0000
  }

  /** x & 0xFF on a number. */
  function LowByte(x: int): Byte {
    ToInt32(x) % 256
  }

  // ---------- two's complement ----------

  function Pow256(n: nat): int {
    if n == 0 then 1 else 256 * Pow256(n - 1)
  }

  /** `v` is representable in `n` octets. */
  predicate Fits(v: int, n: nat)
    requires n > 0
  {
    -(128 * Pow256(n - 1)) <= v < 128 * Pow256(n - 1)
  }

  /** The low `n` base-256 digits of `v`, least significant first; dividing rounds
      down, which for a negative number is what two's complement means. */
  function Octets(v: int, n: nat): (s: seq<Byte>)
    ensures |s| == n
    decreases n
  {
    if n == 0 then [] else [v % 256] + Octets(v / 256, n - 1)
  }

  /** What is left of `v` above its low `n` digits. */
  function High(v: int, n: nat): int
    decreases n
  {
    if n == 0 then v else High(v / 256, n - 1)
  }

  function Unsigned(s: seq<Byte>): int {
    if s == [] then 0 else s[0] + 256 * Unsigned(s[1..])
  }

  function Signed(s: seq<Byte>): int
    requires s != []
  {
    var u := Unsigned(s);
    if u >= 128 * Pow256(|s| - 1) then u - Pow256(|s|) else u
  }

  function Reverse(s: seq<Byte>): (r: seq<Byte>)
    ensures |r| == |s|
  {
    if s == [] then [] else Reverse(s[1..]) + [s[0]]
  }

  // ---------- laws of two's complement ----------

  lemma {:induction false} UnsignedRange(s: seq<Byte>)
    ensures 0 <= Unsigned(s) < Pow256(|s|)
  {
    if s != [] {
      UnsignedRange(s[1..]);
    }
  }

  /** The digits and the rest make up the number, whatever its sign. */
  lemma {:induction false} Positional(v: int, n: nat)
    ensures v == Unsigned(Octets(v, n)) + Pow256(n) * High(v, n)
    decreases n
  {
    if n > 0 {
      Positional(v / 256, n - 1);
      var u, p, h := Unsigned(Octets(v / 256, n - 1)), Pow256(n - 1), High(v / 256, n - 1);
      assert Octets(v, n)[1..] == Octets(v / 256, n - 1);
      Distribute(u, p, h);
    }
  }

  lemma Distribute(u: int, p: int, h: int)
    ensures 256 * (u + p * h) == 256 * u + (256 * p) * h
  {}

  lemma {:induction false} OctetsOfUnsigned(s: seq<Byte>)
    ensures Octets(Unsigned(s), |s|) == s
  {
    if s != [] {
      OctetsOfUnsigned(s[1..]);
      HeadAndRest(s[0], Unsigned(s[1..]));
      assert s == [s[0]] + s[1..];
    }
  }

  lemma HeadAndRest(d: int, rest: int)
    requires 0 <= d < 256
    ensures (d + 256 * rest) % 256 == d && (d + 256 * rest) / 256 == rest
  {}

  lemma {:induction false} OctetsIgnoreTheModulus(v: int, n: nat)
    ensures Octets(v - Pow256(n), n) == Octets(v, n)
    decreases n
  {
    if n > 0 {
      var p := Pow256(n - 1);
      assert (v - 256 * p) % 256 == v % 256 && (v - 256 * p) / 256 == v / 256 - p;
      OctetsIgnoreTheModulus(v / 256, n - 1);
    }
  }

  lemma Multiples(m: int, k: int)
    requires m > 0
    ensures k >= 1 ==> m * k >= m
    ensures k <= -1 ==> m * k <= -m
    ensures k <= -2 ==> m * k <= -2 * m
  {}

  lemma CongruentInRange(u: int, v: int, k: int, m: int)
    requires v == u + m * k && 0 <= u < m && -m <= 2 * v < m
    ensures v == if 2 * u >= m then u - m else u
  {
    Multiples(m, k);
    assert k == 0 || k == -1;
  }

  /** Octets and Signed are inverse to each other on the numbers that fit. */
  lemma SignedOfOctets(v: int, n: nat)
    requires n > 0 && Fits(v, n)
    ensures Signed(Octets(v, n)) == v
  {
    Positional(v, n);
    UnsignedRange(Octets(v, n));
    CongruentInRange(Unsigned(Octets(v, n)), v, High(v, n), Pow256(n));
  }

  lemma OctetsOfSigned(s: seq<Byte>)
    requires s != []
    ensures Fits(Signed(s), |s|) && Octets(Signed(s), |s|) == s
  {
    hide Octets, Unsigned;
    UnsignedRange(s);
    OctetsOfUnsigned(s);
    OctetsIgnoreTheModulus(Unsigned(s), |s|);
    assert Pow256(|s|) == 256 * Pow256(|s| - 1);
  }

  // ---------- digit by digit ----------

  lemma {:induction false} OctetsGrow(v: int, n: nat)
    ensures Octets(v, n + 1) == Octets(v, n) + [High(v, n) % 256]
    decreases n
  {
    if n > 0 {
      OctetsGrow(v / 256, n - 1);
    }
  }

  lemma {:induction false} UnsignedGrow(s: seq<Byte>, d: Byte)
    ensures Unsigned(s + [d]) == Unsigned(s) + d * Pow256(|s|)
  {
    if s == [] {
      assert s + [d] == [d];
    } else {
      UnsignedGrow(s[1..], d);
      assert (s + [d])[1..] == s[1..] + [d];
      var x: int, p := d, Pow256(|s| - 1);
      assert 256 * (x * p) == x * (256 * p);
    }
  }

  /** Quotient and remainder by a power of 256 are what lies above and below a digit. */
  lemma DivideByPower(v: int, n: nat)
    ensures Pow256(n) > 0 && v / Pow256(n) == High(v, n) && v % Pow256(n) == Unsigned(Octets(v, n))
  {
    Positional(v, n);
    UnsignedRange(Octets(v, n));
    QuotientIsUnique(v, Pow256(n), High(v, n), Unsigned(Octets(v, n)));
  }

  lemma QuotientIsUnique(v: int, m: int, q: int, r: int)
    requires m > 0 && v == m * q + r && 0 <= r < m
    ensures v / m == q && v % m == r
  {
    var d := v / m - q;
    assert m * d == r - v % m;
    Multiples(m, d);
  }

  /** The truncated quotient exceeds the floor exactly when a negative value has a nonzero remainder. */
  lemma BorrowRepairsTruncation(v: int, m: int)
    requires m > 0
    ensures v / m == Truncate(v, m) - (if v < 0 && v % m != 0 then 1 else 0)
  {
    if v < 0 {
      var q, r := -v / m, -v % m;
      assert -v == m * q + r;
      if r == 0 {
        assert v == m * -q;
        QuotientIsUnique(v, m, -q, 0);
      } else {
        assert v == m * (-q - 1) + (m - r);
        QuotientIsUnique(v, m, -q - 1, m - r);
      }
    }
  }

  /** The borrow the write loops keep in `sub` once the low `n` octets are out. */
  function Borrow(v: int, n: nat): int {
    if v < 0 && Unsigned(Octets(v, n)) != 0 then 1 else 0
  }

  lemma BorrowGrows(v: int, n: nat)
    ensures Borrow(v, n + 1) == if v < 0 && Borrow(v, n) == 0 && High(v, n) % 256 != 0 then 1 else Borrow(v, n)
  {
    hide Octets, High, Unsigned, Pow256;
    OctetsGrow(v, n);
    UnsignedGrow(Octets(v, n), High(v, n) % 256);
    UnsignedRange(Octets(v, n));
    ZeroSum(Unsigned(Octets(v, n)), High(v, n) % 256, Pow256(n));
  }

  lemma ZeroSum(u: int, d: int, p: int)
    requires u >= 0 && d >= 0 && p > 0
    ensures u + d * p == 0 <==> u == 0 && d == 0
  {
    if d > 0 {
      assert d * p >= p;
    }
  }

  /** One written octet: the low byte of the truncated quotient less the borrow is a digit
      of the two's complement form. */
  lemma WrittenOctet(v: int, n: nat)
    ensures Pow256(n) > 0
    ensures LowByte(ToInt32(Truncate(v, Pow256(n))) - Borrow(v, n)) == High(v, n) % 256
  {
    DivideByPower(v, n);
    BorrowRepairsTruncation(v, Pow256(n));
    WrapsHarmlessly(Truncate(v, Pow256(n)), Borrow(v, n));
  }

  lemma WrapsHarmlessly(t: int, sub: int)
    ensures LowByte(ToInt32(t) - sub) == (t - sub) % 256
  {
    var x := ToInt32(t) - sub;
    var k, j := (t + 0x8000_0000) / 0x1_0000_0000, (x + 0x8000_0000) / 0x1_0000_0000;
    assert ToInt32(t) == t - 0x1_0000_0000 * k;
    assert ToInt32(x) == (t - sub) + 256 * (-0x100_0000 * (k + j));
    MultiplesVanish(t - sub, -0x100_0000 * (k + j));
  }

  lemma MultiplesVanish(x: int, c: int)
    ensures (x + 256 * c) % 256 == x % 256
  {}

  /** What one turn of a write loop does once `n` octets are out. */
  lemma WriteStep(v: int, n: nat)
    requires n > 0
    ensures Pow256(n) > 0 && Pow256(n) == 256 * Pow256(n - 1)
    ensures Borrow(v, n) == if v < 0 && Borrow(v, n - 1) == 0 && Octets(v, n)[n - 1] != 0 then 1 else Borrow(v, n - 1)
    ensures Octets(v, n + 1) == Octets(v, n) + [LowByte(ToInt32(Truncate(v, Pow256(n))) - Borrow(v, n))]
  {
    OctetsGrow(v, n - 1);
    BorrowGrows(v, n - 1);
    WrittenOctet(v, n);
    OctetsGrow(v, n);
  }

  lemma FirstOctet(v: int)
    ensures Octets(v, 1) == [LowByte(v)] && Borrow(v, 0) == 0 && Pow256(0) == 1
  {
    WrapsHarmlessly(v, 0);
  }

  lemma {:induction false} ReverseGrow(s: seq<Byte>, x: Byte)
    ensures Reverse(s + [x]) == [x] + Reverse(s)
  {
    if s == [] {
      assert s + [x] == [x];
    } else {
      assert (s + [x])[1..] == s[1..] + [x];
      ReverseGrow(s[1..], x);
    }
  }

  /** `before` with the window [lo, hi) holding the digits, most significant first. */
  function Image(before: seq<Byte>, lo: nat, digits: seq<Byte>, hi: nat): (s: seq<Byte>)
    requires lo + |digits| == hi <= |before|
    ensures |s| == |before|
  {
    before[..lo] + Reverse(digits) + before[hi..]
  }

  lemma ImageStart(before: seq<Byte>, hi: nat)
    requires hi <= |before|
    ensures Image(before, hi, [], hi) == before
  {}

  lemma ImageGrows(before: seq<Byte>, lo: nat, digits: seq<Byte>, hi: nat, x: Byte)
    requires 0 < lo && lo + |digits| == hi <= |before|
    ensures Image(before, lo, digits, hi)[lo - 1 := x] == Image(before, lo - 1, digits + [x], hi)
  {
    ReverseGrow(digits, x);
    var r := Reverse(digits);
    assert (before[..lo] + r + before[hi..])[lo - 1 := x] == before[..lo - 1] + ([x] + r) + before[hi..];
  }

  lemma ImageFront(before: seq<Byte>, lo: nat, digits: seq<Byte>, hi: nat)
    requires digits != [] && lo + |digits| == hi <= |before|
    ensures Image(before, lo, digits, hi)[lo] == digits[|digits| - 1]
  {
    var front, last := digits[..|digits| - 1], digits[|digits| - 1];
    assert digits == front + [last];
    ReverseGrow(front, last);
  }

  lemma ImageFrames(before: seq<Byte>, lo: nat, digits: seq<Byte>, hi: nat)
    requires lo + |digits| == hi <= |before|
    ensures var s := Image(before, lo, digits, hi);
            Window(s, lo, |digits|) == Reverse(digits) && OnlyWindowChanged(before, s, lo, |digits|)
  {
    Parts(before[..lo], Reverse(digits), before[hi..]);
  }

  lemma Parts(a: seq<Byte>, b: seq<Byte>, c: seq<Byte>)
    ensures (a + b + c)[..|a|] == a
    ensures (a + b + c)[|a|..|a| + |b|] == b
    ensures (a + b + c)[|a| + |b|..] == c
  {}

  // ---------- the Buffer methods ----------

  datatype RangeError = OutOfBounds | ValueOutOfRange

  function Window(s: seq<Byte>, offset: nat, n: nat): seq<Byte>
    requires offset + n <= |s|
  {
    s[offset..offset + n]
  }

  /** Everything but the window is as it was. */
  ghost predicate OnlyWindowChanged(before: seq<Byte>, after: seq<Byte>, offset: nat, n: nat) {
    && |after| == |before|
    && offset + n <= |before|
    && after[..offset] == before[..offset]
    && after[offset + n..] == before[offset + n..]
  }

  /** The value is checked before the bounds; the answer is the offset behind what was written. */
  method WriteIntLE(buf: array<Byte>, value: int, offset: nat, byteLength: nat) returns (r: Result<nat, RangeError>)
    requires byteLength > 0
    modifies buf
    ensures r == if !Fits(value, byteLength) then Err(ValueOutOfRange)
                 else if offset + byteLength > buf.Length then Err(OutOfBounds)
                 else Ok(offset + byteLength)
    ensures r.Err? ==> buf[..] == old(buf[..])
    ensures r.Ok? ==> Window(buf[..], offset, byteLength) == Octets(value, byteLength)
    ensures r.Ok? ==> OnlyWindowChanged(old(buf[..]), buf[..], offset, byteLength)
  {
    hide Octets, LowByte, ToInt32, Truncate, Borrow, Pow256;
    var limit := 128 * Pow256(byteLength - 1);
    if value > limit - 1 || value < -limit { return Err(ValueOutOfRange); }
    if offset + byteLength > buf.Length { return Err(OutOfBounds); }

    FirstOctet(value);
    var i, mul, sub := 1, 1, 0;
    buf[offset] := LowByte(value);
    assert buf[offset..offset + 1] == [buf[offset]];
    while i < byteLength
      invariant 1 <= i <= byteLength
      invariant mul == Pow256(i - 1) && sub == Borrow(value, i - 1)
      invariant buf[offset..offset + i] == Octets(value, i)
      invariant buf[..offset] == old(buf[..offset])
      invariant buf[offset + byteLength..] == old(buf[offset + byteLength..])
    {
      mul := mul * 0x100;
      WriteStep(value, i);
      assert buf[offset + i - 1] == buf[offset..offset + i][i - 1];
      if value < 0 && sub == 0 && buf[offset + i - 1] != 0 {
        sub := 1;
      }
      buf[offset + i] := LowByte(ToInt32(Truncate(value, mul)) - sub);
      assert buf[offset..offset + i + 1] == buf[offset..offset + i] + [buf[offset + i]];
      i := i + 1;
    }
    r := Ok(offset + byteLength);
  }

  method WriteIntBE(buf: array<Byte>, value: int, offset: nat, byteLength: nat) returns (r: Result<nat, RangeError>)
    requires byteLength > 0
    modifies buf
    ensures r == if !Fits(value, byteLength) then Err(ValueOutOfRange)
                 else if offset + byteLength > buf.Length then Err(OutOfBounds)
                 else Ok(offset + byteLength)
    ensures r.Err? ==> buf[..] == old(buf[..])
    ensures r.Ok? ==> Window(buf[..], offset, byteLength) == Reverse(Octets(value, byteLength))
    ensures r.Ok? ==> OnlyWindowChanged(old(buf[..]), buf[..], offset, byteLength)
  {
    var limit := 128 * Pow256(byteLength - 1);
    if value > limit - 1 || value < -limit { return Err(ValueOutOfRange); }
    if offset + byteLength > buf.Length { return Err(OutOfBounds); }

    FillBE(buf, value, offset, byteLength);
    ImageFrames(old(buf[..]), offset, Octets(value, byteLength), offset + byteLength);
    r := Ok(offset + byteLength);
  }

  /** The loop of writeIntBE: the low octet goes last, and the rest in front of it one by one. */
  method FillBE(buf: array<Byte>, value: int, offset: nat, byteLength: nat)
    requires byteLength > 0 && offset + byteLength <= buf.Length
    modifies buf
    ensures buf[..] == Image(old(buf[..]), offset, Octets(value, byteLength), offset + byteLength)
  {
    hide Octets, LowByte, ToInt32, Truncate, Borrow, Pow256, Image;
    FirstOctet(value);
    ghost var before, hi := buf[..], offset + byteLength;
    ghost var digits := [LowByte(value)];  // written so far
    var i, mul, sub := byteLength - 1, 1, 0;
    ImageStart(before, hi);
    ImageGrows(before, hi, [], hi, LowByte(value));
    assert [] + digits == digits;
    buf[offset + i] := LowByte(value);
    i := i - 1;
    while i >= 0
      invariant |digits| == byteLength - 1 - i && 1 <= |digits| <= byteLength
      invariant digits == Octets(value, |digits|)
      invariant mul == Pow256(|digits| - 1) && sub == Borrow(value, |digits| - 1)
      invariant buf[..] == Image(before, offset + i + 1, digits, hi)
    {
      mul := mul * 0x100;
      WriteStep(value, |digits|);
      ghost var now := buf[..];
      ImageFront(before, offset + i + 1, digits, hi);
      assert buf[offset + i + 1] == now[offset + i + 1];
      if value < 0 && sub == 0 && buf[offset + i + 1] != 0 {
        sub := 1;
      }
      var octet := LowByte(ToInt32(Truncate(value, mul)) - sub);
      ImageGrows(before, offset + i + 1, digits, hi, octet);
      buf[offset + i] := octet;
      assert buf[..] == now[offset + i := octet];
      digits := digits + [octet];
      i := i - 1;
    }
  }

  method ReadIntLE(buf: array<Byte>, offset: nat, byteLength: nat) returns (r: Result<int, RangeError>)
    requires byteLength > 0
    ensures r == if offset + byteLength > buf.Length then Err(OutOfBounds)
                 else Ok(Signed(Window(buf[..], offset, byteLength)))
  {
    if offset + byteLength > buf.Length { return Err(OutOfBounds); }
    var val: int, mul: int := buf[offset], 1;
    var i := 1;
    assert buf[offset..offset + 1] == [buf[offset]];
    while i < byteLength
      invariant 1 <= i <= byteLength
      invariant mul == Pow256(i - 1) && val == Unsigned(buf[offset..offset + i])
    {
      mul := mul * 0x100;
      UnsignedGrow(buf[offset..offset + i], buf[offset + i]);
      assert buf[offset..offset + i + 1] == buf[offset..offset + i] + [buf[offset + i]];
      val := val + buf[offset + i] * mul;
      i := i + 1;
    }
    mul := mul * 0x80;
    if val >= mul { val := val - Pow256(byteLength); }
    assert buf[..][offset..offset + byteLength] == buf[offset..offset + byteLength];
    r := Ok(val);
  }

  method ReadIntBE(buf: array<Byte>, offset: nat, byteLength: nat) returns (r: Result<int, RangeError>)
    requires byteLength > 0
    ensures r == if offset + byteLength > buf.Length then Err(OutOfBounds)
                 else Ok(Signed(Reverse(Window(buf[..], offset, byteLength))))
  {
    if offset + byteLength > buf.Length { return Err(OutOfBounds); }
    var i, mul: int := byteLength - 1, 1;
    var val: int := buf[offset + i];
    assert buf[offset + i..offset + byteLength] == [buf[offset + i]];
    while i > 0
      invariant 0 <= i < byteLength
      invariant mul == Pow256(byteLength - 1 - i)
      invariant val == Unsigned(Reverse(buf[offset + i..offset + byteLength]))
    {
      mul := mul * 0x100;
      i := i - 1;
      var later := buf[offset + i + 1..offset + byteLength];
      assert buf[offset + i..offset + byteLength] == [buf[offset + i]] + later;
      assert ([buf[offset + i]] + later)[1..] == later;
      UnsignedGrow(Reverse(later), buf[offset + i]);
      val := val + buf[offset + i] * mul;
    }
    mul := mul * 0x80;
    if val >= mul { val := val - Pow256(byteLength); }
    assert buf[offset + 0..offset + byteLength] == Window(buf[..], offset, byteLength);
    r := Ok(val);
  }

  // ---------- a value written is the value read ----------

  lemma {:induction false} ReverseTwice(s: seq<Byte>)
    ensures Reverse(Reverse(s)) == s
  {
    if s != [] {
      ReverseGrow(Reverse(s[1..]), s[0]);
      ReverseTwice(s[1..]);
    }
  }

  /** Both byte orders give back every value that fits. */
  lemma RoundTrip(value: int, byteLength: nat)
    requires byteLength > 0 && Fits(value, byteLength)
    ensures Signed(Octets(value, byteLength)) == value
    ensures Signed(Reverse(Reverse(Octets(value, byteLength)))) == value
  {
    SignedOfOctets(value, byteLength);
    ReverseTwice(Octets(value, byteLength));
  }

  method WriteThenRead(buf: array<Byte>, value: int, offset: nat, byteLength: nat, bigEndian: bool)
    returns (r: Result<int, RangeError>)
    requires byteLength > 0 && Fits(value, byteLength) && offset + byteLength <= buf.Length
    modifies buf
    ensures r == Ok(value)
  {
    RoundTrip(value, byteLength);
    if bigEndian {
      var _ := WriteIntBE(buf, value, offset, byteLength);
      r := ReadIntBE(buf, offset, byteLength);
    } else {
      var _ := WriteIntLE(buf, value, offset, byteLength);
      r := ReadIntLE(buf, offset, byteLength);
    }
  }
}
