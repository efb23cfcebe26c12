/** The bit operators of the sources on non-negative numbers, binary digit by binary digit, and the
    arithmetic they amount to where the codecs use them. All operands stay below 2^31, so JavaScript's
    conversion to 32 bits does nothing. */
module Bits {
  function Pow2(k: nat): (p: nat)
    ensures p > 0
  {
    if k == 0 then 1 else 2 * Pow2(k - 1)
  }

  /** x >> k */
  function Shr(x: nat, k: nat): nat {
    if k == 0 then x else Shr(x / 2, k - 1)
  }

  /** x << k */
  function Shl(x: nat, k: nat): nat
    decreases k
  {
    if k == 0 then x else Shl(2 * x, k - 1)
  }

  /** x & y */
  function And(x: nat, y: nat): nat {
    if x == 0 || y == 0 then 0 else 2 * And(x / 2, y / 2) + (if x % 2 == 1 && y % 2 == 1 then 1 else 0)
  }

  /** x | y */
  function Or(x: nat, y: nat): nat {
    if x == 0 then y
    else if y == 0 then x
    else 2 * Or(x / 2, y / 2) + (if x % 2 == 1 || y % 2 == 1 then 1 else 0)
  }

  // ---------- laws ----------

  lemma HalfThenDivide(x: nat, p: nat)
    requires p > 0
    ensures x / 2 / p == x / (2 * p) && x % (2 * p) == 2 * (x / 2 % p) + x % 2
  {
    var q, r := x / 2 / p, x / 2 % p;
    assert x == 2 * (q * p + r) + x % 2;
    Quotient(x, 2 * p, q, 2 * r + x % 2);
  }

  lemma Quotient(x: int, m: int, q: int, r: int)
    requires 0 <= r < m && x == 2 * (q * (m / 2)) + r && m % 2 == 0
    ensures x / m == q && x % m == r
  {
    assert x == q * m + r by { Regroup(q, m / 2); }
    Unique(x, m, q, r);
  }

  lemma Regroup(q: int, h: int)
    ensures 2 * (q * h) == q * (2 * h)
  {}

  lemma Unique(x: int, m: int, q: int, r: int)
    requires 0 <= r < m && x == q * m + r
    ensures x / m == q && x % m == r
  {
    var d := x / m - q;
    assert d * m == r - x % m;
    Multiple(d, m);
  }

  lemma Multiple(d: int, m: int)
    requires m > 0
    ensures d >= 1 ==> d * m >= m
    ensures d <= -1 ==> d * m <= -m
  {}

  lemma {:induction false} ShrDivides(x: nat, k: nat)
    ensures Shr(x, k) == x / Pow2(k)
    decreases k
  {
    if k > 0 {
      ShrDivides(x / 2, k - 1);
      HalfThenDivide(x, Pow2(k - 1));
    }
  }

  lemma {:induction false} ShlMultiplies(x: nat, k: nat)
    ensures Shl(x, k) == x * Pow2(k)
    decreases k
  {
    if k > 0 {
      ShlMultiplies(2 * x, k - 1);
      Regroup(x, Pow2(k - 1));
    }
  }

  /** A mask of k ones keeps the remainder. */
  lemma {:induction false} LowMask(x: nat, k: nat)
    ensures And(x, Pow2(k) - 1) == x % Pow2(k)
    decreases k
  {
    if k > 0 && x > 0 {
      LowMask(x / 2, k - 1);
      HalfThenDivide(x, Pow2(k - 1));
      assert (Pow2(k) - 1) / 2 == Pow2(k - 1) - 1 && (Pow2(k) - 1) % 2 == 1;
    } else if x == 0 {
      ZeroRemains(Pow2(k));
    }
  }

  lemma ZeroRemains(p: nat)
    requires p > 0
    ensures 0 % p == 0
  {}

  /** A mask with k zeros at the end picks out the digits above them. */
  lemma {:induction false} HighMask(x: nat, m: nat, k: nat)
    ensures And(x, Shl(m, k)) == Shl(And(Shr(x, k), m), k)
    decreases k
  {
    if k > 0 {
      HighMask(x / 2, m, k - 1);
      ShiftsOut(m, k);
      ShiftsOut(And(Shr(x, k), m), k);
    }
  }

  lemma {:induction false} ShiftsOut(m: nat, k: nat)
    requires k > 0
    ensures Shl(m, k) == 2 * Shl(m, k - 1)
    decreases k
  {
    if k > 1 {
      ShiftsOut(2 * m, k - 1);
    }
  }

  /** Without common digits an OR adds. */
  lemma {:induction false} OrAdds(x: nat, y: nat, k: nat)
    requires y < Pow2(k)
    ensures Or(Shl(x, k), y) == Shl(x, k) + y && Or(y, Shl(x, k)) == Shl(x, k) + y
    decreases k
  {
    if k > 0 {
      ShiftsOut(x, k);
      OrAdds(x, y / 2, k - 1);
    }
  }

  /** A mask with one digit tests that digit. */
  lemma {:induction false} SingleDigit(x: nat, k: nat)
    ensures And(x, Pow2(k)) != 0 <==> x / Pow2(k) % 2 == 1
    decreases k
  {
    if k == 0 {
      LowMask(x, 1);
    } else {
      SingleDigit(x / 2, k - 1);
      HalfThenDivide(x, Pow2(k - 1));
    }
  }

  lemma SingleDigits(x: nat)
    ensures And(x, 1) != 0 <==> x % 2 == 1
    ensures And(x, 4) != 0 <==> x / 4 % 2 == 1
    ensures And(x, 16) != 0 <==> x / 16 % 2 == 1
    ensures And(x, 32) != 0 <==> x / 32 % 2 == 1
    ensures And(x, 64) != 0 <==> x / 64 % 2 == 1
  {
    hide And;
    Powers();
    SingleDigit(x, 0);
    SingleDigit(x, 2);
    SingleDigit(x, 4);
    SingleDigit(x, 5);
    SingleDigit(x, 6);
  }

  lemma Powers()
    ensures Pow2(2) == 4 && Pow2(4) == 16 && Pow2(6) == 64 && Pow2(8) == 0x100 && Pow2(10) == 0x400
    ensures Pow2(12) == 0x1000 && Pow2(16) == 0x10000 && Pow2(18) == 0x40000
    ensures Pow2(3) == 8 && Pow2(5) == 32
  {
    assert Pow2(7) == 128 && Pow2(9) == 0x200 && Pow2(11) == 0x800 && Pow2(13) == 0x2000;
    assert Pow2(14) == 0x4000 && Pow2(15) == 0x8000 && Pow2(17) == 0x20000;
  }

  // ---------- the forms the codecs use ----------

  lemma Shrs(x: nat)
    ensures Shr(x, 2) == x / 4 && Shr(x, 4) == x / 16 && Shr(x, 6) == x / 64 && Shr(x, 8) == x / 0x100
    ensures Shr(x, 10) == x / 0x400 && Shr(x, 12) == x / 0x1000 && Shr(x, 16) == x / 0x10000
    ensures Shr(x, 18) == x / 0x40000
  {
    hide Shr, Pow2;
    Powers();
    ShrDivides(x, 2);
    ShrDivides(x, 4);
    ShrDivides(x, 6);
    ShrDivides(x, 8);
    ShrDivides(x, 10);
    ShrDivides(x, 12);
    ShrDivides(x, 16);
    ShrDivides(x, 18);
  }

  lemma Shls(x: nat)
    ensures Shl(x, 2) == x * 4 && Shl(x, 4) == x * 16 && Shl(x, 6) == x * 64 && Shl(x, 8) == x * 0x100
    ensures Shl(x, 10) == x * 0x400 && Shl(x, 12) == x * 0x1000 && Shl(x, 16) == x * 0x10000
    ensures Shl(x, 18) == x * 0x40000
  {
    hide Shl, Pow2;
    Powers();
    ShlMultiplies(x, 2);
    ShlMultiplies(x, 4);
    ShlMultiplies(x, 6);
    ShlMultiplies(x, 8);
    ShlMultiplies(x, 10);
    ShlMultiplies(x, 12);
    ShlMultiplies(x, 16);
    ShlMultiplies(x, 18);
  }

  lemma Masks(x: nat)
    ensures And(x, 0x7) == x % 8 && And(x, 0xF) == x % 16 && And(x, 0x1F) == x % 32
    ensures And(x, 0x3F) == x % 64 && And(x, 0xFF) == x % 0x100 && And(x, 0x3FF) == x % 0x400
  {
    hide And, Pow2;
    Powers();
    LowMask(x, 3);
    LowMask(x, 4);
    LowMask(x, 5);
    LowMask(x, 6);
    LowMask(x, 8);
    LowMask(x, 10);
  }

  /** The top two bits of an octet. */
  lemma TopTwoBits(b: nat)
    requires b < 0x100
    ensures And(b, 0xC0) == b / 64 * 64
  {
    hide And, Shl, Shr, Pow2;
    Powers();
    Shls(3);
    HighMask(b, 3, 6);
    Shrs(b);
    LowMask(b / 64, 2);
    Shls(b / 64);
  }

  /** The marker bits of UTF-8 octets and of surrogates. */
  lemma Markers(x: nat)
    ensures x < 0x20 ==> Or(x, 0xC0) == x + 0xC0
    ensures x < 0x10 ==> Or(x, 0xE0) == x + 0xE0
    ensures x < 0x08 ==> Or(x, 0xF0) == x + 0xF0
    ensures x < 0x40 ==> Or(x, 0x80) == x + 0x80
    ensures x < 0x400 ==> Or(x, 0xD800) == x + 0xD800 && Or(0xDC00, x) == x + 0xDC00
  {
    hide Or, Shl, Pow2;
    Powers();
    Shls(2);
    Shls(3);
    Shls(0xE);
    Shls(0xF);
    Shls(0x36);
    Shls(0x37);
    if x < 0x40 { OrAdds(2, x, 6); }
    if x < 0x20 { OrAdds(3, x, 6); }
    if x < 0x10 { OrAdds(0xE, x, 4); }
    if x < 0x08 { OrAdds(0xF, x, 4); }
    if x < 0x400 {
      OrAdds(0x36, x, 10);
      OrAdds(0x37, x, 10);
    }
  }

  /** Six-bit groups put side by side. */
  lemma JoinSix(high: nat, low: nat)
    requires low < 64
    ensures Or(Shl(high, 6), low) == high * 64 + low
  {
    hide Or, Shl, Pow2;
    Powers();
    Shls(high);
    OrAdds(high, low, 6);
  }

  lemma JoinThree(a: nat, b: nat, c: nat)
    requires b < 64 && c < 64
    ensures Or(Or(Shl(a, 12), Shl(b, 6)), c) == a * 0x1000 + b * 64 + c
  {
    hide Or, Shl, Pow2;
    Powers();
    Shls(a);
    Shls(b);
    OrAdds(a, b * 64, 12);
    Shls(a * 64 + b);
    JoinSix(a * 64 + b, c);
  }

  lemma JoinFour(a: nat, b: nat, c: nat, d: nat)
    requires b < 64 && c < 64 && d < 64
    ensures Or(Or(Or(Shl(a, 18), Shl(b, 12)), Shl(c, 6)), d) == a * 0x40000 + b * 0x1000 + c * 64 + d
  {
    hide Or, Shl, Pow2;
    Powers();
    Shls(a);
    Shls(b);
    OrAdds(a, b * 0x1000, 18);
    Shls(a * 64 + b);
    JoinThree(a * 64 + b, c, d);
  }

  /** The last groups of a base64 text: two sextets, and three. */
  lemma JoinTails(a: nat, b: nat, c: nat)
    requires a < 64 && b < 64 && c < 64
    ensures Or(Shl(a, 2), Shr(b, 4)) == a * 4 + b / 16
    ensures Or(Or(Shl(a, 10), Shl(b, 4)), Shr(c, 2)) == a * 0x400 + b * 16 + c / 4
  {
    hide Or, Shl, Shr, Pow2;
    Powers();
    Shls(a);
    Shls(b);
    Shrs(b);
    Shrs(c);
    OrAdds(a, b / 16, 2);
    OrAdds(a, b * 16, 10);
    Shls(a * 64 + b);
    OrAdds(a * 64 + b, c / 4, 4);
  }

  lemma {:induction false} ShiftBack(x: nat, k: nat)
    ensures Shr(Shl(x, k), k) == x
    decreases k
  {
    if k > 0 {
      ShiftsOut(x, k);
      ShiftBack(x, k - 1);
    }
  }

  lemma MaskedShift(x: nat, k: nat)
    requires x < 0x100
    ensures And(Shl(x, k), Shl(0xFF, k)) == Shl(x, k)
  {
    hide And, Shl, Shr;
    HighMask(Shl(x, k), 0xFF, k);
    ShiftBack(x, k);
    Masks(x);
  }

  /** Three octets put side by side, each masked where it stands. */
  lemma JoinOctets(x: nat, y: nat, z: nat)
    requires x < 0x100 && y < 0x100 && z < 0x100
    ensures And(Shl(x, 16), 0xFF0000) + And(Shl(y, 8), 0xFF00) + And(z, 0xFF) == x * 0x10000 + y * 0x100 + z
  {
    hide And, Shl, Shr;
    Shls(0xFF);
    Shls(x);
    Shls(y);
    MaskedShift(x, 16);
    MaskedShift(y, 8);
    Masks(z);
  }

  /** The halves of a surrogate pair put side by side. */
  lemma JoinPair(high: nat, low: nat)
    requires low < 0x400
    ensures Or(Shl(high, 10), low) == high * 0x400 + low
  {
    hide Or, Shl, Pow2;
    Powers();
    Shls(high);
    OrAdds(high, low, 10);
  }
}
