/** The conversion of a NEAR amount to yoctoNEAR by string surgery: whole digits followed by the fraction
    padded and cut to 24 digits. */
module YoctoNear {
  import opened Common
  import opened Decimal

  const PLACES := 24

  /** padEnd with zeros, then slice. */
  function Fit(f: string): (r: string)
    ensures |r| == PLACES
  {
    (f + Repeat('0', if |f| < PLACES then PLACES - |f| else 0))[..PLACES]
  }

  function Whole(s: string): string {
    var w := s[..Until(s, '.')];
    if w == "" then "0" else w
  }

  /** What stands between the first point and the next, if there is one. */
  function Fraction(s: string): string {
    var k := Until(s, '.');
    if k == |s| then ""
    else
      var rest := s[k + 1..];
      rest[..Until(rest, '.')]
  }

  function Yocto(s: string): string {
    Whole(s) + Fit(Fraction(s))
  }

  function Pow10(n: nat): (p: nat)
    ensures p > 0
  {
    if n == 0 then 1 else 10 * Pow10(n - 1)
  }

  // ---------- the notations of a positive number ----------

  predicate Numeral(s: string) { s != "" && AllDigits(s) }

  predicate PlainParts(s: string, w: string, f: string) {
    Numeral(w) && ((f == "" && s == w) || (Numeral(f) && s == w + "." + f))
  }

  /** Plain decimal notation. */
  ghost predicate Plain(s: string) {
    exists w: string, f: string :: PlainParts(s, w, f)
  }

  /** Exponent notation: a mantissa of at most 17 digits, `e`, a sign and digits. */
  ghost predicate Exponent(s: string) {
    exists mantissa: string, exponent: string :: ExponentParts(s, mantissa, exponent)
  }

  ghost predicate ExponentParts(s: string, mantissa: string, exponent: string) {
    s == mantissa + "e" + exponent && |mantissa| <= 18 && '.' !in exponent && Plain(mantissa)
  }

  /** What Number.prototype.toString can give for a positive amount. */
  ghost predicate NumberText(s: string) {
    Plain(s) || Exponent(s) || s == "Infinity"
  }

  /** The amount a plain text denotes. */
  ghost function Amount(w: string, f: string): real
    requires AllDigits(w + f)
  {
    Value(w + f) as real / Pow10(|f|) as real
  }

  // ---------- digits ----------

  /** One more digit moves both sides one place up. */
  lemma OnePlaceUp(a: int, p: int, v: int, d: int)
    ensures (a * p + v) * 10 + d == a * (10 * p) + (v * 10 + d)
  {}

  lemma LastDigit(s: string)
    requires s != "" && AllDigits(s)
    ensures AllDigits(s[..|s| - 1]) && IsDigit(s[|s| - 1])
    ensures Value(s) == Value(s[..|s| - 1]) * 10 + (s[|s| - 1] - '0') as int
    ensures Pow10(|s|) == 10 * Pow10(|s| - 1)
  {}

  lemma DigitsConcatenate(a: string, b: string)
    requires AllDigits(a) && AllDigits(b)
    ensures AllDigits(a + b)
  {}

  lemma NoDigits()
    ensures AllDigits("") && Value("") == 0 && Pow10(0) == 1
  {}

  lemma {:induction false} DigitsJoin(a: string, b: string)
    requires AllDigits(a) && AllDigits(b)
    ensures AllDigits(a + b) && Value(a + b) == Value(a) * Pow10(|b|) + Value(b)
    ensures Value(b) < Pow10(|b|)
    decreases |b|
  {
    hide AllDigits, Value, Pow10;
    DigitsConcatenate(a, b);
    if b == "" {
      NoDigits();
      assert a + b == a;
    } else {
      var front, last := b[..|b| - 1], b[|b| - 1];
      LastDigit(b);
      DigitsJoin(a, front);
      assert (a + b)[..|a + b| - 1] == a + front && (a + b)[|a + b| - 1] == last;
      LastDigit(a + b);
      OnePlaceUp(Value(a), Pow10(|front|), Value(front), (last - '0') as int);
    }
  }

  lemma {:induction false} ZerosAreNothing(n: nat)
    ensures AllDigits(Repeat('0', n)) && Value(Repeat('0', n)) == 0
  {
    if n > 0 {
      ZerosAreNothing(n - 1);
      assert Repeat('0', n)[..n - 1] == Repeat('0', n - 1);
    }
  }

  lemma {:induction false} Pow10Adds(m: nat, n: nat)
    ensures Pow10(m + n) == Pow10(m) * Pow10(n)
  {
    if m > 0 {
      Pow10Adds(m - 1, n);
      assert Pow10(m + n) == 10 * Pow10(m - 1 + n);
      assert Pow10(m) * Pow10(n) == 10 * (Pow10(m - 1) * Pow10(n));
    }
  }

  lemma PartsOfPlain(s: string, w: string, f: string)
    requires PlainParts(s, w, f)
    ensures Whole(s) == w && Fraction(s) == f
  {
    NoPoint(w);
    NoPoint(f);
    if f == "" {
      assert w + "" == w;
      UntilIsUnique(w, "", '.');
    } else {
      UntilIsUnique(w, "." + f, '.');
      assert s == w + ("." + f);
      assert s[|w| + 1..] == f;
      assert f + "" == f;
      UntilIsUnique(f, "", '.');
    }
  }

  lemma NoPoint(s: string)
    requires AllDigits(s)
    ensures '.' !in s
  {}

  lemma NextMultiple(v: int, p: int)
    ensures (v + 1) * p == v * p + p
  {}

  /** Digits dropped from the end divide by a power of ten, rounding down. */
  lemma DroppedDigits(a: string, b: string)
    requires AllDigits(a) && AllDigits(b)
    ensures AllDigits(a + b)
    ensures Value(a) * Pow10(|b|) <= Value(a + b) < (Value(a) + 1) * Pow10(|b|)
  {
    hide Value, Pow10, AllDigits;
    DigitsJoin(a, b);
    NextMultiple(Value(a), Pow10(|b|));
  }

  lemma DigitsSplit(f: string, n: nat)
    requires AllDigits(f) && n <= |f|
    ensures AllDigits(f[..n]) && AllDigits(f[n..]) && f == f[..n] + f[n..]
  {}

  lemma ShortFit(f: string)
    requires |f| <= PLACES
    ensures Fit(f) == f + Repeat('0', PLACES - |f|)
  {}

  lemma LongFit(f: string)
    requires |f| > PLACES
    ensures Fit(f) == f[..PLACES]
  {}

  lemma FitShortFraction(w: string, f: string)
    requires AllDigits(w) && AllDigits(f) && |f| <= PLACES
    ensures AllDigits(w + Fit(f)) && AllDigits(w + f)
    ensures Value(w + Fit(f)) == Value(w + f) * Pow10(PLACES - |f|)
  {
    hide Value, Pow10, AllDigits, Fit, Repeat;
    var zeros := Repeat('0', PLACES - |f|);
    ZerosAreNothing(PLACES - |f|);
    ShortFit(f);
    DigitsJoin(w, f);
    assert w + Fit(f) == (w + f) + zeros;
    DigitsJoin(w + f, zeros);
  }

  lemma FitLongFraction(w: string, f: string)
    requires AllDigits(w) && AllDigits(f) && |f| > PLACES
    ensures AllDigits(w + Fit(f)) && AllDigits(w + f)
    ensures Value(w + Fit(f)) * Pow10(|f| - PLACES) <= Value(w + f)
          < (Value(w + Fit(f)) + 1) * Pow10(|f| - PLACES)
  {
    hide Value, Pow10, AllDigits, Fit;
    var kept, dropped := f[..PLACES], f[PLACES..];
    DigitsSplit(f, PLACES);
    LongFit(f);
    DigitsJoin(w, kept);
    assert w + f == (w + kept) + dropped;
    DroppedDigits(w + kept, dropped);
  }

  lemma FloorOf(v: int, x: real)
    requires v as real <= x < (v + 1) as real
    ensures x.Floor == v
  {}

  lemma ScaleExactly(total: nat, v: nat, up: nat, down: nat, all: nat)
    requires down > 0 && v == total * up && all == up * down
    ensures v as real == total as real / down as real * all as real
  {
    assert all as real == up as real * down as real;
    assert total as real / down as real * (up as real * down as real) == total as real * up as real;
  }

  lemma ScaleDown(total: nat, v: nat, all: nat, drop: nat, down: nat)
    requires all > 0 && drop > 0 && down == all * drop && v * drop <= total < (v + 1) * drop
    ensures v as real <= total as real / down as real * all as real < (v + 1) as real
  {
    var x := total as real / down as real * all as real;
    assert down as real == all as real * drop as real;
    assert x * drop as real == total as real by {
      assert x * down as real == total as real * all as real;
      assert x * drop as real * all as real == total as real * all as real;
    }
    Cancel(v, x, drop, total);
  }

  lemma Ordered(x: real, y: real, d: real)
    requires x < y && d > 0.0
    ensures x * d < y * d
  {}

  lemma CancelFactor(x: real, y: real, d: real)
    requires d > 0.0
    ensures x * d <= y * d ==> x <= y
    ensures x * d < y * d ==> x < y
  {
    if y < x {
      Ordered(y, x, d);
    }
  }

  lemma ProductAsReal(m: int, n: int)
    ensures (m * n) as real == m as real * n as real
  {}

  lemma Cancel(v: nat, x: real, drop: nat, total: nat)
    requires drop > 0 && x * drop as real == total as real && v * drop <= total < (v + 1) * drop
    ensures v as real <= x < (v + 1) as real
  {
    ProductAsReal(v, drop);
    ProductAsReal(v + 1, drop);
    CancelBoth(v as real, x, (v + 1) as real, drop as real);
  }

  lemma CancelBoth(low: real, x: real, high: real, d: real)
    requires d > 0.0 && low * d <= x * d < high * d
    ensures low <= x < high
  {
    CancelFactor(low, x, d);
    CancelFactor(x, high, d);
  }

  /** With at most 24 fraction digits nothing is lost. */
  lemma ShortFractionScales(w: string, f: string)
    requires Numeral(w) && AllDigits(f) && |f| <= PLACES
    ensures AllDigits(w + Fit(f)) && AllDigits(w + f)
    ensures Value(w + Fit(f)) as real == Amount(w, f) * Pow10(PLACES) as real
  {
    hide Value, Pow10, Fit, AllDigits;
    FitShortFraction(w, f);
    Pow10Adds(PLACES - |f|, |f|);
    ScaleExactly(Value(w + f), Value(w + Fit(f)), Pow10(PLACES - |f|), Pow10(|f|), Pow10(PLACES));
  }

  /** With more, the rest is cut off. */
  lemma LongFractionScales(w: string, f: string)
    requires Numeral(w) && AllDigits(f) && |f| > PLACES
    ensures AllDigits(w + Fit(f)) && AllDigits(w + f)
    ensures var v, x := Value(w + Fit(f)), Amount(w, f) * Pow10(PLACES) as real; v as real <= x < (v + 1) as real
  {
    hide Value, Pow10, Fit, AllDigits;
    FitLongFraction(w, f);
    Pow10Adds(PLACES, |f| - PLACES);
    ScaleDown(Value(w + f), Value(w + Fit(f)), Pow10(PLACES), Pow10(|f| - PLACES), Pow10(|f|));
  }

  lemma PlainDigits(s: string, w: string, f: string)
    requires PlainParts(s, w, f)
    ensures Numeral(w) && AllDigits(f) && Yocto(s) == w + Fit(f)
  {
    hide Fit;
    PartsOfPlain(s, w, f);
  }

  lemma Pow10OfPlaces()
    ensures Pow10(PLACES) == 1_000_000_000_000_000_000_000_000
  {
    assert Pow10(4) == 10_000;
    Pow10Adds(4, 4);
    Pow10Adds(8, 8);
    Pow10Adds(16, 8);
  }

  /** For every amount in plain decimal notation the conversion is a digit string whose value is the amount
      times 10^24 rounded down, and exactly that product when there are at most 24 fraction digits. */
  lemma PlainAmountsScale(s: string, w: string, f: string)
    requires PlainParts(s, w, f)
    ensures AllDigits(Yocto(s)) && AllDigits(w + f)
    ensures Value(Yocto(s)) == (Amount(w, f) * 1_000_000_000_000_000_000_000_000.0).Floor
    ensures |f| <= 24 ==> Value(Yocto(s)) as real == Amount(w, f) * 1_000_000_000_000_000_000_000_000.0
  {
    hide Value, Pow10, Fit, AllDigits, Amount, PlainParts, Yocto;
    Pow10OfPlaces();
    PlainDigits(s, w, f);
    if |f| <= PLACES {
      ShortFractionScales(w, f);
    } else {
      LongFractionScales(w, f);
    }
    FloorOf(Value(w + Fit(f)), Amount(w, f) * Pow10(PLACES) as real);
  }

  // ---------- exponent notation ----------

  lemma KeptCharacter(f: string, k: nat)
    requires k < |f| && k < PLACES
    ensures Fit(f)[k] == f[k]
  {}

  lemma NotADigit(s: string, k: nat)
    requires k < |s| && s[k] == 'e'
    ensures !AllDigits(s)
  {}

  /** The text split at its point, if it has one. */
  lemma PointAt(a: string, b: string)
    requires '.' !in a && '.' !in b
    ensures a != "" ==> Whole(a) == a && Fraction(a) == ""
    ensures a != "" ==> Whole(a + "." + b) == a && Fraction(a + "." + b) == b
    ensures a == "" ==> Whole(a) == "0" && Whole(a + "." + b) == "0" && Fraction(a + "." + b) == b
  {
    assert a + "" == a && b + "" == b && b[..|b|] == b && a[..|a|] == a;
    UntilIsUnique(a, "", '.');
    UntilIsUnique(b, "", '.');
    UntilIsUnique(a, "." + b, '.');
    assert a + "." + b == a + ("." + b);
    assert (a + "." + b)[|a| + 1..] == b;
  }

  /** The `e` after the mantissa is among the characters kept, and it is not a digit. */
  lemma ExponentIsNoNumeral(s: string, mantissa: string, exponent: string)
    requires ExponentParts(s, mantissa, exponent)
    ensures !AllDigits(Yocto(s))
  {
    hide Fit, Whole, Fraction, AllDigits;
    var w, f :| PlainParts(mantissa, w, f);
    NoPoint(w);
    var tail := "e" + exponent;
    if f == "" {
      PointAt(s, "");
      NotADigit(Yocto(s), |w|);
    } else {
      NoPoint(f);
      PointAt(w, f + tail);
      assert s == w + "." + (f + tail);
      KeptCharacter(f + tail, |f|);
      NotADigit(Yocto(s), |w| + |f|);
    }
  }

  lemma InfinityIsNoNumeral()
    ensures !AllDigits(Yocto("Infinity"))
  {
    UntilIsUnique("Infinity", "", '.');
    assert "Infinity" + "" == "Infinity" && "Infinity"[..8] == "Infinity";
    assert Yocto("Infinity")[0] == 'I';
  }

  /** Of all the texts a positive number can print as, exactly those in plain decimal notation convert to a
      digit string; "1e-7", "1.5e-7" and "1e+21" do not. */
  lemma DigitsExactlyForPlain(s: string)
    requires NumberText(s)
    ensures AllDigits(Yocto(s)) <==> Plain(s)
  {
    if Plain(s) {
      var w, f :| PlainParts(s, w, f);
      PlainAmountsScale(s, w, f);
    } else if Exponent(s) {
      var mantissa, exponent :| ExponentParts(s, mantissa, exponent);
      ExponentIsNoNumeral(s, mantissa, exponent);
    } else {
      InfinityIsNoNumeral();
    }
  }

  lemma SmallAmountsFail()
    ensures NumberText("1e-7") && !AllDigits(Yocto("1e-7"))
  {
    assert AllDigits("1");
    assert PlainParts("1", "1", "");
    assert "1" + "e" + "-7" == "1e-7";
    assert ExponentParts("1e-7", "1", "-7");
    ExponentIsNoNumeral("1e-7", "1", "-7");
  }
}
