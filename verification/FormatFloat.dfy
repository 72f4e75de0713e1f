// format_float for a positive value and a given precision: the fast generator with its exact
// fallback. Whichever of them produces the digits, the decimal is within half a unit of the
// last place produced, and it is right to the place requested exactly when Met says so.

module FormatFloat {
  import opened Machine
  import opened Powers
  import opened Decimals
  import opened FallbackFormat
  import opened Places
  import Grisu

  // A decimal that is trusted for every value near the approximation x is right for the exact
  // ratio y / d that x approximates.
  lemma TrustTransfers(q: int, unit: int, x: int, err: int, y: int, d: int)
    requires unit > 0 && d > 0 && err >= 0
    requires Grisu.Trusted(q, unit, x, err)
    requires -(err * d) <= y * unit - x * d <= err * d
    ensures 2 * Abs(q * d - y) <= d
  {
    var a := q * unit;
    OneSide(a, x, err, unit, d);
    OneSide(-a, -x, err, unit, d);
    MulAssoc(q, unit, d);
    MulAssoc(q, d, unit);
    DivideOut(q * d, y, d, unit);
    DivideOut(-(q * d), -y, d, unit);
  }

  lemma OneSide(a: int, x: int, err: int, unit: int, d: int)
    requires 2 * (a - x + err) <= unit && d > 0
    ensures 2 * (a * d) - 2 * (x * d) + 2 * (err * d) <= unit * d
  {
    MulMonotone(d, 2 * (a - x + err), unit);
    Distribute(a - x, err, d);
    Distribute(a, -x, d);
    MulAssoc(2, a - x + err, d);
  }

  lemma DivideOut(a: int, b: int, d: int, unit: int)
    requires unit > 0 && 2 * (a * unit) - 2 * (b * unit) <= d * unit
    ensures 2 * (a - b) <= d
  {
    Distribute(a, -b, unit);
    MulAssoc(2, a - b, unit);
    if 2 * (a - b) > d { MulStrict(unit, d, 2 * (a - b)); }
  }

  lemma MeaningTransfers(q: int, exp: int, f: int, one: int, n: int, d: int, e0: nat, j: nat)
    requires one > 0 && d > 0 && f >= 0 && e0 > 0 && exp == e0 - 1 - j
    requires Grisu.Meaning(q, exp, f, one)
    requires Abs((n * Pow(10, e0 - 1)) * one - f * d) < d
    ensures WithinHalf(q, n, j, d)
  {
    if exp >= 0 {
      var t := Pow(10, exp);
      PowAdd(10, j, exp);
      PowPositive(10, exp);
      MulPositive(t, one);
      MulAssoc(n, Pow(10, j), t);
      MulAssoc(n * Pow(10, j), t, one);
      TrustTransfers(q, t * one, f, 1, n * Pow(10, j), d);
    } else {
      var t := Pow(10, -exp);
      PowAdd(10, e0 - 1, -exp);
      PowPositive(10, -exp);
      var y := n * Pow(10, e0 - 1);
      MulAssoc(n, Pow(10, e0 - 1), t);
      ScaleError(y * one, f * d, d, t);
      MulAssoc(y, one, t);
      MulAssoc(y, t, one);
      MulAssoc(f, d, t);
      MulAssoc(f, t, d);
      TrustTransfers(q, one, f * t, t, y * t, d);
    }
  }

  lemma ScaleError(a: int, b: int, d: int, t: int)
    requires Abs(a - b) <= d && t >= 0
    ensures Abs(a * t - b * t) <= t * d
  {
    Distribute(a, -b, t);
    MulMonotone(t, a - b, d);
    MulMonotone(t, -d, a - b);
  }

  // The approximation leaves no doubt about the number of digits before the decimal point.
  lemma EstimateIsSafe(f: int, one: int, n: nat, d: int, e0: nat)
    requires e0 > 0 && d > 0 && one > 0 && f < Pow(10, e0) * one
    requires Abs((n * Pow(10, e0 - 1)) * one - f * d) < d
    ensures n < 10 * d
  {
    var p := Pow(10, e0 - 1);
    PowPositive(10, e0 - 1);
    MulPositive(p, one);
    Distribute(f, 1, d);
    MulMonotone(d, f + 1, (10 * p) * one);
    MulAssoc(n, p, one);
    MulAssoc(10, p, one);
    MulAssoc(10 * d, p, one);
    MulAssoc(10, d, p * one);
    MulAssoc(10, p * one, d);
    CancelLess(p * one, n, 10 * d);
  }

  lemma EstimateIsClose(f: int, one: int, n: nat, d: int, e0: nat)
    requires e0 > 0 && d > 0 && one > 1 && f >= Pow(10, e0 - 1) * one
    requires Abs((n * Pow(10, e0 - 1)) * one - f * d) < d
    ensures d < 2 * n
  {
    var p := Pow(10, e0 - 1);
    PowPositive(10, e0 - 1);
    MulMonotone(one, 1, p);
    Distribute(f, -1, d);
    MulMonotone(d, p * one - 1, f - 1);
    Distribute(p * one, -1, d);
    MulAssoc(n, p, one);
    NearlyAll(n, d, p * one);
  }

  lemma NearlyAll(n: int, d: int, w: int)
    requires d > 0 && w >= 2 && n * w > w * d - d
    ensures d < 2 * n
  {
    if 2 * n <= d {
      MulMonotone(w, 2 * n, d);
      MulAssoc(2, n, w);
      MulMonotone(d, 2, w);
    }
  }

  function Zeros(n: nat): seq<nat> {
    seq(n, _ => 0)
  }

  method TrimZeros(digits: seq<nat>, exp: int) returns (buf: seq<nat>, exp': int)
    ensures exp' >= exp && Number(buf) * Pow(10, exp' - exp) == Number(digits)
    ensures digits == buf + Zeros(exp' - exp)
    ensures buf == [] || buf[|buf| - 1] != 0
  {
    buf, exp' := digits, exp;
    assert Pow(10, 0) == 1;
    while |buf| > 0 && buf[|buf| - 1] == 0
      invariant exp' >= exp && Number(buf) * Pow(10, exp' - exp) == Number(digits)
      invariant digits == buf + Zeros(exp' - exp)
      decreases |buf|
    {
      assert buf == buf[..|buf| - 1] + [0] && [0] + Zeros(exp' - exp) == Zeros(exp' - exp + 1);
      MulAssoc(Number(buf[..|buf| - 1]), 10, Pow(10, exp' - exp));
      buf := buf[..|buf| - 1];
      exp' := exp' + 1;
    }
  }

  // ---- Requests ----

  function Clamp(precision: nat): nat {
    if precision > MAX_DOUBLE_DIGITS then MAX_DOUBLE_DIGITS else precision
  }

  // The last place asked for, counted from the leading digit's 10^x: so many decimals in fixed
  // notation, otherwise so many digits, of which there is always one.
  function Requested(precision: nat, fixed: bool, x: int): (j: int)
    ensures fixed ==> x - j + precision == 0
    ensures !fixed ==> j >= 0 && (precision > 0 ==> j + 1 == precision)
  {
    if fixed then precision + x else Grisu.AtLeastOne(precision) - 1
  }

  // The last place that is produced. More than 767 digits are never attempted, and when Grisu
  // cannot round to the one digit of an empty request the fallback produces none at all.
  function Produced(precision: nat, fixed: bool, x: int, undecided: bool): (j: int)
    ensures precision <= 767 && (fixed || precision > 0 || !undecided) ==> j == Requested(precision, fixed, x)
  {
    if !fixed && precision == 0 && undecided then -1 else Requested(Clamp(precision), fixed, x)
  }

  // The digits down to a place: from the leading one, or a single one above it, or none.
  function DigitsTo(place: int): nat {
    if place >= 0 then place + 1 else if place == -1 then 1 else 0
  }

  // All digits down to the place are there, the last of them at 10^(x - place). Only a carry
  // through nothing but nines leaves one digit more, or raises the exponent instead.
  predicate Complete(buf: seq<nat>, exp: int, x: int, place: int, fixed: bool) {
    if place < -1 then buf == [] && exp == x + 1
    else
      || (|buf| == DigitsTo(place) && exp == x - place)
      || (|buf| == DigitsTo(place) && exp == x - place + 1 && Grisu.OneAndZeros(buf))
      || (|buf| == DigitsTo(place) + 1 && exp == x - place && fixed && Grisu.OneAndZeros(buf))
  }

  // The number of digits to generate.
  function EffectiveDigits(precision: nat, fixed: bool, x: int): int {
    if fixed then Clamp(precision) + x + 1 else Clamp(precision)
  }

  // When the place produced is as good as the one asked for. For more than 767 decimals the
  // value must be near enough to one with 767; for no digits Grisu must be able to round to
  // one, or the value must round up to ten.
  predicate Met(precision: nat, fixed: bool, x: int, undecided: bool, n: nat, d: nat)
    requires d > 0
  {
    if fixed then ClampHarmless(precision, x, n, d) else precision > 0 || !undecided || 19 * d <= 2 * n
  }

  lemma MetExactly(buf: seq<nat>, exp: int, f: nat, e: int, shift: nat, x: int, precision: nat, fixed: bool, undecided: bool)
    requires IsDouble(f, e) && DenominatorOf(e, shift, x) > 0
    requires var n, d := NumeratorOf(f, e, shift, x), DenominatorOf(e, shift, x);
             d < 2 * n && n < 10 * d && Rounded(buf, exp, x, Produced(precision, fixed, x, undecided), n, d)
    ensures var n, d := NumeratorOf(f, e, shift, x), DenominatorOf(e, shift, x);
            Rounded(buf, exp, x, Requested(precision, fixed, x), n, d) <==> Met(precision, fixed, x, undecided, n, d)
  {
    var n, d := NumeratorOf(f, e, shift, x), DenominatorOf(e, shift, x);
    if !fixed && precision == 0 {
      if undecided { PlaceAbove(buf, exp, x, n, d); }
    } else if precision > MAX_DOUBLE_DIGITS {
      LeadingDigitIsKept(f, e, shift, x);
      FinerPlace(buf, exp, x, Requested(MAX_DOUBLE_DIGITS, fixed, x), precision - MAX_DOUBLE_DIGITS, n, d);
      if !fixed { AllDigitsFit(f, e, shift, x); }
    }
  }

  // With 767 significant digits every double is held exactly.
  lemma AllDigitsFit(f: nat, e: int, shift: nat, x: int)
    requires IsDouble(f, e) && DenominatorOf(e, shift, x) > 0
    requires DenominatorOf(e, shift, x) < 2 * NumeratorOf(f, e, shift, x)
    ensures Off(NumeratorOf(f, e, shift, x) * Pow(10, 766), DenominatorOf(e, shift, x)) == 0
  {
    AtMost767Digits(f, e, shift, x);
    var k := WholeAt(f, e, shift, x, 766);
    OffZero(NumeratorOf(f, e, shift, x) * Pow(10, 766), DenominatorOf(e, shift, x), k);
  }

  // ---- What the generators deliver ----

  lemma FastOutcome(buf: seq<nat>, exp: int, x: int, digits: int, n: nat, d: nat, carried: int, fixed: bool,
                    e0: nat, f: Word64, one: Word64)
    requires e0 > 0 && d > 0 && one > 0 && n < 10 * d && (fixed || digits >= 0)
    requires Grisu.Generated(Grisu.Done, exp, buf, digits, carried, fixed, e0, f, one)
    requires Abs((n * Pow(10, e0 - 1)) * one - f * d) < d
    ensures var place := if fixed then digits - 1 else Grisu.AtLeastOne(digits) - 1;
            && Rounded(buf, exp - e0 + 1 + x + carried, x, place, n, d)
            && Complete(buf, exp - e0 + 1 + x + carried, x, place, fixed)
    ensures IsDecimal(buf)
  {
    assert Pow(10, 0) == 1 && Pow(10, 1) == 10;
    if digits > 0 || !fixed {
      MeaningTransfers(Number(buf) * Pow(10, carried), exp, f, one, n, d, e0, Grisu.AtLeastOne(digits) - 1);
    } else if digits == 0 {
      TenthMeaning(Number(buf), f, one, n, d, e0);
    } else {
      NothingIsRight(n, d, 1 - digits);
    }
  }

  // Zero is right to any place above the value.
  lemma NothingIsRight(n: nat, d: nat, above: nat)
    requires d > 0 && n < 10 * d && above >= 2
    ensures 2 * n <= d * Pow(10, above)
  {
    assert Pow(10, 0) == 1 && Pow(10, 2) == 100;
    PowMonotone(10, 2, above);
    MulMonotone(d, 100, Pow(10, above));
  }

  // With no digits requested the unit is ten times the leading digit's.
  lemma TenthMeaning(q: int, f: int, one: int, n: int, d: int, e0: nat)
    requires one > 0 && d > 0 && f >= 0 && e0 > 0
    requires Grisu.Meaning(q, e0, f, one)
    requires Abs((n * Pow(10, e0 - 1)) * one - f * d) < d
    ensures WithinHalf(q, n, 0, 10 * d)
  {
    var p := Pow(10, e0 - 1);
    PowPositive(10, e0 - 1);
    MulPositive(10 * p, one);
    TenTimes(n, p, one, f, d);
    TrustTransfers(q, (10 * p) * one, f, 1, n, 10 * d);
    assert n * Pow(10, 0) == n;
  }

  lemma TenTimes(n: int, p: int, one: int, f: int, d: int)
    ensures n * ((10 * p) * one) - f * (10 * d) == 10 * ((n * p) * one - f * d)
  {
    MulAssoc(n, p, one);
    MulAssoc(10, p, one);
    MulAssoc(n, 10, p * one);
    MulAssoc(f, 10, d);
    MulAssoc(10, f, d);
  }

  lemma FallbackRounds(buf: seq<nat>, exp: int, x: int, digits: int, n: nat, d: nat)
    requires d > 0 && digits > 0 && FixedOutcome(buf, exp, x, digits, n, d)
    ensures Rounded(buf, exp, x, digits - 1, n, d) && Complete(buf, exp, x, digits - 1, false)
  {
    assert Pow(10, 0) == 1;
    PowPositive(10, digits - 1);
    MulMonotone(n, 0, Pow(10, digits - 1));
    RoundHalfEvenIsNearest(n * Pow(10, digits - 1), d, 0);
    if exp == x - (digits - 1) + 1 {
      assert Pow(10, 1) == 10;
      TenTimesEqual(Number(buf), Pow(10, digits - 1));
    }
  }

  lemma TenTimesEqual(a: int, b: int)
    requires a * 10 == 10 * b
    ensures a == b
  {
  }

  lemma FallbackRoundsAbove(buf: seq<nat>, exp: int, x: int, n: nat, d: nat)
    requires d > 0 && EmptyOutcome(buf, exp, x, n, d)
    ensures Rounded(buf, exp, x, -1, n, d) && Complete(buf, exp, x, -1, false)
  {
    assert Pow(10, 0) == 1 && Pow(10, 1) == 10;
    assert n * Pow(10, 0) == n && Number(buf) * Pow(10, exp - (x + 1)) == Number(buf);
    RoundHalfEvenIsNearest(n, 10 * d, 0);
  }

  // Taking zeros off and raising the exponent keeps the number.
  lemma TrimmedRounded(all: seq<nat>, exp: int, buf: seq<nat>, exp': int, x: int, j: int, n: int, d: int)
    requires Rounded(all, exp, x, j, n, d) && (all == [] ==> buf == [])
    requires exp' >= exp && Number(buf) * Pow(10, exp' - exp) == Number(all)
    ensures Rounded(buf, exp', x, j, n, d)
  {
    if buf != [] {
      PowAdd(10, exp' - exp, exp - (x - j));
      MulAssoc(Number(buf), Pow(10, exp' - exp), Pow(10, exp - (x - j)));
    } else {
      assert Number(all) == 0;
    }
  }

  // ---- The approximation that Grisu starts from ----

  // f / one approximates the double significand * 2^e times 10^cachedExp10 with an error of
  // less than one unit of f.
  predicate Approximates(significand: nat, e: int, predecessorCloser: bool, f: Word64, one: Word64,
                         cachedExp10: int)
    requires 0 < one <= f
  {
    var e0, shift := Grisu.CountDigits(f / one), ShiftOf(predecessorCloser);
    var x := e0 - cachedExp10 - 1;
    var n, d := NumeratorOf(significand, e, shift, x), DenominatorOf(e, shift, x);
    && IsDouble(significand, e) && (e >= 0 ==> x >= 0)
    && Abs((n * Pow(10, e0 - 1)) * one - f * d) < d
  }

  // Every double whose leading digit stands at 10^x has such an approximation.
  lemma ApproximationExists(significand: nat, e: int, predecessorCloser: bool, x: int) returns (f: Word64)
    requires IsDouble(significand, e) && (e >= 0 ==> x >= 0)
    requires var shift := ShiftOf(predecessorCloser);
             DenominatorOf(e, shift, x) <= NumeratorOf(significand, e, shift, x) < 10 * DenominatorOf(e, shift, x)
    ensures f >= 0x1000_0000_0000_0000
    ensures Grisu.CountDigits(f / 0x1000_0000_0000_0000) == 1
    ensures Approximates(significand, e, predecessorCloser, f, 0x1000_0000_0000_0000, -x)
  {
    var shift := ShiftOf(predecessorCloser);
    var n, d := NumeratorOf(significand, e, shift, x), DenominatorOf(e, shift, x);
    DenominatorPositive(e, shift, x);
    f := ScaledQuotient(n, d);
    assert Pow(10, 0) == 1;
  }

  lemma ScaledQuotient(n: nat, d: nat) returns (f: Word64)
    requires 0 < d <= n < 10 * d
    ensures 0x1000_0000_0000_0000 <= f < 10 * 0x1000_0000_0000_0000
    ensures 0 <= n * 0x1000_0000_0000_0000 - f * d < d
  {
    var a := n * 0x1000_0000_0000_0000;
    var q := a / d;
    DivIdentity(a, d);
    QuotientLess(a, d, 10 * 0x1000_0000_0000_0000);
    if q < 0x1000_0000_0000_0000 { MulMonotone(d, q, 0xFFF_FFFF_FFFF_FFFF); }
    f := q;
  }

  // Among them the smallest double, of which a thousand decimals may be asked and only 767 are
  // given: the request is not met.
  lemma SmallestDoubleFallsShort() returns (f: Word64)
    ensures f >= 0x1000_0000_0000_0000
    ensures Grisu.CountDigits(f / 0x1000_0000_0000_0000) == 1
    ensures Approximates(1, -1074, false, f, 0x1000_0000_0000_0000, 324)
    ensures DenominatorOf(-1074, 1, -324) > 0
    ensures !Met(1000, true, -324, false, NumeratorOf(1, -1074, 1, -324), DenominatorOf(-1074, 1, -324))
  {
    SmallestDoubleInDecimal(1074, 324);
    f := ApproximationExists(1, -1074, false, -324);
    SmallestDoubleIsCutShort(1);
  }

  lemma SmallestDoubleInDecimal(b: int, y: int)
    requires b == 1074 && y == 324
    ensures DenominatorOf(-b, 1, -y) <= NumeratorOf(1, -b, 1, -y) < 10 * DenominatorOf(-b, 1, -y)
  {
    assert Pow(2, 0) == 1 && Pow(2, 1) == 2 && Pow(10, 0) == 1;
    TenTo324(b, y, 11, 16, 35);
    TenTo323(b, y - 1, 5, 28, 66);
    PowAdd(2, 1, b);
    assert NumeratorOf(1, -b, 1, -y) == 2 * Pow(10, y) && DenominatorOf(-b, 1, -y) == 2 * Pow(2, b);
  }

  lemma TenTo324(b: nat, y: nat, k: nat, r: nat, s: nat)
    requires b == 1074 && y == 324 && k == 11 && r == 16 && s == 35
    ensures Pow(2, b) < Pow(10, y)
  {
    FiveToThe16(r, s);
    TwosBelowFives(k, r, s);
    PowMul(2, 5, y);
    PowAdd(2, y, b - y);
    PowPositive(2, y);
    MulStrict(Pow(2, y), Pow(2, b - y), Pow(5, y));
  }

  lemma TenTo323(b: nat, y: nat, k: nat, r: nat, s: nat)
    requires b == 1074 && y == 323 && k == 5 && r == 28 && s == 66
    ensures Pow(10, y) < Pow(2, b)
  {
    FiveToThe28();
    FivesBelowTwos(k, r, s);
    PowMul(2, 5, y);
    PowAdd(2, y, b - y);
    PowPositive(2, y);
    MulStrict(Pow(2, y), Pow(5, y), Pow(2, b - y));
  }

  lemma FiveToThe16(n: nat, m: nat)
    requires n == 16 && m == 35
    ensures Pow(2, m) < Pow(5, n)
  {
    FiveToThe14();
    assert Pow(5, 0) == 1 && Pow(5, 2) == 25;
    PowAdd(5, n - 2, 2);
    Two54();
    assert Pow(2, 0) == 1 && Pow(2, 7) == 128;
    PowAdd(2, m - 7, 7);
  }

  // And 2.5, which lies in the middle: asked for no digits, the fallback answers with a zero
  // one place too high, which is not a rounding to one digit.
  lemma TwoAndAHalfFallsShort()
    ensures Approximates(5, -1, false, 0x2800_0000_0000_0000, 0x1000_0000_0000_0000, 0)
    ensures Grisu.UndecidedAt(0, 0x2800_0000_0000_0000, 0x1000_0000_0000_0000)
    ensures DenominatorOf(-1, 1, 0) > 0
    ensures var n, d := NumeratorOf(5, -1, 1, 0), DenominatorOf(-1, 1, 0);
            && !Met(0, false, 0, true, n, d)
            && Rounded([0], 1, 0, -1, n, d) && !Rounded([0], 1, 0, 0, n, d)
  {
    assert Pow(10, 0) == 1 && Pow(10, 1) == 10 && Pow(2, 0) == 1 && Pow(2, 1) == 2 && Pow(2, 2) == 4;
    assert Number([0]) == 0;
  }

  // ---- format_float ----

  // What the approximation settles: the leading digit, and that its exponent is in range.
  lemma Estimate(significand: nat, e: int, predecessorCloser: bool, f: Word64, s: nat, one: Word64,
                 cachedExp10: int)
    requires 32 <= s <= 60 && one == Pow(2, s) && 0 < one <= f
    requires Approximates(significand, e, predecessorCloser, f, one, cachedExp10)
    ensures var x, shift := Grisu.CountDigits(f / one) - cachedExp10 - 1, ShiftOf(predecessorCloser);
            var n, d := NumeratorOf(significand, e, shift, x), DenominatorOf(e, shift, x);
            d > 0 && d < 2 * n && n < 10 * d && -400 < x <= 766
  {
    var e0, shift := Grisu.CountDigits(f / one), ShiftOf(predecessorCloser);
    var x := e0 - cachedExp10 - 1;
    var n, d := NumeratorOf(significand, e, shift, x), DenominatorOf(e, shift, x);
    DenominatorPositive(e, shift, x);
    Grisu.OneBounds(s);
    Grisu.QuotientPositive(f, one);
    Grisu.StartArguments(f, one, f / one, e0);
    EstimateIsSafe(f, one, n, d, e0);
    EstimateIsClose(f, one, n, d, e0);
    AtMost767Digits(significand, e, shift, x);
    LeadingDigitIsKept(significand, e, shift, x);
  }

  method FallBack(significand: nat, e: int, predecessorCloser: bool, digits: nat, x: int)
    returns (buf: seq<nat>, exp: int)
    requires 0 < significand < 0x20_0000_0000_0000
    requires -0x4000_0000 < x < 0x4000_0000 && (e >= 0 ==> x >= 0)
    requires var shift := ShiftOf(predecessorCloser);
             NumeratorOf(significand, e, shift, x) < 10 * DenominatorOf(e, shift, x)
    ensures var shift := ShiftOf(predecessorCloser);
            && IsDecimal(buf)
            && Rounded(buf, exp, x, digits - 1, NumeratorOf(significand, e, shift, x), DenominatorOf(e, shift, x))
            && Complete(buf, exp, x, digits - 1, false)
  {
    ghost var shift := ShiftOf(predecessorCloser);
    ghost var n, d := NumeratorOf(significand, e, shift, x), DenominatorOf(e, shift, x);
    buf, exp := Format(significand, e, predecessorCloser, digits, x);
    if digits > 0 { FallbackRounds(buf, exp, x, digits, n, d); } else { FallbackRoundsAbove(buf, exp, x, n, d); }
  }

  // Grisu's digits, or the number of digits and the exponent that are left to the fallback.
  method TryGrisu(f: Word64, s: nat, one: Word64, cachedExp10: int, precision: nat, fixed: bool,
                  ghost n: nat, ghost d: nat)
    returns (buf: seq<nat>, exp: int, failed: bool, digits: int)
    requires 32 <= s <= 60 && one == Pow(2, s) && 0 < one <= f
    requires d > 0 && n < 10 * d && Abs((n * Pow(10, Grisu.CountDigits(f / one) - 1)) * one - f * d) < d
    ensures var e0 := Grisu.CountDigits(f / one);
            var x := e0 - cachedExp10 - 1;
            var place := Produced(precision, fixed, x, Grisu.UndecidedAt(e0 - 1, f, one));
            if failed then exp == x && digits >= 0 && place == digits - 1
            else IsDecimal(buf) && Rounded(buf, exp, x, place, n, d) && Complete(buf, exp, x, place, fixed)
  {
    Grisu.OneBounds(s);
    ghost var e0 := Grisu.CountDigits(f / one);
    ghost var x := e0 - cachedExp10 - 1;
    var handler := new Grisu.FixedHandler(Clamp(precision), -cachedExp10, fixed);
    var result;
    result, exp := Grisu.GenDigits(f, s, one, handler);
    buf, failed, digits := handler.buf, result == Grisu.Error, handler.precision;
    assert digits == EffectiveDigits(precision, fixed, x);
    if failed {
      exp := exp + |handler.buf| - cachedExp10 - 1;
    } else {
      FastOutcome(buf, exp, x, digits, n, d, handler.exp10 + cachedExp10, fixed, e0, f, one);
      exp := exp + handler.exp10;
    }
  }

  // Grisu, and the exact generator where Grisu cannot tell.
  method Generate(significand: nat, e: int, predecessorCloser: bool, f: Word64, s: nat, one: Word64,
                  cachedExp10: int, precision: nat, fixed: bool)
    returns (buf: seq<nat>, exp: int)
    requires 32 <= s <= 60 && one == Pow(2, s) && 0 < one <= f
    requires Approximates(significand, e, predecessorCloser, f, one, cachedExp10)
    ensures var e0, shift := Grisu.CountDigits(f / one), ShiftOf(predecessorCloser);
            var x := e0 - cachedExp10 - 1;
            var n, d := NumeratorOf(significand, e, shift, x), DenominatorOf(e, shift, x);
            var place := Produced(precision, fixed, x, Grisu.UndecidedAt(e0 - 1, f, one));
            && IsDecimal(buf)
            && Rounded(buf, exp, x, place, n, d) && Complete(buf, exp, x, place, fixed)
  {
    ghost var x, shift := Grisu.CountDigits(f / one) - cachedExp10 - 1, ShiftOf(predecessorCloser);
    Estimate(significand, e, predecessorCloser, f, s, one, cachedExp10);
    var failed, digits;
    buf, exp, failed, digits := TryGrisu(f, s, one, cachedExp10, precision, fixed,
                                         NumeratorOf(significand, e, shift, x), DenominatorOf(e, shift, x));
    if failed {
      buf, exp := FallBack(significand, e, predecessorCloser, digits, exp);
    }
  }

  // All digits are there, or all but zeros at the end.
  ghost predicate Shown(buf: seq<nat>, exp: int, x: int, place: int, fixed: bool, showpoint: bool) {
    if fixed || showpoint then Complete(buf, exp, x, place, fixed)
    else (buf == [] || buf[|buf| - 1] != 0) && exists t: nat :: Complete(buf + Zeros(t), exp - t, x, place, fixed)
  }

  // Outside fixed notation zeros at the end are taken off, unless the point is shown.
  method Trim(all: seq<nat>, exp: int, fixed: bool, showpoint: bool, ghost x: int, ghost place: int, ghost n: int,
              ghost d: int)
    returns (buf: seq<nat>, exp': int)
    requires IsDecimal(all) && Rounded(all, exp, x, place, n, d) && Complete(all, exp, x, place, fixed)
    ensures IsDecimal(buf) && Rounded(buf, exp', x, place, n, d)
    ensures Shown(buf, exp', x, place, fixed, showpoint)
  {
    buf, exp' := all, exp;
    if !fixed && !showpoint {
      buf, exp' := TrimZeros(all, exp);
      ghost var t := exp' - exp;
      assert buf == all[..|buf|];
      assert Complete(buf + Zeros(t), exp' - t, x, place, fixed);
      TrimmedRounded(all, exp, buf, exp', x, place, n, d);
    }
  }

  // The result is right to the place that is produced, and right to the place that was asked
  // for exactly when the request is one that can be met. In fixed notation or with the point
  // shown all digits down to that place are there; otherwise only zeros at the end are missing.
  method Digits(significand: nat, e: int, predecessorCloser: bool, f: Word64, s: nat, one: Word64,
                cachedExp10: int, precision: nat, fixed: bool, showpoint: bool)
    returns (buf: seq<nat>, exp: int)
    requires 32 <= s <= 60 && one == Pow(2, s) && 0 < one <= f
    requires Approximates(significand, e, predecessorCloser, f, one, cachedExp10)
    ensures var e0, shift := Grisu.CountDigits(f / one), ShiftOf(predecessorCloser);
            var x, undecided := e0 - cachedExp10 - 1, Grisu.UndecidedAt(e0 - 1, f, one);
            var n, d := NumeratorOf(significand, e, shift, x), DenominatorOf(e, shift, x);
            && IsDecimal(buf) && d > 0
            && Rounded(buf, exp, x, Produced(precision, fixed, x, undecided), n, d)
            && (Rounded(buf, exp, x, Requested(precision, fixed, x), n, d) <==> Met(precision, fixed, x, undecided, n, d))
    ensures var e0 := Grisu.CountDigits(f / one);
            var x, undecided := e0 - cachedExp10 - 1, Grisu.UndecidedAt(e0 - 1, f, one);
            var place := Produced(precision, fixed, x, undecided);
            Shown(buf, exp, x, place, fixed, showpoint)
  {
    Estimate(significand, e, predecessorCloser, f, s, one, cachedExp10);
    buf, exp := Generate(significand, e, predecessorCloser, f, s, one, cachedExp10, precision, fixed);
    ghost var e0, shift := Grisu.CountDigits(f / one), ShiftOf(predecessorCloser);
    ghost var x, undecided := e0 - cachedExp10 - 1, Grisu.UndecidedAt(e0 - 1, f, one);
    ghost var n, d := NumeratorOf(significand, e, shift, x), DenominatorOf(e, shift, x);
    buf, exp := Trim(buf, exp, fixed, showpoint, x, Produced(precision, fixed, x, undecided), n, d);
    MetExactly(buf, exp, significand, e, shift, x, precision, fixed, undecided);
  }
}
