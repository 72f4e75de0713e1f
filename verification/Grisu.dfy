// The fast digit generator: digits of a 64-bit approximation f * 2^-s of the scaled value,
// accepted only when rounding them is right for every value within the error of f.

module Grisu {
  import opened Machine
  import opened Powers
  import opened Decimals

  datatype RoundDirection = Unknown | Up | Down
  datatype Result = More | Done | Error

  // An intermediate of 64-bit arithmetic, which must not have wrapped.
  function Exact(x: Word64): Word64 { x }

  // A number within error of the remainder may lie on either side of half the divisor.
  predicate Undecided(divisor: int, remainder: int, error: int) {
    2 * (remainder - error) < divisor < 2 * (remainder + error)
  }

  // The rounding direction of remainder / divisor when the remainder is only known up to error.
  function GetRoundDirection(divisor: Word64, remainder: Word64, error: Word64): (r: RoundDirection)
    requires remainder < divisor && error < divisor && error < divisor - error
    ensures r == Down <==> 2 * (remainder + error) <= divisor
    ensures r == Up <==> 2 * (remainder - error) >= divisor && 2 * (remainder + error) > divisor
    ensures r == Unknown <==> Undecided(divisor, remainder, error)
  {
    if remainder <= Exact(divisor - remainder) && Exact(error * 2) <= Exact(divisor - Exact(remainder * 2)) then Down
    else if remainder >= error && Exact(remainder - error) >= Exact(divisor - Exact(remainder - error)) then Up
    else Unknown
  }

  // q units of size unit are within half a unit of everything within err of x.
  predicate Trusted(q: int, unit: int, x: int, err: int) {
    2 * (Abs(q * unit - x) + err) <= unit
  }

  lemma TrustedForReals(q: int, unit: int, x: int, err: int, w: real)
    requires Trusted(q, unit, x, err)
    requires (x - err) as real <= w <= (x + err) as real
    ensures -(unit as real) <= 2.0 * (w - (q * unit) as real) <= unit as real
  {
    var p := q * unit;
    assert 2 * (p - x) + 2 * err <= unit && 2 * (x - p) + 2 * err <= unit;
  }

  lemma DirectionIsTrusted(m: int, divisor: int, remainder: int, error: int, up: bool)
    requires if up then 2 * (remainder - error) >= divisor else 2 * (remainder + error) <= divisor
    requires 0 <= remainder < divisor && error >= 0
    ensures Trusted(if up then m + 1 else m, divisor, m * divisor + remainder, error)
  {
    Distribute(m, 1, divisor);
  }

  // What a carry through nothing but nines leaves.
  predicate OneAndZeros(buf: seq<nat>) {
    buf != [] && Number(buf) == Pow(10, |buf| - 1)
  }

  class FixedHandler {
    var buf: seq<nat>
    var precision: int
    var exp10: int
    var fixed: bool

    constructor (precision: int, exp10: int, fixed: bool)
      ensures this.buf == [] && this.precision == precision && this.exp10 == exp10 && this.fixed == fixed
    {
      this.buf, this.precision, this.exp10, this.fixed := [], precision, exp10, fixed;
    }

    method OnStart(divisor: Word64, remainder: Word64, error: Word64, exp: int) returns (result: Result)
      requires remainder < divisor && error < divisor - error && buf == []
      modifies this`buf, this`precision
      ensures precision == if fixed then old(precision) + exp + exp10 else old(precision)
      ensures !fixed || precision > 0 ==> result == More && buf == []
      ensures fixed && precision < 0 ==> result == Done && buf == []
      ensures fixed && precision == 0 ==>
                match GetRoundDirection(divisor, remainder, error)
                case Unknown => result == Error && buf == []
                case Up => result == Done && buf == [1]
                case Down => result == Done && buf == [0]
      ensures buf != [] ==> Trusted(Number(buf), divisor, remainder, error)
    {
      if !fixed { return More; }
      precision := precision + exp + exp10;
      if precision > 0 { return More; }
      if precision < 0 { return Done; }
      var dir := GetRoundDirection(divisor, remainder, error);
      if dir == Unknown { return Error; }
      buf := [if dir == Up then 1 else 0];
      DirectionIsTrusted(0, divisor, remainder, error, dir == Up);
      NumberSnoc([], buf[0]);
      assert [] + [buf[0]] == buf;
      return Done;
    }

    // Appends a digit; on the last one decides, rounds and carries, or gives up.
    method OnDigit(digit: nat, divisor: Word64, remainder: Word64, error: Word64, integral: bool)
      returns (result: Result)
      requires remainder < divisor && digit <= 9 && IsDecimal(buf)
      requires integral ==> error == 1 && divisor > 2
      modifies this`buf, this`exp10
      ensures result != Done ==> buf == old(buf) + [digit] && exp10 == old(exp10)
      ensures result == Error <==> (!integral && error >= remainder)
                                   || (|old(buf)| + 1 >= precision && Undecided(divisor, remainder, error))
      ensures result == More ==> |buf| < precision && (!integral ==> error < remainder)
      ensures result == Done ==>
                && |old(buf)| + 1 >= precision
                && IsDecimal(buf)
                && (exp10 == old(exp10) || (exp10 == old(exp10) + 1 && !fixed))
                && (|buf| == |old(buf)| + 1 || (|buf| == |old(buf)| + 2 && fixed && buf[|buf| - 1] == 0))
                && (exp10 != old(exp10) || |buf| != |old(buf)| + 1 ==> OneAndZeros(buf))
                && (exp10 == old(exp10) || |buf| == |old(buf)| + 1)
                && Trusted(Number(buf) * Pow(10, exp10 - old(exp10)), divisor,
                           (10 * Number(old(buf)) + digit) * divisor + remainder, error)
    {
      ghost var m := 10 * Number(buf) + digit;
      NumberSnoc(buf, digit);
      buf := buf + [digit];
      if !integral && error >= remainder { return Error; }
      if |buf| < precision { return More; }
      if !integral {
        if error >= divisor || error >= divisor - error { return Error; }
      }
      var dir := GetRoundDirection(divisor, remainder, error);
      if dir != Up {
        if dir == Down {
          DirectionIsTrusted(m, divisor, remainder, error, false);
          assert Pow(10, 0) == 1;
          return Done;
        }
        return Error;
      }
      DirectionIsTrusted(m, divisor, remainder, error, true);
      RaiseLastDigit();
      return Done;
    }

    // Adds one at the last digit and lets the carry run through trailing nines.
    method RaiseLastDigit()
      requires buf != [] && IsDecimal(buf)
      modifies this`buf, this`exp10
      ensures IsDecimal(buf)
      ensures exp10 == old(exp10) || (exp10 == old(exp10) + 1 && !fixed)
      ensures |buf| == |old(buf)| || (|buf| == |old(buf)| + 1 && fixed && buf[|buf| - 1] == 0)
      ensures Number(buf) * Pow(10, exp10 - old(exp10)) == Number(old(buf)) + 1
      ensures exp10 != old(exp10) || |buf| != |old(buf)| ==> OneAndZeros(buf)
      ensures exp10 == old(exp10) || |buf| == |old(buf)|
    {
      ghost var n := |buf| - 1;
      RaiseLast(buf[..n], buf[n]);
      assert buf == buf[..n] + [buf[n]];
      NumberSnoc(buf[..n], buf[n]);
      buf := buf[|buf| - 1 := buf[|buf| - 1] + 1];
      buf := PropagateCarry(buf);
      NoneOrOneTen(Number(buf));
      if buf[0] == 10 {
        Overflowed(buf);
        buf := buf[0 := 1];
        if fixed {
          buf := buf + [0];
        } else {
          exp10 := exp10 + 1;
        }
      }
    }
  }

  lemma Overflowed(buf: seq<nat>)
    requires buf != [] && buf == [10] + seq(|buf| - 1, _ => 0)
    ensures var t := buf[0 := 1];
            && IsDecimal(t) && IsDecimal(t + [0]) && OneAndZeros(t) && OneAndZeros(t + [0])
            && Number(t) * Pow(10, 1) == Number(t + [0]) * Pow(10, 0) == Number(buf)
  {
    var t := buf[0 := 1];
    OverflowAsOne(buf);
    NoneOrOneTen(Number(t));
    NoneOrOneTen(Number(t + [0]));
    LeadingDigitOnly(t);
    LeadingDigitOnly(t + [0]);
  }

  lemma NoneOrOneTen(q: nat)
    ensures q * Pow(10, 0) == q && q * Pow(10, 1) == q * 10
  {
    assert Pow(10, 0) == 1 && Pow(10, 1) == 10;
  }

  lemma RaiseLast(buf: seq<nat>, digit: nat)
    requires IsDecimal(buf)
    ensures var t := (buf + [digit])[|buf| := digit + 1];
            t == buf + [digit + 1] && Number(t) == 10 * Number(buf) + digit + 1 && t[..|t| - 1] == buf
  {
    assert (buf + [digit])[|buf| := digit + 1] == buf + [digit + 1];
    NumberSnoc(buf, digit + 1);
  }

  function CountDigits(n: nat): (k: nat)
    ensures k >= 1
  {
    if n < 10 then 1 else 1 + CountDigits(n / 10)
  }

  lemma {:induction false} CountDigitsBounds(n: nat)
    requires n > 0
    ensures Pow(10, CountDigits(n) - 1) <= n < Pow(10, CountDigits(n))
  {
    assert Pow(10, 0) == 1 && Pow(10, 1) == 10 * Pow(10, 0);
    if n >= 10 { CountDigitsBounds(n / 10); }
  }

  lemma Word32Digits(n: Word32)
    requires n > 0
    ensures 1 <= CountDigits(n) <= 10
  {
    CountDigitsBounds(n);
    if CountDigits(n) > 10 {
      PowMonotone(10, 10, CountDigits(n) - 1);
      TenToTheTen();
    }
  }

  lemma TenToTheTen()
    ensures Pow(10, 10) == 10_000_000_000
  {
    PowAdd(10, 5, 5);
    assert Pow(10, 5) == 100_000;
  }

  // What digits mean: q counts units of 10^exp in the scaled value f / one, which is known to
  // within one unit of f. Below the decimal point everything is scaled up by 10^-exp.
  predicate Meaning(q: int, exp: int, f: int, one: int) {
    if exp >= 0 then Trusted(q, Pow(10, exp) * one, f, 1)
    else Trusted(q, one, f * Pow(10, -exp), Pow(10, -exp))
  }

  function AtLeastOne(n: int): nat { if n < 1 then 1 else n }

  // The digits are final: as many as asked for (one more after a carry in fixed notation), the
  // last of them at 10^exp.
  predicate Finished(buf: seq<nat>, precision: int, carried: int, fixed: bool, exp: int, e0: int, f: int, one: int)
    requires carried >= 0
  {
    && IsDecimal(buf) && carried <= 1 && (fixed ==> carried == 0)
    && exp == e0 - AtLeastOne(precision)
    && (carried > 0 || |buf| != AtLeastOne(precision) ==> OneAndZeros(buf))
    && (|buf| == AtLeastOne(precision)
        || (|buf| == AtLeastOne(precision) + 1 && fixed && carried == 0 && buf[|buf| - 1] == 0))
    && Meaning(Number(buf) * Pow(10, carried), exp, f, one)
  }

  lemma PeelDigit(m: int, i: nat, p: nat)
    requires p > 0
    ensures m * (10 * p) + i == (10 * m + i / p) * p + i % p
    ensures i < 10 * p ==> i / p <= 9
  {
    MulAssoc(m, 10, p);
    Distribute(10 * m, i / p, p);
    if i / p >= 10 { MulMonotone(p, 10, i / p); }
  }

  lemma IntegralStep(m: int, i: nat, p: nat, one: int, fraction: int, f: int)
    requires p > 0 && 0 <= fraction < one && i < 10 * p
    requires f == (m * (10 * p) + i) * one + fraction
    ensures 0 <= i / p <= 9 && 0 <= (i % p) * one + fraction < p * one
    ensures f == (10 * m + i / p) * (p * one) + ((i % p) * one + fraction)
    ensures f == ((10 * m + i / p) * p + i % p) * one + fraction
  {
    PeelDigit(m, i, p);
    var d, r := 10 * m + i / p, i % p;
    Distribute(d * p, r, one);
    MulAssoc(d, p, one);
    MulMonotone(one, r, p - 1);
    MulMonotone(one, 0, r);
    Distribute(p, -1, one);
  }

  // The integral part is being written: m is out, integral and fraction are still to come, and
  // the unit of the next digit fits 64 bits.
  predicate Splitting(m: nat, integral: nat, exp: nat, one: Word64, fraction: nat, f: Word64) {
    && one > 2 && fraction < one
    && integral < Pow(10, exp)
    && f == (m * Pow(10, exp) + integral) * one + fraction
    && (exp > 0 ==> Pow(10, exp - 1) * one <= f)
  }

  lemma SplittingStarts(f: Word64, one: Word64, start: Word32)
    requires one > 2 && start == f / one && start > 0
    ensures Splitting(0, start, CountDigits(start), one, f % one, f)
  {
    CountDigitsBounds(start);
    MulMonotone(one, Pow(10, CountDigits(start) - 1), start);
  }

  lemma SplittingStep(m: nat, integral: nat, exp: nat, one: Word64, fraction: nat, f: Word64)
    requires exp > 0 && Splitting(m, integral, exp, one, fraction, f)
    ensures var p := Pow(10, exp - 1);
            && 0 < p && 0 <= integral / p <= 9 && 2 < p * one <= f
            && 0 <= (integral % p) * one + fraction < p * one
            && f == (10 * m + integral / p) * (p * one) + ((integral % p) * one + fraction)
            && Splitting(10 * m + integral / p, integral % p, exp - 1, one, fraction, f)
  {
    var p := Pow(10, exp - 1);
    PowPositive(10, exp - 1);
    IntegralStep(m, integral, p, one, fraction, f);
    MulMonotone(one, 1, p);
    if exp > 1 {
      PowMonotone(10, exp - 2, exp - 1);
      MulMonotone(one, Pow(10, exp - 2), p);
    }
  }

  // The value scaled by one cannot be rounded at 10^exp, as far as it is known.
  predicate UndecidedAt(exp: nat, f: int, one: int) {
    var unit := Pow(10, exp) * one;
    unit > 0 && Undecided(unit, f % unit, 1)
  }

  // One digit of the integral part.
  method IntegralDigit(f: Word64, one: Word64, handler: FixedHandler, integral: nat, fractional: nat, exp: nat,
                       ghost e0: nat)
    returns (result: Result, integral': nat)
    requires 0 < exp && |handler.buf| == e0 - exp && IsDecimal(handler.buf)
    requires handler.buf != [] ==> |handler.buf| < handler.precision
    requires handler.fixed ==> handler.precision > 0
    requires Splitting(Number(handler.buf), integral, exp, one, fractional, f)
    modifies handler`buf, handler`exp10
    ensures result != Done ==>
              && |handler.buf| == e0 - (exp - 1) && IsDecimal(handler.buf) && handler.exp10 == old(handler.exp10)
              && Splitting(Number(handler.buf), integral', exp - 1, one, fractional, f)
    ensures result == More ==> |handler.buf| < handler.precision
    ensures result != More ==> e0 - (exp - 1) == AtLeastOne(handler.precision)
                               && (result == Error <==> UndecidedAt(exp - 1, f, one))
    ensures result == Done ==>
              && handler.exp10 >= old(handler.exp10)
              && Finished(handler.buf, handler.precision, handler.exp10 - old(handler.exp10), handler.fixed, exp - 1,
                          e0, f, one)
  {
    ghost var m := Number(handler.buf);
    var p := Pow(10, exp - 1);
    SplittingStep(m, integral, exp, one, fractional, f);
    DivModUnique(f, p * one, 10 * m + integral / p, (integral % p) * one + fractional);
    var digit := integral / p;
    integral' := integral % p;
    var divisor: Word64 := p * one;
    var remainder: Word64 := integral' * one + fractional;
    NumberSnoc(handler.buf, digit);
    result := handler.OnDigit(digit, divisor, remainder, 1, true);
  }

  // Digits of the integral part; more is requested only while precision digits are not out.
  method IntegralDigits(f: Word64, one: Word64, handler: FixedHandler, start: Word32)
    returns (result: Result, exp: int)
    requires one > 2 && start == f / one && start > 0
    requires handler.buf == [] && (handler.fixed ==> handler.precision > 0)
    modifies handler`buf, handler`exp10
    ensures result == More ==>
              && exp == 0 && IsDecimal(handler.buf) && handler.exp10 == old(handler.exp10)
              && |handler.buf| == CountDigits(start) && |handler.buf| < handler.precision
              && f == Number(handler.buf) * one + f % one
    ensures result != More ==>
              && exp == CountDigits(start) - AtLeastOne(handler.precision) >= 0
              && (result == Error <==> UndecidedAt(exp, f, one))
    ensures result == Error ==> exp + |handler.buf| == CountDigits(start) && handler.exp10 == old(handler.exp10)
    ensures result == Done ==>
              && handler.exp10 >= old(handler.exp10)
              && Finished(handler.buf, handler.precision, handler.exp10 - old(handler.exp10), handler.fixed, exp,
                          CountDigits(start), f, one)
  {
    var integral: nat := start;
    var fractional := f % one;
    SplittingStarts(f, one, start);
    Word32Digits(start);
    exp := CountDigits(start);
    ghost var e0 := exp;
    while true
      invariant 0 < exp <= e0 <= 10
      invariant handler.exp10 == old(handler.exp10) && IsDecimal(handler.buf)
      invariant |handler.buf| == e0 - exp && (handler.buf != [] ==> |handler.buf| < handler.precision)
      invariant Splitting(Number(handler.buf), integral, exp, one, fractional, f)
      decreases exp
    {
      result, integral := IntegralDigit(f, one, handler, integral, fractional, exp, e0);
      exp := exp - 1;
      if result != More { return; }
      if exp == 0 { break; }
    }
    SplittingEnds(Number(handler.buf), integral, one, fractional, f);
  }

  lemma SplittingEnds(m: nat, integral: nat, one: Word64, fraction: nat, f: Word64)
    requires Splitting(m, integral, 0, one, fraction, f)
    ensures f == m * one + fraction
  {
    assert Pow(10, 0) == 1 && integral == 0;
  }

  // The fractional part is being written, everything scaled up by the power of ten t.
  predicate Fraction(m: nat, fractional: nat, one: Word64, t: nat, f: Word64) {
    && 0 <= fractional < one <= 0x1000_0000_0000_0000
    && t > 0 && f * t == m * one + fractional
  }

  lemma FractionStep(m: nat, fractional: nat, one: Word64, t: nat, f: Word64)
    requires Fraction(m, fractional, one, t, f)
    ensures 0 <= fractional * 10 / one <= 9
    ensures Fraction(10 * m + fractional * 10 / one, fractional * 10 % one, one, 10 * t, f)
    ensures f * (10 * t) == (10 * m + fractional * 10 / one) * one + fractional * 10 % one
  {
    var x := fractional * 10;
    var d, r := x / one, x % one;
    assert x == d * one + r;
    Distribute(10 * m, d, one);
    MulAssoc(10, m, one);
    MulAssoc(f, 10, t);
    MulAssoc(10, f, t);
    if d >= 10 { MulMonotone(one, 10, d); }
    if d < 0 { MulMonotone(one, d, -1); }
  }

  // At some of the first t fractional digits the error reaches what is left of the value.
  ghost predicate DrownsBy(t: nat, f: int, one: int)
    requires one > 0
  {
    exists i :: 1 <= i <= t && Drowns(i, f, one)
  }

  predicate Drowns(i: nat, f: int, one: int)
    requires one > 0
  {
    Pow(10, i) >= (f * Pow(10, i)) % one
  }

  predicate UndecidedBelow(t: nat, f: int, one: int)
    requires one > 0
  {
    Undecided(one, (f * Pow(10, t)) % one, Pow(10, t))
  }

  // One digit of the fractional part; the error grows with the scale.
  method FractionDigit(f: Word64, one: Word64, handler: FixedHandler, fractional: nat, error: nat, exp: int,
                       ghost e0: nat)
    returns (result: Result, fractional': nat, error': nat)
    requires exp <= 0 && |handler.buf| == e0 - exp && IsDecimal(handler.buf)
    requires 0 < |handler.buf| < handler.precision && error == Pow(10, -exp) < one
    requires Fraction(Number(handler.buf), fractional, one, error, f)
    modifies handler`buf, handler`exp10
    ensures error' == Pow(10, -(exp - 1))
    ensures result == More <==> |old(handler.buf)| + 1 < handler.precision && !Drowns(1 - exp, f, one)
    ensures result == Error <==> Drowns(1 - exp, f, one)
                                 || (|old(handler.buf)| + 1 >= handler.precision && UndecidedBelow(1 - exp, f, one))
    ensures result != Done ==>
              && |handler.buf| == e0 - (exp - 1) && IsDecimal(handler.buf) && handler.exp10 == old(handler.exp10)
    ensures result == More ==>
              && |handler.buf| < handler.precision && error' < one
              && Fraction(Number(handler.buf), fractional', one, error', f)
    ensures result == Done ==>
              && handler.exp10 >= old(handler.exp10)
              && Finished(handler.buf, handler.precision, handler.exp10 - old(handler.exp10), handler.fixed, exp - 1,
                          e0, f, one)
  {
    ghost var m := Number(handler.buf);
    FractionStep(m, fractional, one, error, f);
    DivModUnique(f * (10 * error), one, 10 * m + fractional * 10 / one, fractional * 10 % one);
    var scaled: Word64 := fractional * 10;
    var scaledError: Word64 := error * 10;
    var digit := scaled / one;
    fractional', error' := scaled % one, scaledError;
    NumberSnoc(handler.buf, digit);
    result := handler.OnDigit(digit, one, fractional', error', false);
  }

  // Digits of the fractional part until enough are out or the error drowns them.
  method FractionDigits(f: Word64, one: Word64, handler: FixedHandler, ghost e0: nat) returns (result: Result, exp: int)
    requires 2 < one <= 0x1000_0000_0000_0000 && IsDecimal(handler.buf)
    requires 0 < |handler.buf| < handler.precision && |handler.buf| == e0
    requires f == Number(handler.buf) * one + f % one
    modifies handler`buf, handler`exp10
    ensures result != More && exp < 0
    ensures var t := handler.precision - e0;
            result == Error <==> DrownsBy(t, f, one) || UndecidedBelow(t, f, one)
    ensures result == Error ==> exp + |handler.buf| == e0 && handler.exp10 == old(handler.exp10)
    ensures result == Done ==>
              && handler.exp10 >= old(handler.exp10)
              && Finished(handler.buf, handler.precision, handler.exp10 - old(handler.exp10), handler.fixed, exp,
                          e0, f, one)
  {
    var fractional: nat := f % one;
    var error: nat := 1;
    exp := 0;
    assert Pow(10, 0) == 1;
    while true
      invariant exp <= 0 && |handler.buf| == e0 - exp && IsDecimal(handler.buf)
      invariant 0 < |handler.buf| < handler.precision && error == Pow(10, -exp) < one
      invariant Fraction(Number(handler.buf), fractional, one, error, f)
      invariant handler.exp10 == old(handler.exp10) && !DrownsBy(-exp, f, one)
      decreases handler.precision - |handler.buf|
    {
      result, fractional, error := FractionDigit(f, one, handler, fractional, error, exp, e0);
      exp := exp - 1;
      if result != More { return; }
    }
  }

  // When the generator gives up: the direction at the requested digit is not known, or below
  // the decimal point the error has caught up with the value before.
  ghost predicate GivesUp(precision: int, fixed: bool, e0: nat, f: Word64, one: Word64)
    requires e0 > 0 && one > 0
  {
    if fixed && precision <= 0 then precision == 0 && Undecided(Pow(10, e0 - 1) * one, f / 10, 10)
    else if AtLeastOne(precision) <= e0 then UndecidedAt(e0 - AtLeastOne(precision), f, one)
    else DrownsBy(precision - e0, f, one) || UndecidedBelow(precision - e0, f, one)
  }

  // What the generator reports; e0 is the number of digits before the decimal point.
  predicate Generated(result: Result, exp: int, buf: seq<nat>, precision: int, carried: int, fixed: bool,
                      e0: nat, f: Word64, one: Word64)
  {
    match result
    case More => false
    case Error => exp + |buf| == e0 && carried == 0 && (fixed ==> precision >= 0)
    case Done =>
      carried >= 0 &&
      if !fixed || precision > 0 then Finished(buf, precision, carried, fixed, exp, e0, f, one)
      else
        exp == e0 && carried == 0 && f < Pow(10, e0) * one
        && (precision < 0 ==> buf == [])
        && (precision == 0 ==> |buf| == 1 && IsDecimal(buf) && Meaning(Number(buf), exp, f, one))
  }

  // The whole generator, for a scaled value f / one with an error of one unit of f.
  method GenDigits(f: Word64, s: nat, one: Word64, handler: FixedHandler) returns (result: Result, exp: int)
    requires 32 <= s <= 60 && one == Pow(2, s) && one <= f
    requires handler.buf == []
    modifies handler`buf, handler`precision, handler`exp10
    ensures one > 0
    ensures var e0 := CountDigits(f / one);
            && handler.precision == (if handler.fixed then old(handler.precision) + e0 + old(handler.exp10)
                                     else old(handler.precision))
            && Generated(result, exp, handler.buf, handler.precision, handler.exp10 - old(handler.exp10),
                         handler.fixed, e0, f, one)
            && (result == Error <==> GivesUp(handler.precision, handler.fixed, e0, f, one))
  {
    OneBounds(s);
    QuotientLess(f, one, 0x1_0000_0000);
    QuotientPositive(f, one);
    var integral: Word32 := f / one;
    exp := CountDigits(integral);
    StartArguments(f, one, integral, exp);
    result := handler.OnStart(Pow(10, exp - 1) * one, f / 10, 1 * 10, exp);
    if result != More {
      if handler.buf != [] { RoundedAtStart(f, one, exp, handler.buf); }
      return;
    }
    result, exp := IntegralDigits(f, one, handler, integral);
    if result != More { return; }
    result, exp := FractionDigits(f, one, handler, CountDigits(integral));
  }

  lemma OneBounds(s: nat)
    requires 32 <= s <= 60
    ensures 0x1_0000_0000 <= Pow(2, s) <= 0x1000_0000_0000_0000
  {
    PowMonotone(2, 32, s);
    PowMonotone(2, s, 60);
    TwoToThe32();
    TwoToThe60();
  }

  lemma QuotientPositive(f: Word64, one: Word64)
    requires 0 < one <= f
    ensures f / one > 0
  {
    DivIdentity(f, one);
    if f / one <= 0 { MulMonotone(one, f / one, 0); }
  }

  // The arguments passed on start: value and divisor a tenth of what they stand for, so that
  // they fit, and the error ten times too large, which only makes the decision more careful.
  lemma StartArguments(f: Word64, one: Word64, integral: nat, e: nat)
    requires one >= 0x1_0000_0000 && integral == f / one && integral > 0 && e == CountDigits(integral)
    ensures var divisor := Pow(10, e - 1) * one;
            20 < divisor <= f && f / 10 < divisor && f < Pow(10, e) * one
  {
    CountDigitsBounds(integral);
    DivIdentity(f, one);
    TenthFits(f, one, integral, Pow(10, e - 1));
  }

  lemma TenthFits(f: int, one: int, integral: int, p: int)
    requires one > 20 && integral * one <= f < integral * one + one && 0 < p <= integral < 10 * p
    ensures 20 < p * one <= f && f / 10 < p * one && f < (10 * p) * one
  {
    MulMonotone(one, 1, p);
    MulMonotone(one, p, integral);
    MulMonotone(one, integral + 1, 10 * p);
    Distribute(integral, 1, one);
    MulAssoc(10, p, one);
  }

  lemma RoundedAtStart(f: Word64, one: Word64, exp: nat, buf: seq<nat>)
    requires exp > 0 && |buf| == 1
    requires var divisor := Pow(10, exp - 1) * one;
             && 20 < divisor < 0x1_0000_0000_0000_0000 && f / 10 < divisor
             && ((buf[0] == 1 && GetRoundDirection(divisor, f / 10, 10) == Up)
                 || (buf[0] == 0 && GetRoundDirection(divisor, f / 10, 10) == Down))
    ensures Meaning(Number(buf), exp, f, one)
  {
    NumberSnoc([], buf[0]);
    assert [] + [buf[0]] == buf;
    MulAssoc(10, Pow(10, exp - 1), one);
  }
}
