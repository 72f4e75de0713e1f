// fallback_format as a whole: the value f * 2^e is set up as a ratio of two exact integers
// scaled by 10^exp10, with half the distances to the neighbouring values beside it, and the
// digit generators are run on them.

module FallbackFormat {
  import opened Powers
  import opened Words
  import opened BigIntegers
  import opened Decimals
  import opened Dragon

  function Pos(x: int): nat { if x > 0 then x else 0 }

  // The integers the setup is to produce. An extra factor of two, or four when the predecessor
  // is closer than the successor, makes the two distances integers.
  function NumeratorOf(f: nat, e: int, shift: nat, exp10: int): nat {
    (f * Pow(2, shift)) * LowerOf(e, exp10)
  }

  function DenominatorOf(e: int, shift: nat, exp10: int): nat {
    Pow(10, Pos(exp10)) * Pow(2, shift + Pos(-e))
  }

  function LowerOf(e: int, exp10: int): nat {
    Pow(2, Pos(e)) * Pow(10, Pos(-exp10))
  }

  function UpperOf(e: int, shift: nat, exp10: int): nat
    requires shift > 0
  {
    LowerOf(e, exp10) * Pow(2, shift - 1)
  }

  function ShiftOf(predecessorCloser: bool): nat { if predecessorCloser then 2 else 1 }

  // numerator / denominator * 10^exp10 is the value, and lower / denominator * 10^exp10 is half
  // of the last binary place (a quarter when the predecessor is closer).
  lemma RatioIsValue(f: nat, e: int, shift: nat, exp10: int)
    ensures NumeratorOf(f, e, shift, exp10) * (Pow(10, Pos(exp10)) * Pow(2, Pos(-e)))
         == f * (LowerOf(e, exp10) * DenominatorOf(e, shift, exp10))
    ensures LowerOf(e, exp10) * (Pow(10, Pos(exp10)) * Pow(2, Pos(-e))) * Pow(2, shift)
         == LowerOf(e, exp10) * DenominatorOf(e, shift, exp10)
  {
    var a, b, c, l := Pow(10, Pos(exp10)), Pow(2, Pos(-e)), Pow(2, shift), LowerOf(e, exp10);
    PowAdd(2, shift, Pos(-e));
    Rearrange(f, a, b, c, l);
  }

  // The boundaries stand halfway to the neighbours: half a binary place above, and below half a
  // place, or a quarter when the predecessor is closer.
  lemma BoundariesAreHalfway(e: int, predecessorCloser: bool, exp10: int)
    ensures var shift, w := ShiftOf(predecessorCloser), Pow(10, Pos(exp10)) * Pow(2, Pos(-e));
            var unit := LowerOf(e, exp10) * DenominatorOf(e, shift, exp10);
            && (UpperOf(e, shift, exp10) * w) * 2 == unit
            && (LowerOf(e, exp10) * w) * (if predecessorCloser then 4 else 2) == unit
  {
    var shift, w, l := ShiftOf(predecessorCloser), Pow(10, Pos(exp10)) * Pow(2, Pos(-e)), LowerOf(e, exp10);
    RatioIsValue(0, e, shift, exp10);
    assert Pow(2, 0) == 1 && Pow(2, 1) == 2 && Pow(2, 2) == 4;
    Swap3(l, Pow(2, shift - 1), w);
  }

  lemma Rearrange(f: int, a: int, b: int, c: int, l: int)
    ensures ((f * c) * l) * (a * b) == f * (l * (a * (c * b)))
    ensures (l * (a * b)) * c == l * (a * (c * b))
  {
    calc {
      ((f * c) * l) * (a * b);
      { MulAssoc(f, c, l); MulAssoc(f, c * l, a * b); }
      f * ((c * l) * (a * b));
      { Shuffle(a, b, c, l); }
      f * (l * (a * (c * b)));
    }
    Shuffle(a, b, c, l);
    MulAssoc(l, a * b, c);
    MulAssoc(a, b, c);
  }

  lemma Shuffle(a: int, b: int, c: int, l: int)
    ensures (c * l) * (a * b) == l * (a * (c * b))
  {
    MulAssoc(l, c, a * b);
    MulAssoc(c, a, b);
    MulAssoc(a, c, b);
  }

  // What the three branches of the setup have in common.
  ghost predicate Operands(numerator: Bigint, denominator: Bigint, lower: Bigint, upper: Bigint,
                           n: int, d: int, l: int, u: int)
    reads numerator, denominator, lower, upper
  {
    && numerator != denominator && numerator != lower && denominator != lower
    && upper != numerator && upper != denominator
    && numerator.Normalized() && denominator.Normalized() && lower.Normalized() && upper.Normalized()
    && numerator.Value() == n && denominator.Value() == d && lower.Value() == l && upper.Value() == u
    && numerator.exp == lower.exp
  }

  method Shifted(n: DoubleBigit, shift: nat) returns (b: Bigint)
    requires n > 0
    ensures fresh(b) && b.Normalized() && b.Value() == n * Pow(2, shift) && b.exp == shift / 32
  {
    b := new Bigint();
    b.Assign(n);
    b.ShiftLeft(shift);
  }

  // upper starts out as the same object as lower and gets its own only in the closer case.
  method PrepareIntegral(significand: DoubleBigit, e: nat, shift: nat, exp10: nat)
    returns (numerator: Bigint, denominator: Bigint, lower: Bigint, upper: Bigint)
    requires significand > 0 && 1 <= shift <= 2 && exp10 < 0x4000_0000
    ensures fresh(numerator) && fresh(denominator) && fresh(lower) && fresh(upper)
    ensures Operands(numerator, denominator, lower, upper, significand * Pow(2, e),
                     Pow(10, exp10) * Pow(2, shift), Pow(2, e), if shift == 1 then Pow(2, e) else Pow(2, e + 1))
    ensures numerator.exp == e / 32 && denominator.exp == exp10 / 32
  {
    numerator := Shifted(significand, e);
    lower := Shifted(1, e);
    upper := lower;
    if shift != 1 {
      upper := Shifted(1, e + 1);
    }
    denominator := new Bigint();
    denominator.AssignPow10(exp10);
    denominator.ShiftLeft(shift);
  }

  method Doubled(source: Bigint) returns (b: Bigint)
    requires source.Normalized()
    ensures fresh(b) && b.Normalized() && b.Value() == source.Value() * Pow(2, 1)
  {
    b := new Bigint();
    b.AssignFrom(source);
    b.ShiftLeft(1);
  }

  method PrepareTiny(significand: DoubleBigit, e: nat, shift: nat, exp10: nat)
    returns (numerator: Bigint, denominator: Bigint, lower: Bigint, upper: Bigint)
    requires significand > 0 && 1 <= shift <= 2 && exp10 < 0x4000_0000
    ensures fresh(numerator) && fresh(denominator) && fresh(lower) && fresh(upper)
    ensures Operands(numerator, denominator, lower, upper, Pow(10, exp10) * significand,
                     Pow(2, shift + e), Pow(10, exp10), if shift == 1 then Pow(10, exp10) else Pow(10, exp10) * Pow(2, 1))
    ensures numerator.exp == exp10 / 32 && denominator.exp == (shift + e) / 32
  {
    numerator := new Bigint();
    numerator.AssignPow10(exp10);
    lower := new Bigint();
    lower.AssignFrom(numerator);
    upper := lower;
    if shift != 1 {
      upper := Doubled(numerator);
    }
    numerator.MultiplyDouble(significand);
    denominator := Shifted(1, shift + e);
  }

  method PrepareFraction(significand: DoubleBigit, e: nat, shift: nat, exp10: nat)
    returns (numerator: Bigint, denominator: Bigint, lower: Bigint, upper: Bigint)
    requires significand > 0 && 1 <= shift <= 2 && exp10 < 0x4000_0000
    ensures fresh(numerator) && fresh(denominator) && fresh(lower) && fresh(upper)
    ensures Operands(numerator, denominator, lower, upper, significand,
                     Pow(10, exp10) * Pow(2, shift + e), 1, if shift == 1 then 1 else 2)
    ensures numerator.exp == 0
  {
    numerator := new Bigint();
    denominator := new Bigint();
    lower := new Bigint();
    upper := lower;
    numerator.Assign(significand);
    denominator.AssignPow10(exp10);
    denominator.ShiftLeft(shift + e);
    lower.Assign(1);
    if shift != 1 {
      upper := new Bigint();
      upper.Assign(2);
    }
  }

  lemma BranchForms(f: nat, e: int, shift: nat, exp10: int)
    requires 1 <= shift <= 2
    ensures e >= 0 && exp10 >= 0 ==>
              && NumeratorOf(f, e, shift, exp10) == (f * Pow(2, shift)) * Pow(2, e)
              && DenominatorOf(e, shift, exp10) == Pow(10, exp10) * Pow(2, shift)
              && LowerOf(e, exp10) == Pow(2, e)
              && UpperOf(e, shift, exp10) == (if shift == 1 then Pow(2, e) else Pow(2, e + 1))
    ensures e < 0 && exp10 < 0 ==>
              && NumeratorOf(f, e, shift, exp10) == Pow(10, -exp10) * (f * Pow(2, shift))
              && DenominatorOf(e, shift, exp10) == Pow(2, shift - e)
              && LowerOf(e, exp10) == Pow(10, -exp10)
              && UpperOf(e, shift, exp10) == (if shift == 1 then Pow(10, -exp10) else Pow(10, -exp10) * Pow(2, 1))
    ensures e < 0 && exp10 >= 0 ==>
              && NumeratorOf(f, e, shift, exp10) == f * Pow(2, shift)
              && DenominatorOf(e, shift, exp10) == Pow(10, exp10) * Pow(2, shift - e)
              && LowerOf(e, exp10) == 1
              && UpperOf(e, shift, exp10) == (if shift == 1 then 1 else 2)
  {
    assert Pow(2, 0) == 1 && Pow(2, 1) == 2 && Pow(10, 0) == 1;
    if e >= 0 { assert Pow(2, e + 1) == 2 * Pow(2, e); }
  }

  // When the comparison with the lower boundary is exact also on the boundary itself: the
  // power of two in the value must not reach a word above the denominator's own.
  predicate BoundaryJudged(e: int, shift: nat, exp10: int) {
    if e >= 0 then e / 32 <= exp10 / 32
    else exp10 < 0 ==> -exp10 / 32 <= (shift - e) / 32
  }

  // The four integers for any finite positive value.
  method Prepare(f: nat, e: int, predecessorCloser: bool, exp10: int)
    returns (numerator: Bigint, denominator: Bigint, lower: Bigint, upper: Bigint)
    requires 0 < f < 0x20_0000_0000_0000
    requires -0x4000_0000 < exp10 < 0x4000_0000 && (e >= 0 ==> exp10 >= 0)
    ensures fresh(numerator) && fresh(denominator) && fresh(lower) && fresh(upper)
    ensures var shift := ShiftOf(predecessorCloser);
            Operands(numerator, denominator, lower, upper, NumeratorOf(f, e, shift, exp10),
                     DenominatorOf(e, shift, exp10), LowerOf(e, exp10), UpperOf(e, shift, exp10))
    ensures NeverMisjudged(numerator.Num(), denominator.Num())
    ensures lower.exp <= denominator.exp <==> BoundaryJudged(e, ShiftOf(predecessorCloser), exp10)
  {
    var shift := ShiftOf(predecessorCloser);
    assert Pow(2, shift) == if predecessorCloser then 4 else 2 by {
      assert Pow(2, 0) == 1 && Pow(2, 1) == 2 * Pow(2, 0) && Pow(2, 2) == 2 * Pow(2, 1);
    }
    var significand: DoubleBigit := (f * (if predecessorCloser then 4 else 2)) % 0x1_0000_0000_0000_0000;
    BranchForms(f, e, shift, exp10);
    if e >= 0 {
      numerator, denominator, lower, upper := PrepareIntegral(significand, e, shift, exp10);
      NeverEqualAbove(f, e, shift, exp10);
    } else if exp10 < 0 {
      numerator, denominator, lower, upper := PrepareTiny(significand, -e, shift, -exp10);
      NeverEqualTiny(f * Pow(2, shift), -exp10, shift - e);
    } else {
      numerator, denominator, lower, upper := PrepareFraction(significand, -e, shift, exp10);
    }
  }

  // ---- Powers of ten never meet the value where compare would misjudge them ----

  lemma {:induction false} FivePowerIsOdd(n: nat)
    ensures Pow(5, n) % 2 == 1
  {
    if n > 0 { FivePowerIsOdd(n - 1); }
  }

  lemma {:induction false} TwoPowerNotTimesFive(n: nat, k: nat)
    ensures Pow(2, n) != 5 * k
    decreases n
  {
    if n > 0 {
      if Pow(2, n) == 5 * k {
        assert k % 2 == 0;
        TwoPowerNotTimesFive(n - 1, k / 2);
      }
    }
  }

  lemma EvenProduct(c: int, k: int)
    ensures (c * (2 * k)) % 2 == 0
  {
    MulAssoc(2, c, k);
    MulAssoc(c, 2, k);
    DivModUnique(c * (2 * k), 2, c * k, 0);
  }

  // A power of ten that is a multiple of 2^e has at least e factors of two.
  lemma TwosInTen(c: nat, e: nat, n: nat)
    requires c * Pow(2, e) == Pow(10, n)
    ensures e <= n
  {
    PowMul(5, 2, n);
    if e > n {
      var k := Pow(2, e - n - 1);
      PowAdd(2, e - n, n);
      assert Pow(2, e - n) == 2 * k;
      MulAssoc(c, 2 * k, Pow(2, n));
      CancelEqual(Pow(2, n), c * (2 * k), Pow(5, n));
      FivePowerIsOdd(n);
      EvenProduct(c, k);
    }
  }

  lemma CancelEqual(w: nat, a: int, b: int)
    requires a * w == b * w && w > 0
    ensures a == b
  {
    if a < b { MulStrict(w, a, b); }
    if b < a { MulStrict(w, b, a); }
  }

  // An integral value reaches further down than the denominator only when it cannot become a
  // power of ten by appending zeros.
  lemma NeverEqualAbove(f: nat, e: nat, shift: nat, exp10: nat)
    ensures e / 32 <= exp10 / 32
            || forall k: nat :: ((f * Pow(2, shift)) * Pow(2, e)) * Pow(10, k) != Pow(10, exp10) * Pow(2, shift)
  {
    if e / 32 > exp10 / 32 {
      forall k: nat ensures ((f * Pow(2, shift)) * Pow(2, e)) * Pow(10, k) != Pow(10, exp10) * Pow(2, shift) {
        if ((f * Pow(2, shift)) * Pow(2, e)) * Pow(10, k) == Pow(10, exp10) * Pow(2, shift) {
          CommonFactor(f, Pow(2, shift), Pow(2, e), Pow(10, k));
          PowPositive(2, shift);
          CancelEqual(Pow(2, shift), (f * Pow(10, k)) * Pow(2, e), Pow(10, exp10));
          TwosInTen(f * Pow(10, k), e, exp10);
          assert false;
        }
      }
    }
  }

  lemma CommonFactor(f: int, s: int, e: int, t: int)
    ensures ((f * s) * e) * t == ((f * t) * e) * s
  {
    MulAssoc(f * s, e, t);
    MulAssoc(f, s, e * t);
    MulAssoc(s, e, t);
    MulAssoc(f, t, e);
    MulAssoc(f, t * e, s);
  }

  // A negative power of ten leaves a factor of five that no power of two can match.
  lemma TakeOutFive(x: nat, c: nat, p: nat)
    ensures ((10 * x) * c) * p == 5 * (2 * ((x * c) * p)) >= 0
  {
    MulAssoc(10, x, c);
    MulAssoc(10, x * c, p);
    MulAssoc(5, 2, (x * c) * p);
  }

  lemma NeverEqualTiny(c: nat, n: nat, m: nat)
    requires n > 0
    ensures forall k: nat :: (Pow(10, n) * c) * Pow(10, k) != Pow(2, m)
  {
    forall k: nat ensures (Pow(10, n) * c) * Pow(10, k) != Pow(2, m) {
      var x := Pow(10, n - 1);
      TakeOutFive(x, c, Pow(10, k));
      TwoPowerNotTimesFive(m, 2 * ((x * c) * Pow(10, k)));
    }
  }

  // What each kind of request returns, for the ratio n / d with distances l / d and u / d.
  predicate FixedOutcome(buf: seq<nat>, exp': int, exp10: int, count: nat, n: nat, d: nat)
    requires count > 0 && d > 0
  {
    && |buf| == count && IsDecimal(buf)
    && exp10 - (count - 1) <= exp' <= exp10 - (count - 1) + 1
    && Number(buf) * Pow(10, exp' - (exp10 - (count - 1))) == RoundHalfEven(n * Pow(10, count - 1), d)
    && (exp' == exp10 - (count - 1) + 1 <==> RoundHalfEven(n * Pow(10, count - 1), d) == Pow(10, count))
  }

  predicate EmptyOutcome(buf: seq<nat>, exp': int, exp10: int, n: nat, d: nat)
    requires d > 0
  {
    && |buf| == 1 && IsDecimal(buf)
    && exp' == exp10 + 1
    && Number(buf) == RoundHalfEven(n, 10 * d)
  }

  // The shortest decimal of the interval, and the closest of those. The upper boundary belongs
  // to the interval for an even significand; the lower one does too if it is judged right.
  ghost predicate ShortestOutcome(buf: seq<nat>, exp': int, exp10: int, n: nat, d: nat, l: nat, u: nat,
                                  even: bool, judged: bool)
  {
    && buf != [] && IsDecimal(buf)
    && exp' == exp10 - (|buf| - 1)
    && BetweenAt(Number(buf), |buf| - 1, n, d, l, u, even && judged, even)
    && ClosestOfItsLength(Number(buf), |buf| - 1, n, d, l, u, even && judged, even)
    && NoShorter(|buf| - 1, n, d, l, u, even && judged, even)
  }

  // ---- When leaving out the lower boundary costs digits ----

  // With j digits after the first the boundary is a decimal and the only one in the interval.
  predicate BoundaryAt(j: nat, n: int, d: int, l: int, u: int)
    requires d > 0
  {
    ((n - l) * Pow(10, j)) % d == 0 && (l + u) * Pow(10, j) < d
  }

  ghost predicate BoundaryIsShortest(n: int, d: int, l: int, u: int)
    requires d > 0
  {
    exists j: nat :: BoundaryAt(j, n, d, l, u)
  }

  // No decimal of at most i digits after the first is in the interval when the next one after
  // the boundary is not.
  lemma OnlyTheBoundary(c: int, j: nat, i: nat, n: int, d: int, l: int, u: int)
    requires d > 0 && j <= i && BoundaryAt(i, n, d, l, u)
    ensures !BetweenAt(c, j, n, d, l, u, false, true)
  {
    PowAdd(10, j, i - j);
    PowPositive(10, i - j);
    OnlyMultiple(c, Pow(10, j), Pow(10, i - j), n, d, l, u);
  }

  lemma OnlyMultiple(c: int, p: int, t: int, n: int, d: int, l: int, u: int)
    requires d > 0 && t > 0 && ((n - l) * (p * t)) % d == 0 && (l + u) * (p * t) < d
    ensures !(n * p - l * p < c * d <= n * p + u * p)
  {
    var b, g := (n - l) * p, (l + u) * p;
    MulAssoc(n - l, p, t);
    MulAssoc(l + u, p, t);
    Distribute(n, -l, p);
    Distribute(l, u, p);
    NoMultipleBetween(c, t, d, b, g);
  }

  lemma NoMultipleBetween(c: int, t: int, d: int, b: int, g: int)
    requires d > 0 && t > 0 && (b * t) % d == 0 && g * t < d
    ensures !(b < c * d <= b + g)
  {
    if b < c * d <= b + g {
      var k := (b * t) / d;
      DivIdentity(b * t, d);
      Distribute(b, g, t);
      MulStrict(t, b, c * d);
      MulMonotone(t, c * d, b + g);
      Distribute(k, 1, d);
      Swap3(c, d, t);
      if c * t <= k { MulMonotone(d, c * t, k); }
      if c * t >= k + 1 { MulMonotone(d, k + 1, c * t); }
      assert false;
    }
  }

  // A decimal of the closed interval that is outside the half-open one is the boundary, and
  // its successor lies beyond the interval.
  lemma TheBoundary(k: int, i: nat, n: int, d: int, l: int, u: int)
    requires d > 0 && BetweenAt(k, i, n, d, l, u, true, true) && NoneBetween(i, n, d, l, u, false, true)
    ensures BoundaryAt(i, n, d, l, u)
  {
    var p := Pow(10, i);
    assert !BetweenAt(k, i, n, d, l, u, false, true);
    assert !BetweenAt(k + 1, i, n, d, l, u, false, true);
    Distribute(n, -l, p);
    Distribute(l, u, p);
    Distribute(k, 1, d);
    DivModUnique((n - l) * p, d, k, 0);
  }

  // A result that is shortest without the lower boundary is shortest with it, too, exactly if
  // the boundary is not shorter than everything else.
  lemma ShortestWithBoundary(c: int, j: nat, n: int, d: int, l: int, u: int)
    requires d > 0 && l + u >= 0
    requires BetweenAt(c, j, n, d, l, u, false, true) && NoShorter(j, n, d, l, u, false, true)
    ensures NoShorter(j, n, d, l, u, true, true) <==> !BoundaryIsShortest(n, d, l, u)
  {
    if BoundaryIsShortest(n, d, l, u) {
      var i: nat :| BoundaryAt(i, n, d, l, u);
      ShorterExists(c, j, i, n, d, l, u);
    } else {
      NoneShorter(j, n, d, l, u);
    }
  }

  lemma ShorterExists(c: int, j: nat, i: nat, n: int, d: int, l: int, u: int)
    requires d > 0 && l + u >= 0 && BetweenAt(c, j, n, d, l, u, false, true) && BoundaryAt(i, n, d, l, u)
    ensures i < j && !NoneBetween(i, n, d, l, u, true, true) && !NoShorter(j, n, d, l, u, true, true)
  {
    if j <= i { OnlyTheBoundary(c, j, i, n, d, l, u); }
    BoundaryIsBetween(i, n, d, l, u);
  }

  lemma NoneShorter(j: nat, n: int, d: int, l: int, u: int)
    requires d > 0 && NoShorter(j, n, d, l, u, false, true) && !BoundaryIsShortest(n, d, l, u)
    ensures NoShorter(j, n, d, l, u, true, true)
  {
    forall i: nat, k | i < j ensures !BetweenAt(k, i, n, d, l, u, true, true) {
      if BetweenAt(k, i, n, d, l, u, true, true) { TheBoundary(k, i, n, d, l, u); }
    }
  }

  lemma BoundaryIsBetween(i: nat, n: int, d: int, l: int, u: int)
    requires d > 0 && BoundaryAt(i, n, d, l, u) && l + u >= 0
    ensures BetweenAt(((n - l) * Pow(10, i)) / d, i, n, d, l, u, true, true)
  {
    DivIdentity((n - l) * Pow(10, i), d);
    Distribute(n, -l, Pow(10, i));
    Distribute(l, u, Pow(10, i));
    PowPositive(10, i);
    MulMonotone(Pow(10, i), 0, l + u);
  }

  // The value f * 2^e loses its lower boundary, and a shorter decimal with it.
  ghost predicate BoundaryLost(f: nat, e: int, shift: nat, exp10: int)
    requires shift > 0 && DenominatorOf(e, shift, exp10) > 0
  {
    && f % 2 == 0 && !BoundaryJudged(e, shift, exp10)
    && BoundaryIsShortest(NumeratorOf(f, e, shift, exp10), DenominatorOf(e, shift, exp10), LowerOf(e, exp10),
                          UpperOf(e, shift, exp10))
  }

  // The digits are shortest of the whole rounding interval except for those values.
  lemma ShortestExactly(buf: seq<nat>, exp': int, f: nat, e: int, shift: nat, exp10: int)
    requires shift > 0 && DenominatorOf(e, shift, exp10) > 0
    requires ShortestOutcome(buf, exp', exp10, NumeratorOf(f, e, shift, exp10), DenominatorOf(e, shift, exp10),
                             LowerOf(e, exp10), UpperOf(e, shift, exp10), f % 2 == 0, BoundaryJudged(e, shift, exp10))
    ensures NoShorter(|buf| - 1, NumeratorOf(f, e, shift, exp10), DenominatorOf(e, shift, exp10),
                      LowerOf(e, exp10), UpperOf(e, shift, exp10), f % 2 == 0, f % 2 == 0)
            <==> !BoundaryLost(f, e, shift, exp10)
  {
    var n, d := NumeratorOf(f, e, shift, exp10), DenominatorOf(e, shift, exp10);
    var l, u := LowerOf(e, exp10), UpperOf(e, shift, exp10);
    if f % 2 == 0 && !BoundaryJudged(e, shift, exp10) {
      ShortestWithBoundary(Number(buf), |buf| - 1, n, d, l, u);
    }
  }

  lemma DenominatorPositive(e: int, shift: nat, exp10: int)
    ensures DenominatorOf(e, shift, exp10) > 0
  {
    PowPositive(10, Pos(exp10));
    PowPositive(2, shift + Pos(-e));
    MulPositive(Pow(10, Pos(exp10)), Pow(2, shift + Pos(-e)));
  }

  method FormatFixed(f: nat, e: int, predecessorCloser: bool, count: nat, exp10: int)
    returns (buf: seq<nat>, exp': int)
    requires 0 < f < 0x20_0000_0000_0000 && count > 0
    requires -0x4000_0000 < exp10 < 0x4000_0000 && (e >= 0 ==> exp10 >= 0)
    requires var shift := ShiftOf(predecessorCloser);
             NumeratorOf(f, e, shift, exp10) < 10 * DenominatorOf(e, shift, exp10)
    ensures var shift := ShiftOf(predecessorCloser);
            && DenominatorOf(e, shift, exp10) > 0
            && FixedOutcome(buf, exp', exp10, count, NumeratorOf(f, e, shift, exp10), DenominatorOf(e, shift, exp10))
  {
    DenominatorPositive(e, ShiftOf(predecessorCloser), exp10);
    var numerator, denominator, lower, upper := Prepare(f, e, predecessorCloser, exp10);
    buf, exp' := FixedDigits(numerator, denominator, count, exp10);
  }

  method FormatEmpty(f: nat, e: int, predecessorCloser: bool, exp10: int)
    returns (buf: seq<nat>, exp': int)
    requires 0 < f < 0x20_0000_0000_0000
    requires -0x4000_0000 < exp10 < 0x4000_0000 && (e >= 0 ==> exp10 >= 0)
    requires var shift := ShiftOf(predecessorCloser);
             NumeratorOf(f, e, shift, exp10) < 10 * DenominatorOf(e, shift, exp10)
    ensures var shift := ShiftOf(predecessorCloser);
            && DenominatorOf(e, shift, exp10) > 0
            && EmptyOutcome(buf, exp', exp10, NumeratorOf(f, e, shift, exp10), DenominatorOf(e, shift, exp10))
  {
    DenominatorPositive(e, ShiftOf(predecessorCloser), exp10);
    var numerator, denominator, lower, upper := Prepare(f, e, predecessorCloser, exp10);
    buf, exp' := NoDigits(numerator, denominator, exp10);
  }

  lemma LowerIsBelow(f: nat, e: int, shift: nat, exp10: int)
    requires f > 0 && shift > 0
    ensures 0 < LowerOf(e, exp10) < NumeratorOf(f, e, shift, exp10)
  {
    var l, s := LowerOf(e, exp10), Pow(2, shift);
    PowPositive(2, Pos(e));
    PowPositive(10, Pos(-exp10));
    MulPositive(Pow(2, Pos(e)), Pow(10, Pos(-exp10)));
    PowPositive(2, shift - 1);
    MulMonotone(s, 1, f);
    MulStrict(l, 1, f * s);
  }

  method FormatShortest(f: nat, e: int, predecessorCloser: bool, exp10: int)
    returns (buf: seq<nat>, exp': int)
    requires 0 < f < 0x20_0000_0000_0000
    requires -0x4000_0000 < exp10 < 0x4000_0000 && (e >= 0 ==> exp10 >= 0)
    requires var shift := ShiftOf(predecessorCloser);
             NumeratorOf(f, e, shift, exp10) + UpperOf(e, shift, exp10) + (if f % 2 == 0 then 1 else 0)
             <= 10 * DenominatorOf(e, shift, exp10)
    ensures var shift := ShiftOf(predecessorCloser);
            ShortestOutcome(buf, exp', exp10, NumeratorOf(f, e, shift, exp10), DenominatorOf(e, shift, exp10),
                            LowerOf(e, exp10), UpperOf(e, shift, exp10), f % 2 == 0, BoundaryJudged(e, shift, exp10))
  {
    LowerIsBelow(f, e, ShiftOf(predecessorCloser), exp10);
    var numerator, denominator, lower, upper := Prepare(f, e, predecessorCloser, exp10);
    buf, exp' := ShortestDigits(numerator, denominator, lower, upper, f % 2 == 0, exp10);
  }

  // The digits of f * 2^e. A negative count asks for the shortest digits, zero for the rounding
  // to a single place above, and a positive count for that many digits. The estimate exp10 of
  // the decimal exponent is taken to be at most one too small (not at all, for the shortest).
  method Format(f: nat, e: int, predecessorCloser: bool, numDigits: int, exp10: int)
    returns (buf: seq<nat>, exp': int)
    requires 0 < f < 0x20_0000_0000_0000
    requires -0x4000_0000 < exp10 < 0x4000_0000 && (e >= 0 ==> exp10 >= 0)
    requires var shift := ShiftOf(predecessorCloser);
             var n, d := NumeratorOf(f, e, shift, exp10), DenominatorOf(e, shift, exp10);
             if numDigits < 0
             then n + UpperOf(e, shift, exp10) + (if f % 2 == 0 then 1 else 0) <= 10 * d
             else n < 10 * d
    ensures var shift := ShiftOf(predecessorCloser);
            var n, d := NumeratorOf(f, e, shift, exp10), DenominatorOf(e, shift, exp10);
            && d > 0
            && (numDigits > 0 ==> FixedOutcome(buf, exp', exp10, numDigits, n, d))
            && (numDigits == 0 ==> EmptyOutcome(buf, exp', exp10, n, d))
            && (numDigits < 0 ==>
                  && ShortestOutcome(buf, exp', exp10, n, d, LowerOf(e, exp10), UpperOf(e, shift, exp10),
                                     f % 2 == 0, BoundaryJudged(e, shift, exp10))
                  && (NoShorter(|buf| - 1, n, d, LowerOf(e, exp10), UpperOf(e, shift, exp10), f % 2 == 0, f % 2 == 0)
                      <==> !BoundaryLost(f, e, shift, exp10)))
  {
    DenominatorPositive(e, ShiftOf(predecessorCloser), exp10);
    if numDigits < 0 {
      buf, exp' := FormatShortest(f, e, predecessorCloser, exp10);
      ShortestExactly(buf, exp', f, e, ShiftOf(predecessorCloser), exp10);
    } else if numDigits == 0 {
      buf, exp' := FormatEmpty(f, e, predecessorCloser, exp10);
    } else {
      buf, exp' := FormatFixed(f, e, predecessorCloser, numDigits, exp10);
    }
  }
}
