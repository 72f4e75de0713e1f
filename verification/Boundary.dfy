// The rounding intervals whose lower boundary the shortest-digits path leaves out although it
// belongs to them: which values they are, and one that gets ten digits too many.

module Boundary {
  import opened Powers
  import opened Decimals
  import opened Dragon
  import opened FallbackFormat
  import opened Places

  // Only an integral value with a large enough power of two is affected.
  lemma UnjudgedIsIntegral(f: nat, e: int, shift: nat, exp10: int)
    requires f > 0 && 1 <= shift <= 2 && (e >= 0 ==> exp10 >= 0)
    requires NumeratorOf(f, e, shift, exp10) < 10 * DenominatorOf(e, shift, exp10)
    requires !BoundaryJudged(e, shift, exp10)
    ensures 0 <= exp10 < e
  {
    if e < 0 {
      var y, b: nat := -exp10, shift - e;
      BranchForms(f, e, shift, exp10);
      PowBelow(2, 10, b);
      PowMonotone(10, b + 1, y);
      PowPositive(2, shift);
      MulMonotone(Pow(2, shift), 1, f);
      MulMonotone(Pow(10, y), 1, f * Pow(2, shift));
      assert false;
    }
  }

  // With j digits after the first the boundary f * 2^e - 2^(e - shift) is a decimal: the factors
  // of five that are missing are in the odd number 2^shift * f - 1, those of two in 2^e.
  predicate BoundaryInFives(j: nat, f: nat, e: nat, shift: nat, exp10: nat)
    requires shift > 0
  {
    && j < exp10 && exp10 - j + shift <= e
    && Pow(5, exp10 - j) > 0 && (f * Pow(2, shift) - 1) % Pow(5, exp10 - j) == 0
    && ((1 + Pow(2, shift - 1)) * Pow(2, e)) * Pow(10, j) < Pow(10, exp10) * Pow(2, shift)
  }

  lemma BoundaryForms(f: nat, e: nat, shift: nat, exp10: nat)
    requires 1 <= shift <= 2
    ensures NumeratorOf(f, e, shift, exp10) - LowerOf(e, exp10) == (f * Pow(2, shift) - 1) * Pow(2, e)
    ensures LowerOf(e, exp10) + UpperOf(e, shift, exp10) == (1 + Pow(2, shift - 1)) * Pow(2, e)
    ensures DenominatorOf(e, shift, exp10) == Pow(10, exp10) * Pow(2, shift) > 0
  {
    BranchForms(f, e, shift, exp10);
    DenominatorPositive(e, shift, exp10);
    assert Pow(2, 0) == 1 && Pow(2, 1) == 2;
    Distribute(f * Pow(2, shift), -1, Pow(2, e));
    Distribute(1, Pow(2, shift - 1), Pow(2, e));
  }

  lemma {:induction false} FiveFactor(a: nat, m: nat, t: nat, k: nat) returns (c: nat)
    requires a * Pow(2, m) == k * Pow(5, t)
    ensures a == c * Pow(5, t)
  {
    if m == 0 {
      assert Pow(2, 0) == 1;
      return k;
    }
    var r := Pow(2, m - 1);
    FivePowerIsOdd(t);
    MulAssoc(a, 2, r);
    MulAssoc(2, a, r);
    var b := HalfOfProduct(k, Pow(5, t), a * r);
    c := FiveFactor(a, m - 1, t, b);
  }

  // An odd number times a power of two is a multiple of 5^t * 2^b only if both powers fit.
  lemma BothFactors(g: nat, e: nat, t: nat, b: nat, k: nat)
    requires g % 2 == 1 && g * Pow(2, e) == (k * Pow(5, t)) * Pow(2, b)
    ensures b <= e && Pow(5, t) > 0 && g % Pow(5, t) == 0
  {
    PowPositive(5, t);
    if b > e {
      PowAdd(2, b - e, e);
      PowPositive(2, e);
      MulAssoc(k * Pow(5, t), Pow(2, b - e), Pow(2, e));
      CancelEqual(Pow(2, e), g, (k * Pow(5, t)) * Pow(2, b - e));
      EvenProduct(k * Pow(5, t), Pow(2, b - e - 1));
      assert false;
    }
    PowAdd(2, e - b, b);
    PowPositive(2, b);
    MulAssoc(g, Pow(2, e - b), Pow(2, b));
    CancelEqual(Pow(2, b), g * Pow(2, e - b), k * Pow(5, t));
    var c := FiveFactor(g, e - b, t, k);
    DivModUnique(g, Pow(5, t), c, 0);
  }

  lemma FivesFromBoundary(j: nat, f: nat, e: nat, shift: nat, exp10: nat)
    requires f > 0 && 1 <= shift <= 2 && exp10 < e && DenominatorOf(e, shift, exp10) > 0
    requires BoundaryAt(j, NumeratorOf(f, e, shift, exp10), DenominatorOf(e, shift, exp10),
                        LowerOf(e, exp10), UpperOf(e, shift, exp10))
    ensures BoundaryInFives(j, f, e, shift, exp10)
  {
    BoundaryForms(f, e, shift, exp10);
    var g, p := f * Pow(2, shift) - 1, Pow(10, j);
    PowPositive(2, shift - 1);
    PowPositive(10, j);
    MulMonotone(Pow(2, shift), 1, f);
    if j >= exp10 {
      TooManyDigits(j, e, shift, exp10);
      assert false;
    }
    OddBoundary(f, shift);
    PowPositive(2, e);
    MulPositive(g, Pow(2, e));
    MulPositive(g * Pow(2, e), p);
    var k := NaturalMultiple((g * Pow(2, e)) * p, Pow(10, exp10) * Pow(2, shift));
    MultipleInFives(g, e, j, exp10 - j, shift, k);
  }

  lemma NaturalMultiple(a: nat, d: nat) returns (k: nat)
    requires d > 0 && a % d == 0
    ensures a == k * d
  {
    k := ZeroOff(a, d);
  }

  lemma OddBoundary(f: nat, shift: nat)
    requires shift > 0 && f > 0
    ensures f * Pow(2, shift) - 1 > 0 && (f * Pow(2, shift) - 1) % 2 == 1
  {
    var h := Pow(2, shift - 1);
    EvenProduct(f, h);
    PowPositive(2, shift - 1);
    MulMonotone(2 * h, 1, f);
  }

  lemma TooManyDigits(j: nat, e: nat, shift: nat, exp10: nat)
    requires 1 <= shift <= 2 && exp10 < e && j >= exp10
    ensures ((1 + Pow(2, shift - 1)) * Pow(2, e)) * Pow(10, j) >= Pow(10, exp10) * Pow(2, shift)
  {
    assert Pow(2, 0) == 1 && Pow(2, 1) == 2 && Pow(2, 2) == 4;
    PowMonotone(2, 1, e);
    PowMonotone(10, exp10, j);
    PowPositive(10, exp10);
    var w := (1 + Pow(2, shift - 1)) * Pow(2, e);
    MulMonotone(1 + Pow(2, shift - 1), 2, Pow(2, e));
    MulMonotone(Pow(10, j), Pow(2, shift), w);
    MulMonotone(Pow(2, shift), Pow(10, exp10), Pow(10, j));
  }

  lemma MultipleInFives(g: nat, e: nat, j: nat, t: nat, shift: nat, k: nat)
    requires g % 2 == 1
    requires (g * Pow(2, e)) * Pow(10, j) == k * (Pow(10, j + t) * Pow(2, shift))
    ensures t + shift <= e && Pow(5, t) > 0 && g % Pow(5, t) == 0
  {
    TenSplit(j, t);
    PowAdd(2, t, shift);
    DropTens(g, Pow(2, e), k, Pow(10, j), Pow(5, t), Pow(2, t), Pow(2, shift));
    BothFactors(g, e, t, t + shift, k);
  }

  lemma TenSplit(j: nat, t: nat)
    ensures Pow(10, j + t) == Pow(10, j) * (Pow(5, t) * Pow(2, t)) && Pow(10, j) > 0
  {
    PowAdd(10, j, t);
    PowMul(5, 2, t);
    PowPositive(10, j);
  }

  lemma DropTens(g: nat, q: nat, k: nat, p: nat, v: nat, b: nat, s: nat)
    requires p > 0 && (g * q) * p == k * ((p * (v * b)) * s)
    ensures g * q == (k * v) * (b * s)
  {
    Commute(k, p, v, b, s);
    CancelEqual(p, g * q, (k * v) * (b * s));
  }

  lemma Commute(k: int, p: int, g: int, b: int, s: int)
    ensures k * ((p * (g * b)) * s) == ((k * g) * (b * s)) * p
  {
    MulAssoc(p, g * b, s);
    MulAssoc(g, b, s);
    MulAssoc(k, p, g * (b * s));
    MulAssoc(k, g, b * s);
    Swap3(k, p, g * (b * s));
  }

  lemma BoundaryFromFives(j: nat, f: nat, e: nat, shift: nat, exp10: nat)
    requires f > 0 && 1 <= shift <= 2 && DenominatorOf(e, shift, exp10) > 0
    requires BoundaryInFives(j, f, e, shift, exp10)
    ensures BoundaryAt(j, NumeratorOf(f, e, shift, exp10), DenominatorOf(e, shift, exp10),
                       LowerOf(e, exp10), UpperOf(e, shift, exp10))
  {
    BoundaryForms(f, e, shift, exp10);
    OddBoundary(f, shift);
    FivesMakeMultiple(f * Pow(2, shift) - 1, e, j, exp10 - j, shift);
  }

  lemma FivesMakeMultiple(g: nat, e: nat, j: nat, t: nat, shift: nat)
    requires t + shift <= e && Pow(5, t) > 0 && g % Pow(5, t) == 0
    ensures Pow(10, j + t) * Pow(2, shift) > 0
    ensures ((g * Pow(2, e)) * Pow(10, j)) % (Pow(10, j + t) * Pow(2, shift)) == 0
  {
    var c, m := g / Pow(5, t), e - (t + shift);
    DivIdentity(g, Pow(5, t));
    TenSplit(j, t);
    PowAdd(2, m, t + shift);
    PowAdd(2, t, shift);
    PowPositive(10, j + t);
    PowPositive(2, shift);
    MulPositive(Pow(10, j + t), Pow(2, shift));
    GatherTens(c, Pow(5, t), Pow(2, m), Pow(2, t), Pow(2, shift), Pow(10, j));
    DivModUnique((g * Pow(2, e)) * Pow(10, j), Pow(10, j + t) * Pow(2, shift), c * Pow(2, m), 0);
  }

  lemma GatherTens(c: int, v: int, q: int, b: int, s: int, p: int)
    ensures ((c * v) * (q * (b * s))) * p == (c * q) * ((p * (v * b)) * s)
  {
    Commute4(c * v, q, b * s, 1);
    Swap3(c, v, q);
    Commute(c * q, p, v, b, s);
  }

  // The values whose lower boundary is lost at the cost of digits, as a condition on the
  // significand, the binary exponent and the estimate of the decimal exponent.
  lemma LostExactly(f: nat, e: int, shift: nat, exp10: int)
    requires f > 0 && 1 <= shift <= 2 && (e >= 0 ==> exp10 >= 0) && DenominatorOf(e, shift, exp10) > 0
    requires NumeratorOf(f, e, shift, exp10) < 10 * DenominatorOf(e, shift, exp10)
    ensures BoundaryLost(f, e, shift, exp10)
            <==> f % 2 == 0 && e >= 0 && e / 32 > exp10 / 32 && exists j: nat :: BoundaryInFives(j, f, e, shift, exp10)
  {
    if !BoundaryJudged(e, shift, exp10) {
      UnjudgedIsIntegral(f, e, shift, exp10);
      var n, d := NumeratorOf(f, e, shift, exp10), DenominatorOf(e, shift, exp10);
      var l, u := LowerOf(e, exp10), UpperOf(e, shift, exp10);
      if j: nat :| BoundaryAt(j, n, d, l, u) {
        FivesFromBoundary(j, f, e, shift, exp10);
      }
      if j: nat :| BoundaryInFives(j, f, e, shift, exp10) {
        BoundaryFromFives(j, f, e, shift, exp10);
      }
    }
  }

  // ---- A value that gets sixteen digits where six would do ----

  lemma WitnessOperands(e: nat, exp10: nat)
    requires e == 40 && exp10 == 27
    ensures LowerOf(e, exp10) == UpperOf(e, 1, exp10) == 0x100_0000_0000
    ensures NumeratorOf(8344650268554688, e, 1, exp10) == 16689300537109376 * 0x100_0000_0000
    ensures DenominatorOf(e, 1, exp10) == 2_000_000_000_000_000_000_000_000_000
  {
    assert Pow(2, 0) == 1 && Pow(2, 1) == 2 && Pow(10, 0) == 1 && Pow(2, 5) == 32 && Pow(10, 4) == 10_000 && Pow(10, 5) == 100_000;
    PowAdd(2, 5, 5);
    PowAdd(2, 10, 10);
    PowAdd(2, 20, 20);
    PowAdd(10, 4, 5);
    PowAdd(10, 9, 9);
    PowAdd(10, 18, 9);
  }

  lemma TensOfWitness()
    ensures Pow(10, 5) == 100_000 && Pow(10, 14) == 100_000_000_000_000 && Pow(10, 15) == 1_000_000_000_000_000
  {
    assert Pow(10, 0) == 1 && Pow(10, 4) == 10_000 && Pow(10, 5) == 100_000;
    PowAdd(10, 5, 5);
    PowAdd(10, 10, 4);
    PowAdd(10, 10, 5);
  }

  // The lower boundary of 8344650268554688 * 2^40 is 917504 * 10^22, and it belongs to the
  // interval, since the significand is even.
  lemma SixDigitsWouldDo()
    ensures DenominatorOf(40, 1, 27) > 0 && BoundaryLost(8344650268554688, 40, 1, 27)
    ensures BetweenAt(917504, 5, NumeratorOf(8344650268554688, 40, 1, 27), DenominatorOf(40, 1, 27),
                      LowerOf(40, 27), UpperOf(40, 1, 27), true, true)
  {
    var n, d, l, u := NumeratorOf(8344650268554688, 40, 1, 27), DenominatorOf(40, 1, 27), LowerOf(40, 27), UpperOf(40, 1, 27);
    WitnessOperands(40, 27);
    TensOfWitness();
    assert BoundaryAt(5, n, d, l, u);
  }

  lemma WitnessDigits(c: int, j: nat, n: int, d: int, l: int, u: int)
    requires n == 16689300537109376 * 0x100_0000_0000 && d == 2_000_000_000_000_000_000_000_000_000
    requires l == u == 0x100_0000_0000
    requires BetweenAt(c, j, n, d, l, u, false, true) && NoShorter(j, n, d, l, u, false, true)
    ensures j == 15 && c == 9175040000000001
  {
    TensOfWitness();
    assert BoundaryAt(14, n, d, l, u);
    assert BetweenAt(9175040000000001, 15, n, d, l, u, false, true);
    assert j > 15 ==> NoneBetween(15, n, d, l, u, false, true);
    if j <= 14 { OnlyTheBoundary(c, j, 14, n, d, l, u); }
  }

  // What the shortest-digits path answers for it.
  method SixteenDigits() returns (buf: seq<nat>, exp': int)
    ensures |buf| == 16 && Number(buf) == 9175040000000001 && exp' == 12
  {
    WitnessOperands(40, 27);
    SixDigitsWouldDo();
    buf, exp' := Format(8344650268554688, 40, false, -1, 27);
    WitnessDigits(Number(buf), |buf| - 1, NumeratorOf(8344650268554688, 40, 1, 27), DenominatorOf(40, 1, 27),
                  LowerOf(40, 27), UpperOf(40, 1, 27));
  }
}
