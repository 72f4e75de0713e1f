// Which subframes carry MBSFN, their rank in the MCH scheduling period, and the physical
// multicast channel each of them belongs to.

module Subframes {
  import opened Powers

  // ---- Subframe kinds ----

  predicate IsCas(dedicated: bool, tti: nat) {
    if dedicated then tti % 40 == 0
    else tti % 10 == 0 || tti % 10 == 4 || tti % 10 == 5 || tti % 10 == 9
  }

  predicate IsMbsfn(dedicated: bool, tti: nat) {
    if dedicated then !IsCas(dedicated, tti)
    else
      !IsCas(dedicated, tti) &&
      (tti % 10 == 1 || tti % 10 == 2 || tti % 10 == 3 || tti % 10 == 6 || tti % 10 == 7 || tti % 10 == 8)
  }

  // Every subframe is one or the other.
  lemma CasOrMbsfn(dedicated: bool, tti: nat)
    ensures IsCas(dedicated, tti) != IsMbsfn(dedicated, tti)
  {
  }

  // The index of a subframe in the scheduling period as the code computes it, in 32-bit
  // unsigned arithmetic. Both copies of the formula are this one.
  function SubframeIndex(dedicated: bool, tti: nat, period: nat): nat
    requires period > 0
  {
    IndexInPeriod(dedicated, (tti / 10) % period, tti % 10)
  }

  function IndexInPeriod(dedicated: bool, fn: nat, sf: nat): nat {
    if dedicated then (fn * 10 + sf - fn / 4 - 1) % 0x1_0000_0000
    else (fn * 6 + (if sf < 6 then sf - 1 else sf - 3)) % 0x1_0000_0000
  }

  // ---- The index is a count ----

  // MBSFN subframes among from .. upTo - 1.
  function Count(dedicated: bool, from: nat, upTo: nat): nat
    decreases upTo
  {
    if upTo <= from then 0
    else Count(dedicated, from, upTo - 1) + (if IsMbsfn(dedicated, upTo - 1) then 1 else 0)
  }

  function PeriodStart(tti: nat, period: nat): int
    requires period > 0
  {
    10 * (tti / 10 - (tti / 10) % period)
  }

  // A period that the counting needs: in dedicated mode the CAS pattern repeats every four frames.
  predicate GoodPeriod(dedicated: bool, period: nat) {
    0 < period <= 1024 && (dedicated ==> period % 4 == 0)
  }

  lemma PeriodStartMultiple(dedicated: bool, tti: nat, period: nat)
    requires GoodPeriod(dedicated, period)
    ensures var start, fn := PeriodStart(tti, period), (tti / 10) % period;
            && 0 <= start && tti == start + fn * 10 + tti % 10
            && 0 <= fn < period
            && start % 10 == 0 && (dedicated ==> start % 40 == 0)
  {
    var sfn, k := tti / 10, tti / 10 / period;
    DivIdentity(sfn, period);
    MulMonotone(period, 0, k);
    if k < 0 { MulMonotone(period, k, -1); }
    if dedicated {
      MulAssoc(k, period / 4, 4);
      assert period == (period / 4) * 4;
      assert PeriodStart(tti, period) == 40 * (k * (period / 4));
    }
  }

  lemma {:induction false} CountDedicated(start: nat, k: nat)
    requires start % 40 == 0
    ensures Count(true, start, start + k) == k - (k + 39) / 40
  {
    if k > 0 {
      CountDedicated(start, k - 1);
      SameDigit(start, k - 1, 40);
      FortyBack(k);
    }
  }

  lemma FortyBack(k: nat)
    requires k > 0
    ensures (k + 39) / 40 == (k + 38) / 40 + (if (k - 1) % 40 == 0 then 1 else 0)
  {
    var q, r := (k - 1) / 40, (k - 1) % 40;
    DivModUnique(k + 39, 40, q + 1, r);
    if r == 0 { DivModUnique(k + 38, 40, q, 39); } else { DivModUnique(k + 38, 40, q + 1, r - 1); }
  }

  // MBSFN subframes among the first sf subframes of a frame in mixed mode.
  function InFrame(sf: nat): nat {
    if sf <= 1 then 0
    else if sf <= 4 then sf - 1
    else if sf <= 6 then 3
    else sf - 3
  }

  lemma {:induction false} CountMixed(start: nat, k: nat)
    requires start % 10 == 0
    ensures Count(false, start, start + k) == 6 * (k / 10) + InFrame(k % 10)
  {
    if k > 0 {
      CountMixed(start, k - 1);
      SameDigit(start, k - 1, 10);
      OneBack(k);
      InFrameStep((k - 1) % 10);
    }
  }

  lemma SameDigit(start: nat, k: nat, m: nat)
    requires m > 0 && start % m == 0
    ensures (start + k) % m == k % m
  {
    DivIdentity(start, m);
    DivIdentity(k, m);
    Distribute(start / m, k / m, m);
    DivModUnique(start + k, m, start / m + k / m, k % m);
  }

  lemma OneBack(k: nat)
    requires k > 0
    ensures if k % 10 == 0 then (k - 1) % 10 == 9 && (k - 1) / 10 == k / 10 - 1
            else (k - 1) % 10 == k % 10 - 1 && (k - 1) / 10 == k / 10
  {
    if k % 10 == 0 { DivModUnique(k - 1, 10, k / 10 - 1, 9); } else { DivModUnique(k - 1, 10, k / 10, k % 10 - 1); }
  }

  lemma InFrameStep(sf: nat)
    requires sf < 10
    ensures var here := if sf == 1 || sf == 2 || sf == 3 || sf == 6 || sf == 7 || sf == 8 then 1 else 0;
            if sf == 9 then InFrame(9) + here == 6 else InFrame(sf + 1) == InFrame(sf) + here
  {}

  // The index of an MBSFN subframe is the number of MBSFN subframes before it in its period.
  lemma IndexCountsEarlier(dedicated: bool, tti: nat, period: nat)
    requires GoodPeriod(dedicated, period) && IsMbsfn(dedicated, tti)
    ensures PeriodStart(tti, period) >= 0
    ensures SubframeIndex(dedicated, tti, period) == Count(dedicated, PeriodStart(tti, period), tti)
  {
    PeriodStartMultiple(dedicated, tti, period);
    var start, fn, sf := PeriodStart(tti, period), (tti / 10) % period, tti % 10;
    if dedicated { DedicatedCounts(start, fn, sf, tti); } else { MixedCounts(start, fn, sf, tti); }
  }

  lemma DedicatedCounts(start: nat, fn: nat, sf: nat, tti: nat)
    requires start % 40 == 0 && sf < 10 && fn < 1024 && tti == start + (fn * 10 + sf) && IsMbsfn(true, tti)
    ensures IndexInPeriod(true, fn, sf) == Count(true, start, tti)
  {
    CountDedicated(start, fn * 10 + sf);
    SameDigit(start, fn * 10 + sf, 40);
    DedicatedIndex(fn, sf);
  }

  lemma MixedCounts(start: nat, fn: nat, sf: nat, tti: nat)
    requires start % 10 == 0 && sf < 10 && fn < 1024 && tti == start + (fn * 10 + sf) && IsMbsfn(false, tti)
    ensures IndexInPeriod(false, fn, sf) == Count(false, start, tti)
  {
    CountMixed(start, fn * 10 + sf);
    SameDigit(start, fn * 10 + sf, 10);
    DivModUnique(fn * 10 + sf, 10, fn, sf);
    MixedIndex(fn, sf);
  }

  lemma MixedIndex(fn: nat, sf: nat)
    requires sf < 10 && fn < 1024 && (sf == 1 || sf == 2 || sf == 3 || sf == 6 || sf == 7 || sf == 8)
    ensures IndexInPeriod(false, fn, sf) == 6 * fn + InFrame(sf)
  {
  }

  lemma DedicatedIndex(fn: nat, sf: nat)
    requires sf < 10 && (fn * 10 + sf) % 40 != 0 && fn < 1024
    ensures (fn * 10 + sf - fn / 4 - 1) % 0x1_0000_0000 == fn * 10 + sf - (fn * 10 + sf + 39) / 40
  {
    var q, r := fn / 4, fn % 4;
    assert fn * 10 + sf == 40 * q + (10 * r + sf);
    DivModUnique(fn * 10 + sf, 40, q, 10 * r + sf);
    DivModUnique(fn * 10 + sf + 39, 40, q + 1, 10 * r + sf - 1);
  }

  // ---- One-to-one onto the ranks of the period ----

  function Ranks(dedicated: bool, period: nat): nat {
    if dedicated then 10 * period - period / 4 else 6 * period
  }

  lemma RanksAreCounted(dedicated: bool, start: nat, period: nat)
    requires GoodPeriod(dedicated, period) && start % 10 == 0 && (dedicated ==> start % 40 == 0)
    ensures Count(dedicated, start, start + 10 * period) == Ranks(dedicated, period)
  {
    if dedicated { CountDedicated(start, 10 * period); } else { CountMixed(start, 10 * period); }
  }

  lemma {:induction false} CountMonotone(dedicated: bool, from: nat, t: nat, u: nat)
    requires from <= t <= u
    ensures Count(dedicated, from, t) <= Count(dedicated, from, u)
    ensures t < u && IsMbsfn(dedicated, t) ==> Count(dedicated, from, t) < Count(dedicated, from, u)
    decreases u
  {
    if t < u { CountMonotone(dedicated, from, t, u - 1); }
  }

  // Different MBSFN subframes of one period have different indices, all below the number of
  // ranks.
  lemma IndexIsInjective(dedicated: bool, t: nat, u: nat, period: nat)
    requires GoodPeriod(dedicated, period) && IsMbsfn(dedicated, t) && IsMbsfn(dedicated, u)
    requires t < u && PeriodStart(t, period) == PeriodStart(u, period)
    ensures SubframeIndex(dedicated, t, period) < SubframeIndex(dedicated, u, period) < Ranks(dedicated, period)
  {
    IndexCountsEarlier(dedicated, t, period);
    IndexCountsEarlier(dedicated, u, period);
    PeriodStartMultiple(dedicated, u, period);
    PeriodStartMultiple(dedicated, t, period);
    var start := PeriodStart(t, period);
    CountMonotone(dedicated, start, t, u);
    CountMonotone(dedicated, start, u, start + 10 * period);
    RanksAreCounted(dedicated, start, period);
  }

  lemma {:induction false} CountReaches(dedicated: bool, from: nat, upTo: nat, r: nat) returns (t: nat)
    requires r < Count(dedicated, from, upTo)
    ensures from <= t < upTo && IsMbsfn(dedicated, t) && Count(dedicated, from, t) == r
    decreases upTo
  {
    if r < Count(dedicated, from, upTo - 1) {
      t := CountReaches(dedicated, from, upTo - 1, r);
    } else {
      t := upTo - 1;
    }
  }

  // Every rank is the index of an MBSFN subframe of the period that starts at start.
  lemma IndexIsOnto(dedicated: bool, start: nat, period: nat, r: nat) returns (t: nat)
    requires GoodPeriod(dedicated, period) && start % (10 * period) == 0 && r < Ranks(dedicated, period)
    ensures start <= t < start + 10 * period && IsMbsfn(dedicated, t)
    ensures PeriodStart(t, period) == start && SubframeIndex(dedicated, t, period) == r
  {
    WholePeriods(dedicated, start, period);
    RanksAreCounted(dedicated, start, period);
    t := CountReaches(dedicated, start, start + 10 * period, r);
    InsidePeriod(start, t, period);
    IndexCountsEarlier(dedicated, t, period);
  }

  lemma WholePeriods(dedicated: bool, start: nat, period: nat)
    requires GoodPeriod(dedicated, period) && start % (10 * period) == 0
    ensures start % 10 == 0 && (dedicated ==> start % 40 == 0)
  {
    var k := start / (10 * period);
    DivIdentity(start, 10 * period);
    MulAssoc(k, 10, period);
    MulAssoc(10, k, period);
    DivModUnique(start, 10, k * period, 0);
    if dedicated {
      var q := period / 4;
      MulAssoc(k, q, 40);
      assert 10 * period == q * 40;
      DivModUnique(start, 40, k * q, 0);
    }
  }

  lemma InsidePeriod(start: nat, t: nat, period: nat)
    requires period > 0 && start % (10 * period) == 0 && start <= t < start + 10 * period
    ensures PeriodStart(t, period) == start
  {
    var k := start / (10 * period);
    DivIdentity(start, 10 * period);
    MulAssoc(k, 10, period);
    MulAssoc(10, k, period);
    assert start == 10 * (k * period);
    DivModUnique(t / 10, period, k, t / 10 - k * period);
  }

  // ---- Stepping ----

  function StepTti(tti: nat): nat { (tti + 1) % 10240 }

  // The next MBSFN subframe the main loop comes to.
  function NextMbsfn(dedicated: bool, tti: nat): nat {
    var a := StepTti(tti);
    var b := StepTti(a);
    if IsMbsfn(dedicated, a) then a
    else if IsMbsfn(dedicated, b) then b
    else StepTti(b)
  }

  // Stepping the clamped counter to the next MBSFN subframe raises the index by one, or starts
  // over at zero where a scheduling period begins.
  lemma IndexFollowsSteps(dedicated: bool, tti: nat, period: nat)
    requires GoodPeriod(dedicated, period) && 1024 % period == 0
    requires tti < 10240 && IsMbsfn(dedicated, tti)
    ensures var next := NextMbsfn(dedicated, tti);
            && next < 10240 && IsMbsfn(dedicated, next)
            && SubframeIndex(dedicated, next, period)
               == if next > tti && PeriodStart(next, period) == PeriodStart(tti, period)
                  then SubframeIndex(dedicated, tti, period) + 1 else 0
  {
    var next := NextMbsfn(dedicated, tti);
    NextIsNear(dedicated, tti);
    IndexCountsEarlier(dedicated, tti, period);
    IndexCountsEarlier(dedicated, next, period);
    PeriodStartMultiple(dedicated, tti, period);
    PeriodStartMultiple(dedicated, next, period);
    if next > tti {
      SkipNone(dedicated, PeriodStart(tti, period), tti, next);
      if PeriodStart(next, period) != PeriodStart(tti, period) {
        PeriodBoundary(tti, next, period);
        SkipNone(dedicated, PeriodStart(next, period), tti, next);
      }
    } else {
      WrapStartsPeriod(dedicated, next, period);
    }
  }

  lemma NextIsNear(dedicated: bool, tti: nat)
    requires tti < 10240 && IsMbsfn(dedicated, tti)
    ensures var next := NextMbsfn(dedicated, tti);
            && next < 10240 && IsMbsfn(dedicated, next)
            && (next > tti ==> next <= tti + 3 && forall t :: tti < t < next ==> !IsMbsfn(dedicated, t))
            && (next <= tti ==> next == 1)
  {
    if dedicated { NextDedicated(tti); } else { NextMixed(tti, tti / 10, tti % 10); }
  }

  lemma NextDedicated(tti: nat)
    requires tti < 10240 && tti % 40 != 0
    ensures if tti == 10240 - 1 then NextMbsfn(true, tti) == 1
            else NextMbsfn(true, tti) == (if (tti + 1) % 40 == 0 then tti + 2 else tti + 1) < 10240
    ensures (tti + 1) % 40 == 0 ==> (tti + 2) % 40 != 0
  {
    var q, r := tti / 40, tti % 40;
    DivIdentity(tti, 40);
    if r == 39 {
      DivModUnique(tti + 1, 40, q + 1, 0);
      DivModUnique(tti + 2, 40, q + 1, 1);
    } else {
      DivModUnique(tti + 1, 40, q, r + 1);
    }
  }

  lemma NextMixed(tti: nat, frame: nat, sf: nat)
    requires tti < 10240 && tti == 10 * frame + sf && sf < 10
    requires sf == 1 || sf == 2 || sf == 3 || sf == 6 || sf == 7 || sf == 8
    ensures sf == 1 || sf == 2 || sf == 6 || sf == 7 ==> NextMbsfn(false, tti) == tti + 1 < 10240 && IsMbsfn(false, tti + 1)
    ensures sf == 3 ==>
              NextMbsfn(false, tti) == tti + 3 < 10240 && IsMbsfn(false, tti + 3)
              && !IsMbsfn(false, tti + 1) && !IsMbsfn(false, tti + 2)
    ensures sf == 8 && frame < 1023 ==>
              NextMbsfn(false, tti) == tti + 3 < 10240 && IsMbsfn(false, tti + 3)
              && !IsMbsfn(false, tti + 1) && !IsMbsfn(false, tti + 2)
    ensures sf == 8 && frame == 1023 ==> NextMbsfn(false, tti) == 1 && IsMbsfn(false, 1)
  {
    if sf < 9 { DivModUnique(tti + 1, 10, frame, sf + 1); }
    if sf < 8 { DivModUnique(tti + 2, 10, frame, sf + 2); }
    if sf < 7 { DivModUnique(tti + 3, 10, frame, sf + 3); }
    if sf == 8 {
      DivModUnique(tti + 2, 10, frame + 1, 0);
      DivModUnique(tti + 3, 10, frame + 1, 1);
    }
  }

  lemma SkipNone(dedicated: bool, from: nat, tti: nat, next: nat)
    requires tti < next <= tti + 3 && IsMbsfn(dedicated, tti)
    requires forall t :: tti < t < next ==> !IsMbsfn(dedicated, t)
    ensures from <= tti ==> Count(dedicated, from, next) == Count(dedicated, from, tti) + 1
    ensures tti < from <= next ==> Count(dedicated, from, next) == 0
  {
    assert next == tti + 1 || next == tti + 2 || next == tti + 3;
    if next >= tti + 2 { assert !IsMbsfn(dedicated, tti + 1); }
    if next >= tti + 3 { assert !IsMbsfn(dedicated, tti + 2); }
  }

  // A different period start lies between the two subframes.
  lemma PeriodBoundary(tti: nat, next: nat, period: nat)
    requires period > 0 && tti < next && PeriodStart(next, period) != PeriodStart(tti, period)
    ensures tti < PeriodStart(next, period) <= next
  {
    var a, b := tti / 10, next / 10;
    var p, q := a / period, b / period;
    DivIdentity(a, period);
    DivIdentity(b, period);
    if q < p {
      MulMonotone(period, q + 1, p);
      Distribute(q, 1, period);
    } else if q > p {
      MulMonotone(period, p + 1, q);
      Distribute(p, 1, period);
    }
  }

  lemma WrapStartsPeriod(dedicated: bool, next: nat, period: nat)
    requires GoodPeriod(dedicated, period) && next == 1
    ensures SubframeIndex(dedicated, next, period) == 0
  {
    DivModUnique(0, period, 0, 0);
  }
}
