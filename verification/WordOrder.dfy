// The facts that let compare and add_compare decide an order from the top word down.

module WordOrder {
  import opened Words
  import opened WordSteps

  // What compare computes on any two operands: the order of the values, and between equal
  // values stored with different exponents the one with the smaller exponent counts as larger.
  function StoredOrder(lhs: Stored, rhs: Stored): int
  {
    if lhs.Value() != rhs.Value() then Sign(lhs.Value() - rhs.Value()) else Sign(rhs.exp - lhs.exp)
  }

  // The three ways compare decides: by the number of words, by the topmost differing word, and
  // by which operand has words left over.
  lemma OrderByLength(lhs: Stored, rhs: Stored)
    requires lhs.ComparableTo(rhs) && rhs.ComparableTo(lhs) && lhs.NumBigits() > rhs.NumBigits()
    ensures StoredOrder(lhs, rhs) == 1 && StoredOrder(rhs, lhs) == -1
  {
    NumberOfWords(lhs.words, lhs.exp, rhs.words, rhs.exp);
  }

  lemma OrderByWord(lhs: Stored, rhs: Stored, p: nat)
    requires AgreeFrom(lhs, rhs, p + 1)
    requires WordAt(lhs.words, lhs.exp, p) != WordAt(rhs.words, rhs.exp, p)
    ensures StoredOrder(lhs, rhs) == (if WordAt(lhs.words, lhs.exp, p) > WordAt(rhs.words, rhs.exp, p) then 1 else -1)
  {
    AgreeHigh(lhs, rhs, p + 1);
    if WordAt(lhs.words, lhs.exp, p) > WordAt(rhs.words, rhs.exp, p) {
      HighOrder(rhs.words, rhs.exp, lhs.words, lhs.exp, p);
    } else {
      HighOrder(lhs.words, lhs.exp, rhs.words, rhs.exp, p);
    }
  }

  lemma OrderByRemainder(lhs: Stored, rhs: Stored, p: nat)
    requires p == (if lhs.exp > rhs.exp then lhs.exp else rhs.exp)
    requires AgreeFrom(lhs, rhs, p)
    ensures StoredOrder(lhs, rhs) == Sign(rhs.exp - lhs.exp)
  {
    AgreeHigh(lhs, rhs, p);
    if p == rhs.exp { AgreeAbove(lhs.words, lhs.exp, rhs.words, rhs.exp); }
    if p == lhs.exp { AgreeAbove(rhs.words, rhs.exp, lhs.words, lhs.exp); }
  }

  ghost predicate AgreeFrom(lhs: Stored, rhs: Stored, p: nat) {
    forall q :: p <= q < lhs.NumBigits() || p <= q < rhs.NumBigits() ==>
      WordAt(lhs.words, lhs.exp, q) == WordAt(rhs.words, rhs.exp, q)
  }

  lemma {:induction false} AgreeHigh(lhs: Stored, rhs: Stored, p: nat)
    requires AgreeFrom(lhs, rhs, p)
    ensures High(lhs.words, lhs.exp, p) == High(rhs.words, rhs.exp, p)
    decreases lhs.NumBigits() + rhs.NumBigits() - p
  {
    if p < lhs.NumBigits() || p < rhs.NumBigits() {
      AgreeHigh(lhs, rhs, p + 1);
    }
  }

  // compare reports the order of the values exactly when it is not asked to judge two equal
  // values whose lowest words stand at different positions; its test ">= 0" is right whenever
  // the left operand reaches at least as far down as the right one.
  lemma CompareExactness(lhs: Stored, rhs: Stored)
    ensures StoredOrder(lhs, rhs) == Sign(lhs.Value() - rhs.Value())
            <==> (lhs.exp == rhs.exp || lhs.Value() != rhs.Value())
    ensures lhs.exp <= rhs.exp ==> (StoredOrder(lhs, rhs) >= 0 <==> lhs.Value() >= rhs.Value())
    ensures lhs.exp <= rhs.exp ==> (StoredOrder(lhs, rhs) < 0 <==> lhs.Value() < rhs.Value())
  {}

  // The failing family is not empty: 2^32 stored as words [0, 1] against 2^32 stored as [1]
  // one word higher. The second is called less, so it would not be divided by the first.
  lemma CompareMisjudges(lhs: Stored, rhs: Stored)
    requires lhs.words == [0, 1] && lhs.exp == 0
    requires rhs.words == [1] && rhs.exp == 1
    ensures lhs.ComparableTo(rhs) && rhs.ComparableTo(lhs)
    ensures lhs.Value() == rhs.Value() && StoredOrder(lhs, rhs) == 1
    ensures Misjudged(rhs, lhs) && StoredOrder(rhs, lhs) == -1
  {
    ValSnoc([0], 1);
    ValSnoc([], 1);
    assert [0] + [1] == [0, 1] && [] + [1] == [1];
    ZeroWord([0], 0);
  }

  // Two summands that are both more than one word shorter than rhs cannot reach it; one that
  // is longer exceeds it alone.
  lemma LengthDecides(lhs1: Stored, lhs2: Stored, rhs: Stored, maxLhs: nat)
    requires lhs1.ComparableTo(rhs) && lhs2.ComparableTo(rhs) && rhs.Normalized()
    requires lhs1.NumBigits() <= maxLhs && lhs2.NumBigits() <= maxLhs
    requires lhs1.NumBigits() == maxLhs || lhs2.NumBigits() == maxLhs
    ensures maxLhs + 1 < rhs.NumBigits() ==> lhs1.Value() + lhs2.Value() < rhs.Value()
    ensures maxLhs > rhs.NumBigits() ==> lhs1.Value() + lhs2.Value() > rhs.Value()
  {
    ValueBound(lhs1.words, lhs1.exp);
    ValueBound(lhs2.words, lhs2.exp);
    if maxLhs + 1 < rhs.NumBigits() {
      WeightMonotone(lhs1.NumBigits(), maxLhs);
      WeightMonotone(lhs2.NumBigits(), maxLhs);
      WeightMonotone(maxLhs + 1, rhs.NumBigits() - 1);
      ValueTop(rhs.words, rhs.exp);
    } else if maxLhs > rhs.NumBigits() {
      if lhs1.NumBigits() == maxLhs {
        NumberOfWords(lhs1.words, lhs1.exp, rhs.words, rhs.exp);
      } else {
        NumberOfWords(lhs2.words, lhs2.exp, rhs.words, rhs.exp);
      }
    }
  }

  // By how much rhs is ahead of lhs1 + lhs2 when every word below position p is dropped.
  function Lead(lhs1: Stored, lhs2: Stored, rhs: Stored, p: nat): int {
    High(rhs.words, rhs.exp, p) - High(lhs1.words, lhs1.exp, p) - High(lhs2.words, lhs2.exp, p)
  }

  lemma LeadStep(lhs1: Stored, lhs2: Stored, rhs: Stored, p: nat)
    requires lhs1.NumBigits() <= rhs.NumBigits() && lhs2.NumBigits() <= rhs.NumBigits()
    ensures p >= rhs.NumBigits() ==> Lead(lhs1, lhs2, rhs, p) == 0
    ensures p < rhs.NumBigits() ==>
              Lead(lhs1, lhs2, rhs, p)
              == 0x1_0000_0000 * Lead(lhs1, lhs2, rhs, p + 1) + WordAt(rhs.words, rhs.exp, p)
                 - WordAt(lhs1.words, lhs1.exp, p) - WordAt(lhs2.words, lhs2.exp, p)
  {}

  lemma LeadDecides(lhs1: Stored, lhs2: Stored, rhs: Stored, p: nat)
    ensures Lead(lhs1, lhs2, rhs, p) < 0 ==> lhs1.Value() + lhs2.Value() > rhs.Value()
    ensures Lead(lhs1, lhs2, rhs, p) > 1 ==> lhs1.Value() + lhs2.Value() < rhs.Value()
  {
    var a, b, c := High(lhs1.words, lhs1.exp, p), High(lhs2.words, lhs2.exp, p), High(rhs.words, rhs.exp, p);
    HighBound(lhs1.words, lhs1.exp, p);
    HighBound(lhs2.words, lhs2.exp, p);
    HighBound(rhs.words, rhs.exp, p);
    ScaleAdd(a, b, p);
    ScaleAdd(a + 1, b + 1, p);
    ScaleMonotone(c + 1, a + b, p);
    ScaleMonotone(a + 1 + (b + 1), c, p);
  }

  // Nothing is dropped at a position that no operand reaches below.
  lemma LeadIsExact(lhs1: Stored, lhs2: Stored, rhs: Stored, p: nat)
    requires p <= lhs1.exp && p <= lhs2.exp && p <= rhs.exp
    ensures Sign(lhs1.Value() + lhs2.Value() - rhs.Value()) == Sign(-Lead(lhs1, lhs2, rhs, p))
  {
    var a, b, c := High(lhs1.words, lhs1.exp, p), High(lhs2.words, lhs2.exp, p), High(rhs.words, rhs.exp, p);
    HighBound(lhs1.words, lhs1.exp, p);
    HighBound(lhs2.words, lhs2.exp, p);
    HighBound(rhs.words, rhs.exp, p);
    ScaleAdd(a, b, p);
    ScaleMonotone(c, a + b, p);
    ScaleMonotone(a + b, c, p);
  }

  // ---- Word-by-word subtraction ----

  // The number to subtract from s is o moved up by off words; k is the first position above
  // it. The borrow that leaves position k - 1 cannot be settled when the word at k is zero.
  predicate Stuck(s: seq<Bigit>, o: seq<Bigit>, off: nat) {
    && off + |o| < |s|
    && s[off + |o|] == 0
    && Val(s[..off + |o|]) < ValueOf(o, off)
  }

  // What taking a pending borrow from a word, again and again on the same word, leaves of it.
  function Settled(word: Bigit): Bigit {
    if word > 0 then word - 1 else 0xFFFF_FFFE
  }

  lemma BorrowStep(s: seq<Bigit>, t: seq<Bigit>, o: seq<Bigit>, off: nat, j: nat, borrow: int, x: Bigit, borrow': int)
    requires j < |o| && off + j < |t|
    requires Val(t) == Val(s) - ValueOf(o[..j], off) + Scale(borrow, off + j)
    requires x == t[off + j] - o[j] - borrow + borrow' * 0x1_0000_0000
    ensures Val(t[off + j := x]) == Val(s) - ValueOf(o[..j + 1], off) + Scale(borrow', off + j + 1)
  {
    var i := off + j;
    ValUpdate(t, i, x);
    ValPrefix(o, j);
    ScaleAdd(Val(o[..j]), Scale(o[j], j), off);
    ScaleScale(o[j], j, off);
    ScaleScale(borrow', 1, i);
    assert Scale(borrow', 1) == 0x1_0000_0000 * Scale(borrow', 0);
    ScaleAdd(x - t[i], o[j] + borrow, i);
    ScaleAdd(o[j], borrow, i);
  }

  // The borrow out of position k - 1 is set exactly when the low words are the smaller number.
  lemma FinalBorrow(s: seq<Bigit>, t: seq<Bigit>, o: seq<Bigit>, off: nat, borrow: Bigit)
    requires |s| == |t| >= off + |o| && borrow <= 1
    requires t[off + |o|..] == s[off + |o|..]
    requires Val(t) == Val(s) - ValueOf(o, off) + Scale(borrow, off + |o|)
    ensures borrow == 1 <==> Val(s[..off + |o|]) < ValueOf(o, off)
    ensures borrow == 1 && Val(s) >= ValueOf(o, off) ==> |s| > off + |o|
  {
    var k := off + |o|;
    ValSplit(s, k);
    ValSplit(t, k);
    ValBound(t[..k]);
    ScaleZero(k);
    if |s| == k { assert s[..k] == s; }
  }

  // By how much the subtraction misses the difference, in units of position k.
  function Surplus(s: seq<Bigit>, o: seq<Bigit>, off: nat): nat {
    if Stuck(s, o, off) then 0xFFFF_FFFF else 0
  }

  // What the pending borrow leaves behind: the exact difference, or a surplus when stuck.
  lemma SettledValue(s: seq<Bigit>, t: seq<Bigit>, u: seq<Bigit>, o: seq<Bigit>, off: nat, borrow: Bigit)
    requires |s| == |t| >= off + |o| && borrow <= 1
    requires t[off + |o|..] == s[off + |o|..]
    requires Val(t) == Val(s) - ValueOf(o, off) + Scale(borrow, off + |o|)
    requires Val(s) >= ValueOf(o, off)
    requires borrow == 0 ==> u == t
    requires borrow == 1 ==> |t| > off + |o| && u == t[off + |o| := Settled(t[off + |o|])]
    ensures Val(u) == Val(s) - ValueOf(o, off) + Scale(Surplus(s, o, off), off + |o|)
  {
    var k := off + |o|;
    FinalBorrow(s, t, o, off, borrow);
    if |s| > k {
      assert t[k] == t[k..][0] == s[k..][0] == s[k];
    }
    ScaleZero(k);
    if borrow == 1 {
      var change := Settled(t[k]) - t[k];
      ValUpdate(t, k, Settled(t[k]));
      ScaleAdd(change, 1, k);
    }
  }

  // The integer left by subtracting an aligned number.
  function Difference(s: Stored, o: Stored): int
    requires s.exp <= o.exp
  {
    s.Value() - o.Value() + Scale(Surplus(s.words, o.words, o.exp - s.exp), o.NumBigits())
  }

  // The subtraction is exact if and only if it does not stick.
  lemma DifferenceExactness(s: Stored, o: Stored)
    requires s.exp <= o.exp
    ensures Difference(s, o) == s.Value() - o.Value() <==> !Stuck(s.words, o.words, o.exp - s.exp)
  {
    var n := o.NumBigits();
    ScaleZero(n);
    ScaleMonotone(0xFFFF_FFFF, 0, n);
  }

  // It does stick: one is taken from 2^64 stored in three words.
  lemma SubtractionSticks(s: Stored, o: Stored)
    requires s.words == [0, 0, 1] && s.exp == 0 && o.words == [1] && o.exp == 0
    ensures s.Normalized() && o.Normalized() && s.Value() > o.Value() && Stuck(s.words, o.words, 0)
  {
    ValSnoc([0, 0], 1);
    ValZeros([0, 0]);
    assert s.words == [0, 0] + [1];
    assert Scale(1, 2) == 0x1_0000_0000 * Scale(1, 1);
    ValSnoc([], 1);
    assert s.words[..1] == [0] && o.words == [] + [1];
  }

  lemma AlignedOperands(s: Stored, o: Stored)
    requires s.exp <= o.exp && o.Normalized() && s.Value() >= o.Value()
    ensures s.NumBigits() >= o.NumBigits()
    ensures Val(s.words) >= ValueOf(o.words, o.exp - s.exp)
  {
    if s.NumBigits() < o.NumBigits() { NumberOfWords(o.words, o.exp, s.words, s.exp); }
    var off := o.exp - s.exp;
    ScaleScale(Val(o.words), off, s.exp);
    ScaleMonotone(ValueOf(o.words, off), Val(s.words), s.exp);
  }

  // The state after every word of o has been taken from s: t with a borrow still pending.
  predicate Subtracted(s: Stored, t: seq<Bigit>, o: Stored, borrow: Bigit)
    requires s.exp <= o.exp
  {
    var k := o.NumBigits() - s.exp;
    && |s.words| == |t| >= k && borrow <= 1
    && t[k..] == s.words[k..]
    && Val(t) == Val(s.words) - ValueOf(o.words, o.exp - s.exp) + Scale(borrow, k)
  }

  lemma BorrowFits(s: Stored, t: seq<Bigit>, o: Stored, borrow: Bigit)
    requires s.exp <= o.exp && o.Normalized() && s.Value() >= o.Value()
    requires Subtracted(s, t, o, borrow)
    ensures borrow == 1 ==> |t| > o.NumBigits() - s.exp
  {
    AlignedOperands(s, o);
    FinalBorrow(s.words, t, o.words, o.exp - s.exp, borrow);
  }

  // Taking the pending borrow from the word above o's top.
  predicate BorrowTaken(s: Stored, t: seq<Bigit>, u: seq<Bigit>, o: Stored, borrow: Bigit)
    requires s.exp <= o.exp
  {
    var k := o.NumBigits() - s.exp;
    && (borrow == 0 ==> u == t)
    && (borrow == 1 ==> |t| > k && u == t[k := Settled(t[k])])
  }

  lemma SettledDifference(s: Stored, t: seq<Bigit>, u: seq<Bigit>, o: Stored, borrow: Bigit)
    requires s.exp <= o.exp && o.Normalized() && s.Value() >= o.Value()
    requires Subtracted(s, t, o, borrow) && BorrowTaken(s, t, u, o, borrow)
    ensures ValueOf(u, s.exp) == Difference(s, o)
  {
    var off := o.exp - s.exp;
    AlignedOperands(s, o);
    SettledValue(s.words, t, u, o.words, off, borrow);
    DifferenceScales(Val(u), Val(s.words), o, Surplus(s.words, o.words, off), s.exp);
  }

  // Words above the position that takes the borrow keep the number that long.
  lemma SettledTop(s: Stored, t: seq<Bigit>, u: seq<Bigit>, o: Stored, borrow: Bigit)
    requires s.exp <= o.exp && s.Normalized() && |s.words| > o.NumBigits() - s.exp + 1
    requires Subtracted(s, t, o, borrow) && BorrowTaken(s, t, u, o, borrow)
    ensures |u| == |s.words| && NonZeroTop(u)
  {
    var k := o.NumBigits() - s.exp;
    assert u[|u| - 1] == t[|t| - 1] == t[k..][|t| - k - 1] == s.words[k..][|t| - k - 1];
  }

  lemma DifferenceScales(u: int, s: int, o: Stored, extra: int, e: nat)
    requires e <= o.exp
    requires u == s - ValueOf(o.words, o.exp - e) + Scale(extra, o.NumBigits() - e)
    ensures Scale(u, e) == Scale(s, e) - o.Value() + Scale(extra, o.NumBigits())
  {
    var x, y := ValueOf(o.words, o.exp - e), Scale(extra, o.NumBigits() - e);
    ScaleScale(Val(o.words), o.exp - e, e);
    ScaleScale(extra, o.NumBigits() - e, e);
    ScaleAdd(u, x, e);
    ScaleAdd(s, y, e);
  }

  // ---- Division by repeated subtraction ----

  lemma AlignedWords(t: seq<Bigit>, s: seq<Bigit>, d: nat, e: nat)
    requires d <= |t| && t[d..] == s
    requires forall m :: 0 <= m < d ==> t[m] == 0
    ensures ValueOf(t, e) == ValueOf(s, e + d)
    ensures NonZeroTop(s) ==> NonZeroTop(t)
  {
    ValSplit(t, d);
    ValZeros(t[..d]);
    ScaleScale(Val(s), d, e);
    if NonZeroTop(s) { assert t[|t| - 1] == s[|s| - 1]; }
  }

  // The operands on which compare reports "less" although they are equal.
  predicate Misjudged(s: Stored, d: Stored) {
    s.Value() == d.Value() && s.exp > d.exp
  }

  // A quotient below 2^31 leaves at most one word above the divisor, and that word is not zero.
  lemma NeverStuck(s: Stored, d: Stored)
    requires s.exp <= d.exp && s.Normalized() && d.Normalized()
    requires s.Value() < 0x8000_0000 * d.Value()
    ensures !Stuck(s.words, d.words, d.exp - s.exp)
    ensures Difference(s, d) == s.Value() - d.Value()
  {
    ScaleZero(d.NumBigits());
    if s.NumBigits() > d.NumBigits() + 1 {
      ValueTop(s.words, s.exp);
      ValueBound(d.words, d.exp);
      WeightMonotone(d.NumBigits() + 1, s.NumBigits() - 1);
    }
  }
}
