// The multi-word unsigned integer behind exact decimal printing. The class follows the
// fields of the original: a growable buffer of 32-bit words and an exponent that counts
// implicit zero words below them. Fixed-width arithmetic is written out with % and /.

module BigIntegers {
  import opened Powers
  import opened Words
  import opened WordSteps
  import opened WordOrder
  import opened Columns

  // A 128-bit sum kept as two 64-bit halves, for compilers without a 128-bit type.
  datatype Accumulator = Accumulator(lower: DoubleBigit, upper: DoubleBigit) {
    function Value(): nat { upper * 0x1_0000_0000_0000_0000 + lower }

    function Add(n: DoubleBigit): (r: Accumulator)
      ensures lower + n < 0x1_0000_0000_0000_0000 || upper + 1 < 0x1_0000_0000_0000_0000 ==> r.Value() == Value() + n
    {
      var l := (lower + n) % 0x1_0000_0000_0000_0000;
      Accumulator(l, if l < n then (upper + 1) % 0x1_0000_0000_0000_0000 else upper)
    }

    // The original's >>= 32; it supports no other shift.
    function ShiftWord(): (r: Accumulator)
      ensures r.Value() == Value() / 0x1_0000_0000
    {
      var l := (upper * 0x1_0000_0000) % 0x1_0000_0000_0000_0000 + lower / 0x1_0000_0000;
      Accumulator(l, upper / 0x1_0000_0000)
    }

    function LowWord(): (r: Bigit)
      ensures r == Value() % 0x1_0000_0000
    {
      lower % 0x1_0000_0000
    }
  }

  class Bigint {
    var bigits: seq<Bigit>
    var exp: nat

    ghost function Num(): Stored
      reads this
    {
      Stored(bigits, exp)
    }

    ghost function Value(): int
      reads this
    {
      Num().Value()
    }

    predicate Normalized()
      reads this
    {
      NonZeroTop(bigits)
    }

    function NumBigits(): nat
      reads this
    {
      |bigits| + exp
    }

    constructor ()
      ensures bigits == [] && exp == 0
    {
      bigits, exp := [], 0;
    }

    method Assign(n: DoubleBigit)
      modifies this
      ensures Value() == n && exp == 0
      ensures if n > 0 then Normalized() else SingleZero(bigits)
    {
      var m: DoubleBigit := n;
      bigits := [m % 0x1_0000_0000];
      m := m / 0x1_0000_0000;
      while m != 0
        invariant (bigits == [n % 0x1_0000_0000] && m == n / 0x1_0000_0000)
                  || (bigits == [n % 0x1_0000_0000, n / 0x1_0000_0000] && m == 0 < n / 0x1_0000_0000)
        decreases m
      {
        bigits := bigits + [m % 0x1_0000_0000];
        m := m / 0x1_0000_0000;
      }
      exp := 0;
      TwoWords(n);
    }

    method AssignFrom(other: Bigint)
      modifies this
      ensures bigits == other.bigits && exp == other.exp
    {
      bigits := other.bigits;
      exp := other.exp;
    }

    // Multiplication by a 32-bit factor. The 64-bit intermediate never wraps.
    method MultiplyWord(value: Bigit)
      requires value > 0
      modifies this`bigits
      ensures Value() == old(Value()) * value
      ensures old(Normalized()) ==> Normalized()
      ensures SingleZero(old(bigits)) ==> SingleZero(bigits)
      ensures |bigits| <= |old(bigits)| + 1
    {
      ghost var s := bigits;
      var carry: Bigit := 0;
      var i := 0;
      while i < |bigits|
        invariant 0 <= i <= |bigits| == |s|
        invariant bigits[i..] == s[i..]
        invariant Val(bigits[..i]) + Scale(carry, i) == Val(s[..i]) * value
        invariant SingleZero(s) ==> carry == 0 && SingleZero(bigits)
      {
        WordStep(bigits[i], value, carry);
        var result: DoubleBigit := bigits[i] * value + carry;
        ghost var before := bigits[..i];
        bigits := bigits[i := result % 0x1_0000_0000];
        assert bigits[..i] == before && bigits[i + 1..] == s[i..][1..];
        CarryStep(s, bigits, i, value, carry, result % 0x1_0000_0000, result / 0x1_0000_0000);
        carry := result / 0x1_0000_0000;
        i := i + 1;
      }
      assert bigits[..i] == bigits && s[..i] == s;
      ScaleZero(i);
      if carry != 0 {
        ValSnoc(bigits, carry);
        bigits := bigits + [carry];
      }
      ScaledTop(s, exp, bigits, value);
    }

    // Multiplication by a 64-bit factor in two 32-bit halves. The carry stays below the
    // factor, so the sum of three terms fits in 64 bits.
    method MultiplyDouble(value: DoubleBigit)
      requires value > 0
      modifies this`bigits
      ensures Value() == old(Value()) * value
      ensures old(Normalized()) ==> Normalized()
      ensures SingleZero(old(bigits)) ==> SingleZero(bigits)
    {
      ghost var s := bigits;
      var lower: DoubleBigit := value % 0x1_0000_0000;
      var upper: DoubleBigit := value / 0x1_0000_0000;
      var carry: DoubleBigit := 0;
      var i := 0;
      while i < |bigits|
        invariant 0 <= i <= |bigits| == |s|
        invariant bigits[i..] == s[i..]
        invariant carry < value
        invariant Val(bigits[..i]) + Scale(carry, i) == Val(s[..i]) * value
        invariant SingleZero(s) ==> carry == 0 && SingleZero(bigits)
      {
        DoubleStep(bigits[i], value, carry);
        var result: DoubleBigit := bigits[i] * lower + carry % 0x1_0000_0000;
        var next: DoubleBigit := bigits[i] * upper + result / 0x1_0000_0000 + carry / 0x1_0000_0000;
        ghost var before := bigits[..i];
        bigits := bigits[i := result % 0x1_0000_0000];
        assert bigits[..i] == before && bigits[i + 1..] == s[i..][1..];
        CarryStep(s, bigits, i, value, carry, result % 0x1_0000_0000, next);
        carry := next;
        i := i + 1;
      }
      assert bigits[..i] == bigits && s[..i] == s;
      ScaleZero(i);
      PushCarry(carry);
      ScaledTop(s, exp, bigits, value);
    }

    method PushCarry(top: DoubleBigit)
      modifies this`bigits
      ensures Val(bigits) == Val(old(bigits)) + Scale(top, |old(bigits)|)
      ensures top == 0 ==> bigits == old(bigits)
      ensures top > 0 ==> |bigits| > |old(bigits)| && Normalized()
    {
      ghost var s := bigits;
      var carry := top;
      while carry != 0
        invariant Val(bigits) + Scale(carry, |bigits|) == Val(s) + Scale(top, |s|)
        invariant carry == top ==> bigits == s
        invariant carry < top ==> |bigits| > |s| && (carry == 0 ==> Normalized())
        invariant 0 <= carry <= top
        decreases carry
      {
        var word: Bigit := carry % 0x1_0000_0000;
        CarryWord(bigits, carry);
        bigits := bigits + [word];
        carry := carry / 0x1_0000_0000;
      }
      ScaleZero(|bigits|);
      ScaleZero(|s|);
    }

    // Left shift: whole words go to the exponent, the rest is a carry loop on 32-bit words.
    method ShiftLeft(shift: nat)
      modifies this
      ensures Value() == old(Value()) * Pow(2, shift)
      ensures old(Normalized()) ==> Normalized()
      ensures exp == old(exp) + shift / 32
    {
      ghost var s := bigits;
      ghost var exp0 := exp;
      exp := exp + shift / 32;
      var part := shift % 32;
      ShiftSplit(Val(s), exp0, shift);
      if part == 0 {
        assert Pow(2, 0) == 1;
        return;
      }
      PowPositive(2, part);
      PowPositive(2, 32 - part);
      PowAdd(2, part, 32 - part);
      TwoToThe32();
      ShiftBits(Pow(2, part), Pow(2, 32 - part));
    }

    // The carry loop, for a shift by less than a word: << multiplies by p, >> divides by q.
    method ShiftBits(p: nat, q: nat)
      requires p > 0 && q > 0 && p * q == 0x1_0000_0000
      modifies this`bigits
      ensures Val(bigits) == Val(old(bigits)) * p
      ensures old(Normalized()) ==> Normalized()
    {
      ghost var s := bigits;
      var carry: Bigit := 0;
      var i := 0;
      while i < |bigits|
        invariant 0 <= i <= |bigits| == |s|
        invariant bigits[i..] == s[i..]
        invariant carry < p
        invariant Val(bigits[..i]) + Scale(carry, i) == Val(s[..i]) * p
      {
        ShiftWordParts(bigits[i], p, q, carry);
        var c: Bigit := bigits[i] / q;
        var word: Bigit := ((bigits[i] * p) % 0x1_0000_0000 + carry) % 0x1_0000_0000;
        ghost var before := bigits[..i];
        bigits := bigits[i := word];
        assert bigits[..i] == before && bigits[i + 1..] == s[i..][1..];
        CarryStep(s, bigits, i, p, carry, word, c);
        carry := c;
        i := i + 1;
      }
      assert bigits[..i] == bigits && s[..i] == s;
      ScaleZero(i);
      if carry != 0 {
        ValSnoc(bigits, carry);
        bigits := bigits + [carry];
      }
      ScaledTop(s, exp, bigits, p);
    }

    method SubtractBigits(index: nat, other: Bigit, borrow: Bigit) returns (borrow': Bigit)
      requires index < |bigits| && borrow <= 1
      modifies this`bigits
      ensures borrow' <= 1
      ensures |bigits| == |old(bigits)|
      ensures bigits == old(bigits)[index := bigits[index]]
      ensures bigits[index] == old(bigits)[index] - other - borrow + borrow' * 0x1_0000_0000
    {
      var result: DoubleBigit := (bigits[index] - other - borrow) % 0x1_0000_0000_0000_0000;
      bigits := bigits[index := result % 0x1_0000_0000];
      borrow' := result / 0x8000_0000_0000_0000;
    }

    method RemoveLeadingZeros()
      requires bigits != []
      modifies this`bigits
      ensures Val(bigits) == Val(old(bigits))
      ensures Normalized() || SingleZero(bigits)
      ensures 0 < |bigits| <= |old(bigits)| && bigits == old(bigits)[..|bigits|]
      ensures forall k :: |bigits| <= k < |old(bigits)| ==> old(bigits)[k] == 0
      ensures old(Normalized()) ==> bigits == old(bigits)
    {
      var words := bigits;
      var top := |words| - 1;
      assert words[..top + 1] == words;
      while top > 0 && words[top] == 0
        invariant 0 <= top < |words|
        invariant Val(words[..top + 1]) == Val(words)
        invariant NonZeroTop(words) ==> top == |words| - 1
        invariant forall k :: top < k < |words| ==> words[k] == 0
      {
        ValPrefix(words, top);
        ScaleZero(top);
        top := top - 1;
      }
      bigits := words[..top + 1];
    }

    // Word-by-word subtraction of a number whose lowest word stands at or above this one's.
    method SubtractWords(other: Bigint) returns (borrow: Bigit)
      requires this != other
      requires exp <= other.exp && NumBigits() >= other.NumBigits()
      modifies this`bigits
      ensures Subtracted(old(Num()), bigits, other.Num(), borrow)
    {
      ghost var s, o := bigits, other.bigits;
      var off := other.exp - exp;
      borrow := 0;
      ScaleZero(off);
      var j := 0;
      while j < |other.bigits|
        invariant 0 <= j <= |o| && other.bigits == o
        invariant |bigits| == |s| && borrow <= 1
        invariant bigits[off + j..] == s[off + j..]
        invariant Val(bigits) == Val(s) - ValueOf(o[..j], off) + Scale(borrow, off + j)
      {
        ghost var t, b := bigits, borrow;
        borrow := SubtractBigits(off + j, other.bigits[j], borrow);
        BorrowStep(s, t, o, off, j, b, bigits[off + j], borrow);
        assert bigits[off + j + 1..] == s[off + j..][1..];
        j := j + 1;
      }
      assert o[..j] == o;
    }

    // The loop that is meant to carry a borrow upwards; it stays on one word.
    method SettleBorrow(i: nat, pending: Bigit)
      requires pending <= 1 && (pending == 1 ==> i < |bigits|)
      modifies this`bigits
      ensures pending == 0 ==> bigits == old(bigits)
      ensures pending == 1 ==> bigits == old(bigits)[i := Settled(old(bigits)[i])]
    {
      ghost var t := bigits;
      var borrow := pending;
      while borrow > 0
        invariant 0 <= borrow <= pending && |bigits| == |t|
        invariant borrow == 1 ==> bigits == t || (t[i] == 0 && bigits == t[i := 0xFFFF_FFFF])
        invariant borrow == 0 && pending == 0 ==> bigits == t
        invariant borrow == 0 && pending == 1 ==> bigits == t[i := Settled(t[i])]
        decreases if borrow == 0 then 0 else if bigits[i] == 0 then 2 else 1
      {
        borrow := SubtractBigits(i, 0, borrow);
      }
    }

    // Subtraction of an aligned number. It is exact unless the borrow meets a zero word just
    // above the other number's top; then the result is too large by that word's full range.
    // Words higher up are never reached, so a number two words longer stays that long.
    method SubtractAligned(other: Bigint)
      requires this != other
      requires exp <= other.exp && Normalized() && other.Normalized()
      requires Value() >= other.Value()
      modifies this`bigits
      ensures Value() == Difference(old(Num()), other.Num())
      ensures Normalized() || SingleZero(bigits)
      ensures old(NumBigits()) > other.NumBigits() + 1 ==> NumBigits() == old(NumBigits())
    {
      ghost var s, o := Num(), other.Num();
      AlignedOperands(s, o);
      var borrow := SubtractWords(other);
      ghost var t := bigits;
      BorrowFits(s, t, o, borrow);
      SettleBorrow(other.NumBigits() - exp, borrow);
      SettledDifference(s, t, bigits, o, borrow);
      if |bigits| > o.NumBigits() - s.exp + 1 { SettledTop(s, t, bigits, o, borrow); }
      RemoveLeadingZeros();
    }

    static method Compare(lhs: Bigint, rhs: Bigint) returns (r: int)
      requires lhs.Num().ComparableTo(rhs.Num()) && rhs.Num().ComparableTo(lhs.Num())
      ensures r == StoredOrder(lhs.Num(), rhs.Num())
    {
      ghost var l, r' := lhs.Num(), rhs.Num();
      if lhs.NumBigits() != rhs.NumBigits() {
        if lhs.NumBigits() > rhs.NumBigits() {
          OrderByLength(l, r');
          return 1;
        }
        OrderByLength(r', l);
        return -1;
      }
      var i, j := |lhs.bigits| - 1, |rhs.bigits| - 1;
      var end := i - j;
      if end < 0 { end := 0; }
      while i >= end
        invariant end - 1 <= i < |lhs.bigits| && -1 <= j < |rhs.bigits|
        invariant i + lhs.exp == j + rhs.exp
        invariant AgreeFrom(l, r', i + lhs.exp + 1)
      {
        if lhs.bigits[i] != rhs.bigits[j] {
          OrderByWord(l, r', i + lhs.exp);
          return if lhs.bigits[i] > rhs.bigits[j] then 1 else -1;
        }
        i, j := i - 1, j - 1;
      }
      OrderByRemainder(l, r', i + 1 + lhs.exp);
      if i != j {
        return if i > j then 1 else -1;
      }
      return 0;
    }

    function GetBigit(i: int): (b: Bigit)
      reads this
      ensures b == WordAt(bigits, exp, i)
    {
      if exp <= i < NumBigits() then bigits[i - exp] else 0
    }

    // The sign of lhs1 + lhs2 - rhs, decided from the top word down with a running borrow.
    static method AddCompare(lhs1: Bigint, lhs2: Bigint, rhs: Bigint) returns (r: int)
      requires lhs1.Num().ComparableTo(rhs.Num()) && lhs2.Num().ComparableTo(rhs.Num())
      requires rhs.Normalized()
      ensures r == Sign(lhs1.Value() + lhs2.Value() - rhs.Value())
    {
      var maxLhs := if lhs1.NumBigits() > lhs2.NumBigits() then lhs1.NumBigits() else lhs2.NumBigits();
      var numRhs := rhs.NumBigits();
      ghost var x, y, z := lhs1.Num(), lhs2.Num(), rhs.Num();
      LengthDecides(x, y, z, maxLhs);
      if maxLhs + 1 < numRhs { return -1; }
      if maxLhs > numRhs { return 1; }
      var borrow: DoubleBigit := 0;
      var minExp := if lhs1.exp < lhs2.exp then lhs1.exp else lhs2.exp;
      if rhs.exp < minExp { minExp := rhs.exp; }
      var i: int := numRhs - 1;
      ghost var lead := 0;
      LeadStep(x, y, z, numRhs);
      while i >= minExp
        invariant minExp - 1 <= i < numRhs
        invariant 0 <= lead <= 1 && borrow == 0x1_0000_0000 * lead
        invariant lead == Lead(x, y, z, i + 1)
      {
        var sum: DoubleBigit := lhs1.GetBigit(i) + lhs2.GetBigit(i);
        var rhsBigit := rhs.GetBigit(i);
        LeadStep(x, y, z, i);
        LeadDecides(x, y, z, i);
        if sum > rhsBigit + borrow { return 1; }
        borrow := rhsBigit + borrow - sum;
        if borrow > 1 { return -1; }
        lead := borrow;
        borrow := borrow * 0x1_0000_0000;
        i := i - 1;
      }
      LeadIsExact(x, y, z, minExp);
      return if borrow != 0 then -1 else 0;
    }

    // ---- Squaring and powers of ten ----

    // The product of two words is a double word, and the sum has room for it.
    static method AddProduct(sum: Accumulator, a: Bigit, b: Bigit) returns (r: Accumulator)
      requires sum.upper < 0xFFFF_FFFF_FFFF_FFFF
      ensures r.Value() == sum.Value() + a * b
      ensures sum.Value() <= r.Value() <= sum.Value() + 0xFFFF_FFFF_FFFF_FFFF
    {
      WordStep(a, b, 0);
      var product: DoubleBigit := (a as int) * b;
      r := sum.Add(product);
    }

    // One column of the lower half: positions 0 .. k paired with k .. 0.
    static method SumLowColumn(n: seq<Bigit>, k: nat, start: Accumulator) returns (sum: Accumulator)
      requires k < |n| <= 0x8000_0000 && start.Value() <= 2 * |n| * 0x1_0000_0000
      ensures sum.Value() == start.Value() + Col(n, n, k)
      ensures start.Value() <= sum.Value() <= 2 * |n| * 0x1_0000_0000_0000_0000
    {
      sum := start;
      var i, j := 0, k as int;
      while j >= 0
        invariant 0 <= i <= k + 1 && j == k - i
        invariant sum.Value() == start.Value() + Col(n[..i], n, k)
        invariant start.Value() <= sum.Value() <= (|n| + i) * 0x1_0000_0000_0000_0000
      {
        ColSnoc(n, n, i, k);
        sum := AddProduct(sum, n[i], n[j]);
        i, j := i + 1, j - 1;
      }
      ColUpTo(n, n, i, k);
    }

    // One column of the upper half: positions k - (|n| - 1) .. |n| - 1 paired in reverse.
    static method SumHighColumn(n: seq<Bigit>, k: nat, start: Accumulator) returns (sum: Accumulator)
      requires |n| <= k < 2 * |n| && |n| <= 0x8000_0000 && start.Value() <= 2 * |n| * 0x1_0000_0000
      ensures sum.Value() == start.Value() + Col(n, n, k)
      ensures start.Value() <= sum.Value() <= 2 * |n| * 0x1_0000_0000_0000_0000
    {
      sum := start;
      var j := |n| - 1;
      var i := k - j;
      ColFrom(n, n, i, k);
      while i < |n|
        invariant k - (|n| - 1) <= i <= |n| && j == k - i
        invariant sum.Value() == start.Value() + Col(n[..i], n, k)
        invariant start.Value() <= sum.Value() <= (|n| + i) * 0x1_0000_0000_0000_0000
      {
        ColSnoc(n, n, i, k);
        sum := AddProduct(sum, n[i], n[j]);
        i, j := i + 1, j - 1;
      }
      assert n[..i] == n;
    }

    // The low word of a column's sum becomes word k; the rest is carried to the next column.
    method StoreColumn(n: seq<Bigit>, k: nat, sum: Accumulator, ghost carry: nat) returns (next: Accumulator)
      requires k < |bigits|
      requires Val(bigits[..k]) + Scale(carry, k) == SumCols(n, n, k)
      requires sum.Value() == carry + Col(n, n, k)
      modifies this`bigits
      ensures |bigits| == |old(bigits)|
      ensures Val(bigits[..k + 1]) + Scale(next.Value(), k + 1) == SumCols(n, n, k + 1)
      ensures next.Value() == sum.Value() / 0x1_0000_0000
    {
      ghost var before := bigits[..k];
      bigits := bigits[k := sum.LowWord()];
      assert bigits[..k] == before;
      ColumnStep(n, bigits, k, carry, sum.Value());
      next := sum.ShiftWord();
    }

    static method EmptySum() returns (sum: Accumulator)
      ensures sum.Value() == 0
    {
      sum := Accumulator(0, 0);
    }

    method LowColumns(n: seq<Bigit>, start: Accumulator) returns (sum: Accumulator)
      requires 0 < |n| <= 0x8000_0000 && |bigits| == 2 * |n| && start.Value() == 0
      modifies this`bigits
      ensures |bigits| == 2 * |n|
      ensures Val(bigits[..|n|]) + Scale(sum.Value(), |n|) == SumCols(n, n, |n|)
      ensures sum.Value() <= 2 * |n| * 0x1_0000_0000
    {
      sum := start;
      var k := 0;
      while k < |n|
        invariant 0 <= k <= |n| && |bigits| == 2 * |n|
        invariant Val(bigits[..k]) + Scale(sum.Value(), k) == SumCols(n, n, k)
        invariant sum.Value() <= 2 * |n| * 0x1_0000_0000
      {
        ghost var carry := sum.Value();
        sum := SumLowColumn(n, k, sum);
        sum := StoreColumn(n, k, sum, carry);
        k := k + 1;
      }
    }

    method HighColumns(n: seq<Bigit>, start: Accumulator) returns (sum: Accumulator)
      requires 0 < |n| <= 0x8000_0000 && |bigits| == 2 * |n|
      requires Val(bigits[..|n|]) + Scale(start.Value(), |n|) == SumCols(n, n, |n|)
      requires start.Value() <= 2 * |n| * 0x1_0000_0000
      modifies this`bigits
      ensures |bigits| == 2 * |n|
      ensures Val(bigits) + Scale(sum.Value(), 2 * |n|) == SumCols(n, n, 2 * |n|)
    {
      sum := start;
      var k := |n|;
      while k < 2 * |n|
        invariant |n| <= k <= 2 * |n| == |bigits|
        invariant Val(bigits[..k]) + Scale(sum.Value(), k) == SumCols(n, n, k)
        invariant sum.Value() <= 2 * |n| * 0x1_0000_0000
      {
        ghost var carry := sum.Value();
        sum := SumHighColumn(n, k, sum);
        sum := StoreColumn(n, k, sum, carry);
        k := k + 1;
      }
      assert bigits[..k] == bigits;
    }

    method SquareWords()
      requires 0 < |bigits| <= 0x8000_0000
      modifies this
      ensures Val(bigits) == SumCols(old(bigits), old(bigits), 2 * |old(bigits)|)
      ensures Normalized() || SingleZero(bigits)
      ensures exp == 2 * old(exp)
    {
      var n := bigits;
      bigits := bigits + bigits;   // room for the result; every word is overwritten
      var sum := EmptySum();
      sum := LowColumns(n, sum);
      sum := HighColumns(n, sum);
      NoFinalCarry(n, bigits, sum.Value());
      RemoveLeadingZeros();
      exp := exp * 2;
    }

    method Square()
      requires 0 < |bigits| <= 0x8000_0000
      modifies this
      ensures Value() == old(Value()) * old(Value())
      ensures Normalized() || SingleZero(bigits)
      ensures exp == 2 * old(exp)
    {
      ghost var s := Num();
      SquareWords();
      SquareValue(s, Num());
    }

    // 10^n by repeated squaring of 5 along the bits of n, then a shift.
    method AssignPow10(n: nat)
      requires n < 0x4000_0000
      modifies this
      ensures Value() == Pow(10, n) && exp == n / 32
      ensures Normalized()
    {
      if n == 0 {
        Assign(1);
        return;
      }
      var bitmask: nat := TopBit(n);
      Assign(5);
      DivModUnique(n, bitmask, 1, n - bitmask);
      assert Pow(5, 1) == 5 * Pow(5, 0);
      ghost var d := bitmask;
      bitmask := bitmask / 2;
      while bitmask != 0
        invariant 0 <= bitmask && d > 0 && IsPowerOfTwo(d) && bitmask == d / 2
        invariant Value() == Pow(5, n / d) && Normalized() && exp == 0
        decreases bitmask
      {
        TwiceHalf(n, bitmask);
        SquareAndMultiply(bitmask, n, d);
        d := bitmask;
        bitmask := bitmask / 2;
      }
      ShiftLeft(n);
      PowMul(5, 2, n);
    }

    // The highest power of two that does not exceed n.
    static method TopBit(n: nat) returns (bitmask: nat)
      requires n > 0
      ensures IsPowerOfTwo(bitmask) && bitmask <= n < 2 * bitmask
    {
      bitmask := 1;
      while n >= bitmask
        invariant 1 <= bitmask <= 2 * n && IsPowerOfTwo(bitmask)
        invariant bitmask == 1 || n >= bitmask / 2
        decreases 2 * n - bitmask
      {
        bitmask := bitmask * 2;
      }
      bitmask := bitmask / 2;
    }

    // One round: the exponent of five doubles and takes in the next lower bit of n.
    method SquareAndMultiply(bitmask: nat, n: nat, ghost d: nat)
      requires 0 < bitmask && 0 < d && n < 0x4000_0000
      requires n / bitmask == 2 * (n / d) + (n / bitmask) % 2
      requires Value() == Pow(5, n / d) && Normalized() && exp == 0
      modifies this
      ensures Value() == Pow(5, n / bitmask) && Normalized() && exp == 0
    {
      ghost var k := n / d;
      FivePowerLength(Num(), k);
      assert k <= n by { QuotientAtMost(n, d); }
      Square();
      PowAdd(5, k, k);
      PowPositive(5, 2 * k);
      if SingleZero(bigits) { ZeroWord(bigits, exp); }
      if (n / bitmask) % 2 != 0 {
        MultiplyWord(5);
      }
    }

    // ---- Division by repeated subtraction ----

    // Zero words are added below until this number reaches as far down as the other one.
    method Align(other: Bigint)
      modifies this
      ensures Value() == old(Value())
      ensures exp == (if old(exp) <= other.exp then old(exp) else other.exp)
      ensures old(Normalized()) ==> Normalized()
    {
      var difference := exp - other.exp;
      if difference <= 0 { return; }
      MoveUp(difference);
      exp := exp - difference;
    }

    method MoveUp(difference: nat)
      modifies this`bigits
      ensures exp >= difference ==> ValueOf(bigits, exp - difference) == ValueOf(old(bigits), exp)
      ensures old(Normalized()) ==> Normalized()
    {
      ghost var s := bigits;
      CopyUp(difference);
      var k := 0;
      while k < difference
        invariant 0 <= k <= difference <= |bigits|
        invariant bigits[difference..] == s
        invariant forall m :: 0 <= m < k ==> bigits[m] == 0
      {
        bigits := bigits[k := 0];
        k := k + 1;
      }
      if exp >= difference { AlignedWords(bigits, s, difference, exp - difference); }
    }

    method CopyUp(difference: nat)
      modifies this`bigits
      ensures |bigits| >= difference && bigits[difference..] == old(bigits)
    {
      ghost var s := bigits;
      var numBigits := |bigits|;
      bigits := bigits + seq(difference, _ => 0);
      var i := numBigits - 1;
      var j := i + difference;
      while i >= 0
        invariant -1 <= i < numBigits && j == i + difference
        invariant |bigits| == numBigits + difference
        invariant forall m :: 0 <= m <= i ==> bigits[m] == s[m]
        invariant forall m :: j < m < |bigits| ==> bigits[m] == s[m - difference]
      {
        bigits := bigits[j := bigits[i]];
        i, j := i - 1, j - 1;
      }
    }

    // Division with remainder by repeated subtraction, for a quotient that fits the int that
    // carries it. It is exact unless compare is asked to judge this number against an equal
    // divisor that is stored with a smaller exponent; then nothing is divided.
    method DivModAssign(divisor: Bigint) returns (quotient: int)
      requires this != divisor && divisor.Normalized() && Num().ComparableTo(divisor.Num())
      requires Value() < 0x8000_0000 * divisor.Value()
      modifies this
      ensures divisor.Value() > 0
      ensures if old(Misjudged(Num(), divisor.Num()))
              then quotient == 0 && Num() == old(Num())
              else quotient == old(Value()) / divisor.Value() && Value() == old(Value()) % divisor.Value()
      ensures Num().ComparableTo(divisor.Num()) && exp <= old(exp)
      ensures Num() == old(Num()) || exp <= divisor.exp
      ensures old(exp) <= divisor.exp ==> exp == old(exp)
    {
      ghost var v, d := Value(), divisor.Value();
      ValueTop(divisor.bigits, divisor.exp);
      ValueBound(bigits, exp);
      var order := Compare(this, divisor);
      if order < 0 {
        if v < d { DivModUnique(v, d, 0, v); }
        return 0;
      }
      assert Normalized() by { if SingleZero(bigits) { ZeroWord(bigits, exp); } }
      Align(divisor);
      quotient := 0;
      while true
        invariant exp == (if old(exp) <= divisor.exp then old(exp) else divisor.exp) && Normalized()
        invariant Value() >= d && Value() == v - quotient * d
        decreases Value()
      {
        NeverStuck(Num(), divisor.Num());
        SubtractAligned(divisor);
        quotient := quotient + 1;
        Distribute(quotient - 1, 1, d);
        if SingleZero(bigits) { ZeroWord(bigits, exp); }
        order := Compare(this, divisor);
        if order < 0 { break; }
      }
      ValueBound(bigits, exp);
      DivModUnique(v, d, quotient, Value());
    }
  }
}
