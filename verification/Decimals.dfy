// Decimal digit strings, rounding to nearest with ties to even, and the carry that rounding
// up sends through trailing nines. A character c of the original's buffer appears as c - '0',
// so the transient character after '9' is the number ten.

module Decimals {
  import opened Powers

  function Number(digits: seq<nat>): nat {
    if digits == [] then 0 else 10 * Number(digits[..|digits| - 1]) + digits[|digits| - 1]
  }

  predicate IsDecimal(digits: seq<nat>) {
    forall i :: 0 <= i < |digits| ==> digits[i] <= 9
  }

  // x / d rounded to an integer, ties to even.
  function RoundHalfEven(x: nat, d: nat): nat
    requires d > 0
  {
    var q, r := x / d, x % d;
    if 2 * r < d || (2 * r == d && q % 2 == 0) then q else q + 1
  }

  // No integer is nearer to x / d, and one as near leaves only an even choice.
  lemma RoundHalfEvenIsNearest(x: nat, d: nat, n: int)
    requires d > 0
    ensures var q := RoundHalfEven(x, d);
            && Abs(q * d - x) <= Abs(n * d - x)
            && (n != q && Abs(q * d - x) == Abs(n * d - x) ==> q % 2 == 0)
            && 2 * Abs(q * d - x) <= d
  {
    var q, r := x / d, x % d;
    assert x == q * d + r;
    Distribute(q, 1, d);
    if n <= q { MulMonotone(d, n, q); if n < q { MulMonotone(d, n, q - 1); Distribute(q, -1, d); } }
    if n > q { MulMonotone(d, q + 1, n); if n > q + 1 { MulMonotone(d, q + 2, n); Distribute(q, 2, d); } }
  }

  function Abs(x: int): nat { if x < 0 then -x else x }

  lemma NumberSnoc(digits: seq<nat>, d: nat)
    ensures Number(digits + [d]) == 10 * Number(digits) + d
  {
    assert (digits + [d])[..|digits|] == digits;
  }

  lemma {:induction false} NumberBound(digits: seq<nat>)
    requires IsDecimal(digits)
    ensures Number(digits) < Pow(10, |digits|)
  {
    if digits != [] { NumberBound(digits[..|digits| - 1]); }
  }

  // A ten at position i counts as a zero there and one more at the position before.
  lemma {:induction false} CarryKeepsNumber(s: seq<nat>, i: nat)
    requires 0 < i < |s| && s[i] == 10
    ensures Number(s[i := 0][i - 1 := s[i - 1] + 1]) == Number(s)
  {
    var t := s[i := 0][i - 1 := s[i - 1] + 1];
    var k := |s| - 1;
    if i == k {
      assert s[..k][..k - 1] == s[..k - 1];
      assert t[..k][..k - 1] == s[..k - 1];
      assert t[k] == 0 && t[..k][k - 1] == s[k - 1] + 1;
    } else {
      CarryKeepsNumber(s[..k], i);
      assert t[..k] == s[..k][i := 0][i - 1 := s[i - 1] + 1];
    }
  }

  lemma {:induction false} LeadingDigitOnly(s: seq<nat>)
    requires s != [] && forall k :: 1 <= k < |s| ==> s[k] == 0
    ensures Number(s) == s[0] * Pow(10, |s| - 1)
  {
    if |s| == 1 {
      assert s[..0] == [];
    } else {
      LeadingDigitOnly(s[..|s| - 1]);
      MulAssoc(10, s[0], Pow(10, |s| - 2));
      MulAssoc(s[0], 10, Pow(10, |s| - 2));
    }
  }

  // The loop that moves a ten at the end of the buffer leftwards. Either it is absorbed, or
  // every digit was a nine and the ten arrives in front of zeros.
  method PropagateCarry(digits: seq<nat>) returns (buf: seq<nat>)
    requires digits != [] && IsDecimal(digits[..|digits| - 1]) && digits[|digits| - 1] <= 10
    ensures |buf| == |digits| && Number(buf) == Number(digits)
    ensures IsDecimal(buf[1..]) && buf[0] <= 10
    ensures buf[0] == 10 ==> Number(buf) == Pow(10, |buf|) && buf == [10] + seq(|buf| - 1, _ => 0)
  {
    buf := digits;
    var i := |buf| - 1;
    assert forall k :: 0 <= k < i ==> buf[k] == digits[..i][k];
    while i > 0 && buf[i] == 10
      invariant 0 <= i < |buf| == |digits| && Number(buf) == Number(digits)
      invariant forall k :: 0 <= k < i ==> buf[k] <= 9
      invariant buf[i] <= 10
      invariant forall k :: i < k < |buf| ==> buf[k] == 0
    {
      CarryKeepsNumber(buf, i);
      buf := buf[i := 0];
      buf := buf[i - 1 := buf[i - 1] + 1];
      i := i - 1;
    }
    if buf[0] == 10 {
      LeadingDigitOnly(buf);
    }
  }

  // The buffer after an overflow: a one in place of the ten.
  lemma OverflowAsOne(buf: seq<nat>)
    requires buf != [] && buf == [10] + seq(|buf| - 1, _ => 0)
    ensures IsDecimal(buf[0 := 1])
    ensures Number(buf[0 := 1]) * 10 == Number(buf)
    ensures Number(buf[0 := 1] + [0]) == Number(buf)
  {
    LeadingDigitOnly(buf);
    LeadingDigitOnly(buf[0 := 1]);
    NumberSnoc(buf[0 := 1], 0);
  }
}
