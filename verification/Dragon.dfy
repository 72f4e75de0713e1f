// The digit generator of fallback_format: decimal digits of numerator / denominator computed
// with exact integers, either a given number of them or as few as identify the value.

module Dragon {
  import opened Powers
  import opened Words
  import opened WordOrder
  import opened BigIntegers
  import opened Decimals

  // Division may start before the numerator has been brought down to the denominator's lowest
  // word, but then the two must never become equal as digits are generated.
  ghost predicate NeverMisjudged(numerator: Stored, denominator: Stored) {
    numerator.exp <= denominator.exp
    || forall k: nat :: numerator.Value() * Pow(10, k) != denominator.Value()
  }

  // ---- Facts about one digit step on plain integers ----

  // n0 * 10^i == m * 10d + n: i digits with value m are out, n / d is what they leave.
  lemma DigitExtends(n0: int, p: int, m: int, d: int, n: int)
    requires d > 0 && 0 <= n < 10 * d
    requires n0 * p == m * (10 * d) + n
    ensures 0 <= n / d <= 9
    ensures n0 * p == (10 * m + n / d) * d + n % d
    ensures n0 * (10 * p) == (10 * m + n / d) * (10 * d) + 10 * (n % d)
  {
    var q, r := n / d, n % d;
    if q >= 10 { MulMonotone(d, 10, q); }
    if q < 0 { MulMonotone(d, q, -1); }
    MulAssoc(m, 10, d);
    Distribute(10 * m, q, d);
    MulAssoc(n0, 10, p);
    MulAssoc(10, n0, p);
    MulAssoc(10 * m + q, 10, d);
    MulAssoc(10, 10 * m + q, d);
  }

  lemma RoundsTo(x: nat, d: nat, m: nat, q: nat, r: nat, up: bool)
    requires d > 0 && r < d && x == (10 * m + q) * d + r
    requires up <==> (2 * r > d || (2 * r == d && q % 2 != 0))
    ensures RoundHalfEven(x, d) == 10 * m + q + (if up then 1 else 0)
  {
    DivModUnique(x, d, 10 * m + q, r);
  }

  // ---- A given number of digits ----

  // The first n - 1 digits, each followed by a multiplication of the rest by ten.
  method LeadingDigits(numerator: Bigint, denominator: Bigint, n: nat) returns (buf: seq<nat>)
    requires numerator != denominator && denominator.Normalized()
    requires numerator.Num().ComparableTo(denominator.Num())
    requires numerator.Value() < 10 * denominator.Value()
    requires NeverMisjudged(numerator.Num(), denominator.Num())
    modifies numerator
    ensures |buf| == n && IsDecimal(buf)
    ensures denominator.Value() > 0 && 0 <= numerator.Value() < 10 * denominator.Value()
    ensures old(numerator.Value()) * Pow(10, n)
         == Number(buf) * (10 * denominator.Value()) + numerator.Value()
    ensures numerator.Num().ComparableTo(denominator.Num())
    ensures !Misjudged(numerator.Num(), denominator.Num())
  {
    ghost var s, d := numerator.Num(), denominator.Num();
    ghost var n0 := s.Value();
    ValueBound(s.words, s.exp);
    ValueTop(d.words, d.exp);
    buf := [];
    var i := 0;
    assert Pow(10, 0) == 1;
    while i < n
      invariant 0 <= i <= n && |buf| == i && IsDecimal(buf)
      invariant denominator.Num() == d
      invariant 0 <= numerator.Value() < 10 * d.Value()
      invariant n0 * Pow(10, i) == Number(buf) * (10 * d.Value()) + numerator.Value()
      invariant numerator.Num().ComparableTo(d)
      invariant numerator.exp <= d.exp || (numerator.exp == s.exp && numerator.Value() == n0 * Pow(10, i))
    {
      ghost var before := numerator.Value();
      var digit := numerator.DivModAssign(denominator);
      DigitExtends(n0, Pow(10, i), Number(buf), d.Value(), before);
      NumberSnoc(buf, digit);
      buf := buf + [digit];
      if numerator.exp > d.exp {
        MulAssoc(n0, Pow(10, i), 10);
      }
      numerator.MultiplyWord(10);
      i := i + 1;
    }
  }

  // Exactly n >= 1 digits: the value rounded to nearest at that digit, ties to even, with the
  // exponent raised by one when rounding carries into a new leading digit.
  method FixedDigits(numerator: Bigint, denominator: Bigint, n: nat, exp10: int)
    returns (buf: seq<nat>, exp': int)
    requires n >= 1
    requires numerator != denominator && denominator.Normalized()
    requires numerator.Num().ComparableTo(denominator.Num())
    requires numerator.Value() < 10 * denominator.Value()
    requires NeverMisjudged(numerator.Num(), denominator.Num())
    modifies numerator
    ensures |buf| == n && IsDecimal(buf)
    ensures denominator.Value() > 0 && old(numerator.Value()) >= 0
    ensures exp' == exp10 - (n - 1) || exp' == exp10 - (n - 1) + 1
    ensures var q := RoundHalfEven(old(numerator.Value()) * Pow(10, n - 1), denominator.Value());
            && Number(buf) * Pow(10, exp' - (exp10 - (n - 1))) == q
            && (exp' == exp10 - (n - 1) + 1 <==> q == Pow(10, n))
  {
    ghost var n0, d := numerator.Value(), denominator.Value();
    ValueBound(numerator.bigits, numerator.exp);
    exp' := exp10 - (n - 1);
    buf := LeadingDigits(numerator, denominator, n - 1);
    ghost var m, rest := Number(buf), numerator.Value();
    var digit := numerator.DivModAssign(denominator);
    ghost var r := numerator.Value();
    DigitExtends(n0, Pow(10, n - 1), m, d, rest);
    var result := Bigint.AddCompare(numerator, numerator, denominator);
    var up := result > 0 || (result == 0 && digit % 2 != 0);
    PowPositive(10, n - 1);
    MulMonotone(n0, 0, Pow(10, n - 1));
    RoundsTo(n0 * Pow(10, n - 1), d, m, digit, r, up);
    assert Pow(10, 0) == 1 && Pow(10, 1) == 10 * Pow(10, 0);
    if up {
      if digit == 9 {
        NumberSnoc(buf, 10);
        buf := PropagateCarry(buf + [10]);
        if buf[0] == 10 {
          OverflowAsOne(buf);
          buf := buf[0 := 1];
          exp' := exp' + 1;
        } else {
          NumberBound(buf);
        }
        return;
      }
      digit := digit + 1;
    }
    NumberSnoc(buf, digit);
    buf := buf + [digit];
    NumberBound(buf);
  }

  // No digits at all: a single 0 or 1 one decimal place above the value.
  method NoDigits(numerator: Bigint, denominator: Bigint, exp10: int) returns (buf: seq<nat>, exp': int)
    requires numerator != denominator && denominator.Normalized()
    requires numerator.Num().ComparableTo(denominator.Num())
    requires numerator.Value() < 10 * denominator.Value()
    modifies denominator
    ensures denominator.Value() == 10 * old(denominator.Value()) > 0 && numerator.Value() >= 0
    ensures |buf| == 1 && IsDecimal(buf) && exp' == exp10 + 1
    ensures Number(buf) == RoundHalfEven(numerator.Value(), denominator.Value())
  {
    exp' := exp10 - (0 - 1);
    ValueBound(numerator.bigits, numerator.exp);
    denominator.MultiplyWord(10);
    ValueTop(denominator.bigits, denominator.exp);
    var result := Bigint.AddCompare(numerator, numerator, denominator);
    RoundsToOne(numerator.Value(), denominator.Value(), result > 0);
    buf := [if result > 0 then 1 else 0];
    OneDigit(buf[0]);
  }

  lemma RoundsToOne(n: nat, d: nat, up: bool)
    requires n < d && (up <==> n + n > d)
    ensures RoundHalfEven(n, d) == if up then 1 else 0
  {
    DivModUnique(n, d, 0, n);
  }

  lemma OneDigit(digit: nat)
    ensures Number([digit]) == digit
  {
    NumberSnoc([], digit);
    assert [] + [digit] == [digit];
  }

  // ---- As few digits as identify the value ----

  // The decimal m with its last digit at the scale of x lies between the boundaries, which are
  // l below and u above x (all in units of 1 / d); each of them may belong to the interval.
  predicate Between(m: int, x: int, d: int, l: int, u: int, withLower: bool, withUpper: bool) {
    && (if withLower then x - l <= m * d else x - l < m * d)
    && (if withUpper then m * d <= x + u else m * d < x + u)
  }

  // When both neighbours of x / d lie outside the boundaries, every integer does.
  lemma NothingBetween(x: int, d: int, m: int, r: int, l: int, u: int, withLower: bool, withUpper: bool)
    requires d > 0 && x == m * d + r
    requires r >= l && r + u <= d && (withLower ==> r > l) && (withUpper ==> r + u < d)
    ensures forall k :: !Between(k, x, d, l, u, withLower, withUpper)
  {
    forall k ensures !Between(k, x, d, l, u, withLower, withUpper) {
      if k <= m { MulMonotone(d, k, m); }
      if k > m { MulMonotone(d, m + 1, k); Distribute(m, 1, d); }
    }
  }

  // The tests on the remainder: whether m itself and whether m + 1 lies between the boundaries.
  predicate Tests(low: bool, high: bool, r: int, d: int, l: int, u: int, withLower: bool, withUpper: bool) {
    && (low <==> if withLower then r <= l else r < l)
    && (high <==> if withUpper then r + u >= d else r + u > d)
  }

  // The choice between m and m + 1 made when at least one of them is between the boundaries.
  lemma ChosenNeighbour(x: int, d: int, m: int, r: int, l: int, u: int, withLower: bool, withUpper: bool,
                        low: bool, high: bool, up: bool)
    requires d > 0 && x == m * d + r && 0 <= r < d && l > 0 && u > 0
    requires Tests(low, high, r, d, l, u, withLower, withUpper)
    requires low || high
    requires !low ==> up
    requires low && !high ==> !up
    requires low && high ==> if up then 2 * r >= d else 2 * r <= d
    ensures var c := if up then m + 1 else m;
            && Between(c, x, d, l, u, withLower, withUpper)
            && forall k :: Between(k, x, d, l, u, withLower, withUpper) ==> Abs(c * d - x) <= Abs(k * d - x)
  {
    var c := if up then m + 1 else m;
    Distribute(m, 1, d);
    forall k | Between(k, x, d, l, u, withLower, withUpper) ensures Abs(c * d - x) <= Abs(k * d - x) {
      if k <= m { MulMonotone(d, k, m); }
      if k > m { MulMonotone(d, m + 1, k); }
    }
  }

  // The comparison with the lower boundary. On the boundary itself it is right exactly when
  // the numerator reaches no further down: otherwise it takes the boundary to be outside.
  lemma LowTest(numerator: Stored, lower: Stored, even: bool)
    requires numerator.exp <= lower.exp
    ensures var low := StoredOrder(numerator, lower) - (if even then 1 else 0) < 0;
            low <==> if even && numerator.exp == lower.exp then numerator.Value() <= lower.Value()
                     else numerator.Value() < lower.Value()
  {}

  // How the four operands are stored while digits are generated: numerator and lower start
  // with the same exponent e, and only the numerator is ever brought down, to the denominator.
  predicate Shape(numerator: Stored, denominator: Stored, lower: Stored, upper: Stored, e: nat) {
    && denominator.Normalized() && lower.Normalized() && upper.Normalized()
    && numerator.ComparableTo(denominator)
    && lower.exp == e && numerator.exp <= e
    && (e <= denominator.exp ==> numerator.exp == e)
  }

  // One digit and the two tests that decide whether it is the last.
  method DigitAndTests(numerator: Bigint, denominator: Bigint, lower: Bigint, upper: Bigint, even: bool)
    returns (digit: int, low: bool, high: bool)
    requires numerator != denominator && numerator != lower && upper != numerator
    requires Shape(numerator.Num(), denominator.Num(), lower.Num(), upper.Num(), lower.exp)
    requires !Misjudged(numerator.Num(), denominator.Num())
    requires 0 <= numerator.Value() < 10 * denominator.Value()
    requires numerator.exp <= denominator.exp || numerator.Value() != lower.Value()
    modifies numerator
    ensures Shape(numerator.Num(), denominator.Num(), lower.Num(), upper.Num(), lower.exp)
    ensures numerator.Num() == old(numerator.Num()) || numerator.exp <= denominator.exp
    ensures var d, r, l, u := denominator.Value(), numerator.Value(), lower.Value(), upper.Value();
            && d > 0 && digit == old(numerator.Value()) / d && r == old(numerator.Value()) % d
            && Tests(low, high, r, d, l, u, even && lower.exp <= denominator.exp, even)
  {
    digit := numerator.DivModAssign(denominator);
    var below := Bigint.Compare(numerator, lower);
    LowTest(numerator.Num(), lower.Num(), even);
    low := below - (if even then 1 else 0) < 0;
    var above := Bigint.AddCompare(numerator, upper, denominator);
    high := above + (if even then 1 else 0) > 0;
  }

  method TimesTen(numerator: Bigint, lower: Bigint, upper: Bigint, ghost denominator: Stored)
    requires numerator != lower && upper != numerator
    requires Shape(numerator.Num(), denominator, lower.Num(), upper.Num(), lower.exp)
    modifies numerator, lower, upper
    ensures Shape(numerator.Num(), denominator, lower.Num(), upper.Num(), lower.exp)
    ensures numerator.exp == old(numerator.exp) && lower.exp == old(lower.exp)
    ensures numerator.Value() == old(numerator.Value()) * 10
    ensures lower.Value() == old(lower.Value()) * 10 && upper.Value() == old(upper.Value()) * 10
  {
    numerator.MultiplyWord(10);
    lower.MultiplyWord(10);
    if upper != lower { upper.MultiplyWord(10); }
  }

  // Between, for the candidate k with j digits after the first.
  predicate BetweenAt(k: int, j: nat, n0: int, d: int, l0: int, u0: int, withLower: bool, withUpper: bool) {
    Between(k, n0 * Pow(10, j), d, l0 * Pow(10, j), u0 * Pow(10, j), withLower, withUpper)
  }

  // c is no further from the exact value than k.
  predicate Nearer(c: int, k: int, j: nat, n0: int, d: int) {
    Abs(c * d - n0 * Pow(10, j)) <= Abs(k * d - n0 * Pow(10, j))
  }

  ghost predicate ClosestOfItsLength(c: int, j: nat, n0: int, d: int, l0: int, u0: int, withLower: bool, withUpper: bool) {
    forall k :: BetweenAt(k, j, n0, d, l0, u0, withLower, withUpper) ==> Nearer(c, k, j, n0, d)
  }

  ghost predicate NoneBetween(j: nat, n0: int, d: int, l0: int, u0: int, withLower: bool, withUpper: bool) {
    forall k :: !BetweenAt(k, j, n0, d, l0, u0, withLower, withUpper)
  }

  ghost predicate NoShorter(len: nat, n0: int, d: int, l0: int, u0: int, withLower: bool, withUpper: bool) {
    forall j: nat :: j < len ==> NoneBetween(j, n0, d, l0, u0, withLower, withUpper)
  }

  // The numbers at the start of a round: p is the power of ten for the digits written.
  predicate StepState(n0: int, l0: int, u0: int, v: int, m: int, p: int, n: int, l: int, u: int, even: bool) {
    && v > 0 && l > 0 && u > 0 && n >= 0 && l0 < n0 && p > 0
    && l == l0 * p && u == u0 * p
    && n + u + (if even then 1 else 0) <= 10 * v
    && n0 * p == m * (10 * v) + n
  }

  lemma NextState(n0: int, l0: int, u0: int, v: int, m: int, p: int, n: int, l: int, u: int, even: bool)
    requires StepState(n0, l0, u0, v, m, p, n, l, u, even)
    requires n % v + u + (if even then 1 else 0) <= v
    ensures StepState(n0, l0, u0, v, 10 * m + n / v, 10 * p, (n % v) * 10, l * 10, u * 10, even)
  {
    DigitExtends(n0, p, m, v, n);
    MulAssoc(l0, p, 10);
    MulAssoc(u0, p, 10);
  }

  lemma LastDigit(n0: int, l0: int, u0: int, v: int, m: int, j: nat, n: int, r: int, l: int, u: int,
                  even: bool, withLower: bool, digit: int, low: bool, high: bool, up: bool)
    requires StepState(n0, l0, u0, v, m, Pow(10, j), n, l, u, even)
    requires digit == n / v && r == n % v
    requires Tests(low, high, r, v, l, u, withLower, even)
    requires (low || high) && (!low ==> up) && (low && !high ==> !up)
    requires low && high ==> if up then 2 * r >= v else 2 * r <= v
    ensures var c := 10 * m + (if up then digit + 1 else digit);
            && BetweenAt(c, j, n0, v, l0, u0, withLower, even)
            && ClosestOfItsLength(c, j, n0, v, l0, u0, withLower, even)
  {
    DigitExtends(n0, Pow(10, j), m, v, n);
    ChosenNeighbour(n0 * Pow(10, j), v, 10 * m + digit, r, l, u, withLower, even, low, high, up);
    forall k | BetweenAt(k, j, n0, v, l0, u0, withLower, even)
      ensures Nearer(10 * m + (if up then digit + 1 else digit), k, j, n0, v)
    {
      assert Between(k, n0 * Pow(10, j), v, l, u, withLower, even);
    }
  }

  // A digit is raised only when raising it stays within the upper boundary, which a nine never
  // does: the round before would have ended already.
  lemma RaisedDigit(n: int, d: int, digit: int, r: int, u: int, even: bool)
    requires d > 0 && digit == n / d && r == n % d
    requires r + u >= d && (even || r + u > d)
    requires n + u + (if even then 1 else 0) <= 10 * d
    ensures digit <= 8
  {
    if digit >= 9 { MulMonotone(d, 9, digit); }
  }

  // The last digit: raised when only the upper test holds, rounded half to even when both do.
  method FinalDigit(numerator: Bigint, denominator: Bigint, digit: int, low: bool, high: bool,
                    ghost n0: int, ghost l0: int, ghost u0: int, ghost m: int, ghost j: nat, ghost n: int,
                    ghost l: int, ghost u: int, ghost even: bool, ghost withLower: bool)
    returns (last: nat)
    requires denominator.Normalized() && numerator.Num().ComparableTo(denominator.Num())
    requires StepState(n0, l0, u0, denominator.Value(), m, Pow(10, j), n, l, u, even)
    requires digit == n / denominator.Value() && numerator.Value() == n % denominator.Value()
    requires low || high
    requires Tests(low, high, numerator.Value(), denominator.Value(), l, u, withLower, even)
    ensures last <= 9
    ensures BetweenAt(10 * m + last, j, n0, denominator.Value(), l0, u0, withLower, even)
    ensures ClosestOfItsLength(10 * m + last, j, n0, denominator.Value(), l0, u0, withLower, even)
  {
    DigitExtends(n0, Pow(10, j), m, denominator.Value(), n);
    var up := false;
    if !low {
      up := true;
    } else if high {
      var result := Bigint.AddCompare(numerator, numerator, denominator);
      up := result > 0 || (result == 0 && digit % 2 != 0);
    }
    if up { RaisedDigit(n, denominator.Value(), digit, numerator.Value(), u, even); }
    LastDigit(n0, l0, u0, denominator.Value(), m, j, n, numerator.Value(), l, u, even, withLower, digit, low, high, up);
    last := if up then digit + 1 else digit;
  }

  // The operands after j digits with value m, with more digits still to come.
  ghost predicate Running(numerator: Stored, denominator: Stored, lower: Stored, upper: Stored, even: bool,
                          n0: int, l0: int, u0: int, e: nat, m: int, j: nat)
  {
    && Shape(numerator, denominator, lower, upper, e)
    && StepState(n0, l0, u0, denominator.Value(), m, Pow(10, j), numerator.Value(), lower.Value(), upper.Value(), even)
    && (numerator.exp <= denominator.exp || (numerator.exp == e && numerator.Value() == n0 * Pow(10, j)))
  }

  // One round of the loop: the last digit, or a digit after which everything is scaled by ten.
  method Round(numerator: Bigint, denominator: Bigint, lower: Bigint, upper: Bigint, even: bool,
               ghost n0: int, ghost l0: int, ghost u0: int, ghost m: int, ghost j: nat)
    returns (done: bool, digit: nat)
    requires numerator != denominator && numerator != lower && denominator != lower
    requires upper != numerator && upper != denominator
    requires Running(numerator.Num(), denominator.Num(), lower.Num(), upper.Num(), even, n0, l0, u0, lower.exp, m, j)
    requires !Misjudged(numerator.Num(), denominator.Num())
    modifies numerator, lower, upper
    ensures digit <= 9 && lower.exp == old(lower.exp)
    ensures var withLower := even && lower.exp <= denominator.exp;
            done ==> && BetweenAt(10 * m + digit, j, n0, denominator.Value(), l0, u0, withLower, even)
                     && ClosestOfItsLength(10 * m + digit, j, n0, denominator.Value(), l0, u0, withLower, even)
    ensures !done ==> Running(numerator.Num(), denominator.Num(), lower.Num(), upper.Num(), even, n0, l0, u0,
                              lower.exp, 10 * m + digit, j + 1)
    ensures !done ==> NoneBetween(j, n0, denominator.Value(), l0, u0, even && lower.exp <= denominator.exp, even)
    ensures !done ==> old(lower.Value()) < denominator.Value() && lower.Value() > old(lower.Value())
  {
    ghost var n, v, e := numerator.Value(), denominator.Value(), lower.exp;
    MulStrict(Pow(10, j), l0, n0);
    var q, low, high := DigitAndTests(numerator, denominator, lower, upper, even);
    ghost var r, l, u := numerator.Value(), lower.Value(), upper.Value();
    DigitExtends(n0, Pow(10, j), m, v, n);
    if low || high {
      done := true;
      digit := FinalDigit(numerator, denominator, q, low, high, n0, l0, u0, m, j, n, l, u, even, even && e <= denominator.exp);
      return;
    }
    done, digit := false, q;
    MoreDigits(n0, l0, u0, v, m, j, n, r, l, u, even, even && e <= denominator.exp);
    if numerator.exp > denominator.exp { MulAssoc(n0, Pow(10, j), 10); }
    TimesTen(numerator, lower, upper, denominator.Num());
  }

  lemma MoreDigits(n0: int, l0: int, u0: int, v: int, m: int, j: nat, n: int, r: int, l: int, u: int,
                   even: bool, withLower: bool)
    requires StepState(n0, l0, u0, v, m, Pow(10, j), n, l, u, even)
    requires r == n % v && Tests(false, false, r, v, l, u, withLower, even)
    ensures StepState(n0, l0, u0, v, 10 * m + n / v, Pow(10, j + 1), r * 10, l * 10, u * 10, even)
    ensures NoneBetween(j, n0, v, l0, u0, withLower, even)
  {
    DigitExtends(n0, Pow(10, j), m, v, n);
    NextState(n0, l0, u0, v, m, Pow(10, j), n, l, u, even);
    NothingBetween(n0 * Pow(10, j), v, 10 * m + n / v, r, l, u, withLower, even);
    forall k ensures !BetweenAt(k, j, n0, v, l0, u0, withLower, even) {
      assert !Between(k, n0 * Pow(10, j), v, l, u, withLower, even);
    }
  }

  // Digits until the decimal written so far, or its successor, lies between the boundaries.
  // The result lies between them, no shorter decimal does, and among those of its length that
  // do it is closest. For an even significand the upper boundary belongs to the interval, and
  // the lower one does if it is stored with no larger exponent than the denominator.
  method ShortestDigits(numerator: Bigint, denominator: Bigint, lower: Bigint, upper: Bigint,
                        even: bool, exp10: int)
    returns (buf: seq<nat>, exp': int)
    requires numerator != denominator && numerator != lower && denominator != lower
    requires upper != numerator && upper != denominator
    requires Shape(numerator.Num(), denominator.Num(), lower.Num(), upper.Num(), lower.exp)
    requires numerator.exp == lower.exp && lower.Value() < numerator.Value()
    requires numerator.Value() + upper.Value() + (if even then 1 else 0) <= 10 * denominator.Value()
    requires NeverMisjudged(numerator.Num(), denominator.Num())
    modifies numerator, lower, upper
    ensures buf != [] && IsDecimal(buf) && exp' == exp10 - (|buf| - 1)
    ensures var n0, d, l0, u0 := old(numerator.Value()), denominator.Value(), old(lower.Value()), old(upper.Value());
            var withLower := even && old(lower.exp) <= denominator.exp;
            && BetweenAt(Number(buf), |buf| - 1, n0, d, l0, u0, withLower, even)
            && ClosestOfItsLength(Number(buf), |buf| - 1, n0, d, l0, u0, withLower, even)
            && NoShorter(|buf| - 1, n0, d, l0, u0, withLower, even)
  {
    ghost var s, d := numerator.Num(), denominator.Num();
    ghost var n0, l0, u0, v, e := s.Value(), lower.Value(), upper.Value(), d.Value(), s.exp;
    ghost var withLower := even && lower.exp <= denominator.exp;
    FirstRound(s, d, lower.Num(), upper.Num(), even);
    buf := [];
    while true
      invariant IsDecimal(buf) && denominator.Num() == d && lower.exp == e
      invariant Running(numerator.Num(), d, lower.Num(), upper.Num(), even, n0, l0, u0, e, Number(buf), |buf|)
      invariant NoShorter(|buf|, n0, v, l0, u0, withLower, even)
      decreases v - lower.Value()
    {
      ghost var m := Number(buf);
      NotMisjudgedYet(s, d, numerator.Num(), |buf|);
      var done, digit := Round(numerator, denominator, lower, upper, even, n0, l0, u0, m, |buf|);
      NumberSnoc(buf, digit);
      buf := buf + [digit];
      if done { break; }
    }
    exp' := exp10 - (|buf| - 1);
  }

  lemma NotMisjudgedYet(s: Stored, d: Stored, numerator: Stored, j: nat)
    requires NeverMisjudged(s, d)
    requires numerator.exp <= d.exp || (numerator.exp == s.exp && numerator.Value() == s.Value() * Pow(10, j))
    ensures !Misjudged(numerator, d)
  {}

  lemma FirstRound(numerator: Stored, denominator: Stored, lower: Stored, upper: Stored, even: bool)
    requires Shape(numerator, denominator, lower, upper, numerator.exp)
    requires numerator.Value() + upper.Value() + (if even then 1 else 0) <= 10 * denominator.Value()
    requires lower.Value() < numerator.Value()
    ensures Running(numerator, denominator, lower, upper, even, numerator.Value(), lower.Value(), upper.Value(),
                    numerator.exp, 0, 0)
  {
    ValueBound(numerator.words, numerator.exp);
    ValueTop(denominator.words, denominator.exp);
    ValueTop(lower.words, lower.exp);
    ValueTop(upper.words, upper.exp);
    assert Pow(10, 0) == 1;
  }
}
