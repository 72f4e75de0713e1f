// Which decimal place a result is right to: rounding to a place, what is lost when a request
// for more places is cut short, and how many places and digits a double can have.

module Places {
  import opened Powers
  import opened Decimals
  import opened FallbackFormat

  // q / 10^j is within half a unit of its last place of n / d.
  predicate WithinHalf(q: int, n: int, j: nat, d: int) {
    2 * Abs(q * d - n * Pow(10, j)) <= d
  }

  // buf * 10^exp counted in units of 10^place.
  function Units(buf: seq<nat>, exp: int, place: int): nat
    requires buf == [] || exp >= place
  {
    if buf == [] then 0 else Number(buf) * Pow(10, exp - place)
  }

  // buf * 10^exp is a whole number of units of 10^(x - j), and within half such a unit of the
  // value n / d * 10^x.
  predicate Rounded(buf: seq<nat>, exp: int, x: int, j: int, n: int, d: int) {
    && (buf == [] || exp >= x - j)
    && WithinHalf(Units(buf, exp, x - j), n, Pos(j), d * Pow(10, Pos(-j)))
  }

  // ---- Asking for more places than are produced ----

  // The distance from a to the nearest multiple of d.
  function Off(a: nat, d: nat): nat
    requires d > 0
  {
    var r := a % d;
    if r <= d - r then r else d - r
  }

  lemma OffIsDistance(q: int, a: nat, d: nat)
    requires d > 0 && 2 * Abs(q * d - a) <= d
    ensures Abs(q * d - a) == Off(a, d)
  {
    var m, r := a / d, a % d;
    DivIdentity(a, d);
    Distribute(m, 1, d);
    Distribute(m, -1, d);
    Distribute(m, 2, d);
    if q < m { MulMonotone(d, q, m - 1); }
    if q > m + 1 { MulMonotone(d, m + 2, q); }
  }

  lemma {:induction false} UnitsFiner(buf: seq<nat>, exp: int, place: int, t: nat)
    requires buf == [] || exp >= place
    ensures Units(buf, exp, place - t) == Units(buf, exp, place) * Pow(10, t)
  {
    if buf != [] {
      PowAdd(10, exp - place, t);
      MulAssoc(Number(buf), Pow(10, exp - place), Pow(10, t));
    }
  }

  lemma ScaledDistance(q: int, a: int, d: int, t: nat)
    ensures (q * t) * d - a * t == (q * d - a) * t
    ensures Abs((q * t) * d - a * t) == Abs(q * d - a) * t
  {
    MulAssoc(q, t, d);
    MulAssoc(q, d, t);
    Distribute(q * d, -a, t);
    if q * d - a >= 0 { MulMonotone(t, 0, q * d - a); } else { MulMonotone(t, q * d - a, 0); }
    Distribute(q * d - a, a - q * d, t);
  }

  // A result that is right to one place is right t places further down exactly when the value
  // itself is that near to a decimal with the fewer places.
  lemma FinerPlace(buf: seq<nat>, exp: int, x: int, j: nat, t: nat, n: nat, d: nat)
    requires d > 0 && Rounded(buf, exp, x, j, n, d)
    ensures Rounded(buf, exp, x, j + t, n, d) <==> 2 * Off(n * Pow(10, j), d) * Pow(10, t) <= d
  {
    var q, a := Units(buf, exp, x - j), n * Pow(10, j);
    assert Pow(10, 0) == 1;
    MulMonotone(n, 0, Pow(10, j));
    OffIsDistance(q, a, d);
    UnitsFiner(buf, exp, x - j, t);
    PowAdd(10, j, t);
    MulAssoc(n, Pow(10, j), Pow(10, t));
    ScaledDistance(q, a, d, Pow(10, t));
    MulAssoc(2, Off(a, d), Pow(10, t));
  }

  // A request for no digit, answered one place too high, is right to one digit only for a
  // value that rounds up to ten.
  lemma PlaceAbove(buf: seq<nat>, exp: int, x: int, n: nat, d: nat)
    requires d > 0 && d < 2 * n && n < 10 * d && Rounded(buf, exp, x, -1, n, d)
    ensures Rounded(buf, exp, x, 0, n, d) <==> 19 * d <= 2 * n
  {
    var q := Units(buf, exp, x + 1);
    assert Pow(10, 0) == 1 && Pow(10, 1) == 10;
    UnitsFiner(buf, exp, x + 1, 1);
    assert 2 * Abs(q * (d * 10) - n) <= d * 10;
    MulAssoc(q, 10, d);
    MulAssoc(q, d, 10);
    if q >= 2 { MulMonotone(d, 2, q); }
  }

  // ---- How many places a value has ----

  // A place with as many decimals as the binary point has moved holds the value exactly.
  lemma WholeAt(f: nat, e: int, shift: nat, x: int, j: nat) returns (k: nat)
    requires j >= x + Pos(-e)
    ensures NumeratorOf(f, e, shift, x) * Pow(10, j) == k * DenominatorOf(e, shift, x)
  {
    var p, b, z: nat := Pos(x), Pos(-e), j - x - Pos(-e);
    k := (f * Pow(2, Pos(e))) * (Pow(5, b) * Pow(10, z));
    PowAdd(10, Pos(-x), j);
    PowAdd(10, p, b + z);
    PowAdd(10, b, z);
    PowMul(2, 5, b);
    PowAdd(2, shift, b);
    Regroup(f, Pow(2, shift), Pow(2, Pos(e)), Pow(10, Pos(-x)), Pow(10, j), Pow(10, p), Pow(2, b), Pow(5, b), Pow(10, z));
  }

  lemma Regroup(f: int, s: int, l: int, y: int, j: int, p: int, b: int, g: int, z: int)
    requires y * j == p * ((b * g) * z)
    ensures ((f * s) * (l * y)) * j == ((f * l) * (g * z)) * (p * (s * b))
  {
    calc {
      ((f * s) * (l * y)) * j;
      { Commute4(f * s, l, y, j); }
      ((f * s) * l) * (y * j);
      ((f * s) * l) * (p * ((b * g) * z));
      { Swap3(f, s, l); }
      ((f * l) * s) * (p * ((b * g) * z));
      { Swap4(p, b, g, z); }
      ((f * l) * s) * ((g * z) * (p * b));
      { Commute4(f * l, s, g * z, p * b); Commute4(f * l, g * z, s, p * b); Swap3(f * l, s, g * z); }
      ((f * l) * (g * z)) * (s * (p * b));
      { MulAssoc(s, p, b); MulAssoc(p, s, b); }
      ((f * l) * (g * z)) * (p * (s * b));
    }
  }

  lemma Commute4(a: int, b: int, c: int, d: int)
    ensures (a * (b * c)) * d == (a * b) * (c * d)
  {
    MulAssoc(a, b, c);
    MulAssoc(a * b, c, d);
  }

  lemma Swap4(p: int, b: int, g: int, z: int)
    ensures p * ((b * g) * z) == (g * z) * (p * b)
  {
    MulAssoc(b, g, z);
    MulAssoc(p, b, g * z);
  }

  // Cross-multiplied: the value f * 2^e / 10^x times 10^j is the integer k.
  lemma WholeWhen(f: nat, e: int, shift: nat, x: int, j: nat, k: nat)
    ensures NumeratorOf(f, e, shift, x) * Pow(10, j) == k * DenominatorOf(e, shift, x)
            <==> (f * LowerOf(e, x)) * Pow(10, j) == k * (Pow(10, Pos(x)) * Pow(2, Pos(-e)))
  {
    var n, d, l, w := NumeratorOf(f, e, shift, x), DenominatorOf(e, shift, x), LowerOf(e, x), Pow(10, Pos(x)) * Pow(2, Pos(-e));
    RatioIsValue(f, e, shift, x);
    DenominatorPositive(e, shift, x);
    WeightPositive(x, e);
    MulAssoc(f, l, d);
    assert n * w == (f * l) * d;
    CrossMultiply(n, d, f * l, w, Pow(10, j), k);
  }

  lemma WeightPositive(x: int, e: int)
    ensures Pow(10, Pos(x)) * Pow(2, Pos(-e)) > 0
  {
    PowPositive(10, Pos(x));
    PowPositive(2, Pos(-e));
    MulPositive(Pow(10, Pos(x)), Pow(2, Pos(-e)));
  }

  lemma CrossMultiply(n: nat, d: nat, v: nat, w: nat, t: nat, k: nat)
    requires d > 0 && w > 0 && n * w == v * d
    ensures n * t == k * d <==> v * t == k * w
  {
    Swap3(n, w, t);
    Swap3(v, d, t);
    Swap3(k, d, w);
    if n * t == k * d { CancelEqual(d, v * t, k * w); }
    if v * t == k * w { CancelEqual(w, n * t, k * d); }
  }

  // ---- Powers of two, five and ten ----

  lemma {:induction false} FivesBelowTwos(k: nat, r: nat, s: nat)
    requires Pow(5, r) < Pow(2, s)
    ensures Pow(5, 59 * k + r) < Pow(2, 137 * k + s)
  {
    if k > 0 {
      FivesBelowTwos(k - 1, r, s);
      FiveToThe59(59, 137);
      PowAdd(5, 59, 59 * (k - 1) + r);
      PowAdd(2, 137, 137 * (k - 1) + s);
      PowPositive(5, 59 * (k - 1) + r);
      ProductLess(Pow(5, 59), Pow(2, 137), Pow(5, 59 * (k - 1) + r), Pow(2, 137 * (k - 1) + s));
    }
  }

  lemma ProductLess(a: nat, b: nat, c: nat, d: nat)
    requires 0 < a <= b && c < d
    ensures a * c < b * d
  {
    MulStrict(a, c, d);
    MulMonotone(d, a, b);
  }

  lemma FiveToThe14()
    ensures Pow(5, 1) == 5 && Pow(5, 12) == 244140625 && Pow(5, 14) == 6103515625
  {
    assert Pow(5, 0) == 1 && Pow(5, 2) == 25 && Pow(5, 6) == 15625;
    PowAdd(5, 6, 6);
    PowAdd(5, 12, 2);
  }

  lemma FiveToThe59(n: nat, m: nat)
    requires n == 59 && m == 137
    ensures 0 < Pow(5, n) < Pow(2, m)
  {
    FiveToThe30(n - 29, n - 30);
    PowAdd(5, n - 29, n - 30);
    TwoToThe60();
    TwoToThe17(m - 120);
    PowAdd(2, 60, m - 77);
    PowAdd(2, m - 17, m - 120);
  }

  lemma FiveToThe30(n: nat, m: nat)
    requires n == 30 && m == 29
    ensures Pow(5, n) == 931322574615478515625 && Pow(5, m) == 186264514923095703125
  {
    FiveToThe14();
    PowAdd(5, n - 16, n - 16);
    PowAdd(5, m - 1, 1);
    PowAdd(5, m, 1);
  }

  lemma TwoToThe17(n: nat)
    requires n == 17
    ensures Pow(2, n) == 0x2_0000
  {
    assert Pow(2, 0) == 1 && Pow(2, 5) == 32 && Pow(2, 6) == 64;
    PowAdd(2, 5, 6);
    PowAdd(2, 11, 6);
  }

  lemma {:induction false} TwosBelowFives(k: nat, r: nat, s: nat)
    requires Pow(2, s) < Pow(5, r)
    ensures Pow(2, 65 * k + s) < Pow(5, 28 * k + r)
  {
    if k > 0 {
      TwosBelowFives(k - 1, r, s);
      FiveToThe28();
      PowAdd(5, 28, 28 * (k - 1) + r);
      PowAdd(2, 65, 65 * (k - 1) + s);
      ProductLess(Pow(2, 65), Pow(5, 28), Pow(2, 65 * (k - 1) + s), Pow(5, 28 * (k - 1) + r));
    }
  }

  lemma FiveToThe28()
    ensures 0 < Pow(2, 65) < Pow(5, 28) < Pow(2, 66)
  {
    FiveToThe14();
    PowAdd(5, 14, 14);
    TwoToThe60();
    assert Pow(2, 5) == 32 && Pow(2, 6) == 64;
    PowAdd(2, 60, 5);
    PowAdd(2, 60, 6);
  }

  lemma EightsBelowTens(n: nat)
    ensures Pow(2, 3 * n) <= Pow(10, n)
  {
    assert Pow(2, 3) == 8;
    PowPow(2, 3, n);
    PowBelow(8, 10, n);
  }

  lemma PowReflects(b: nat, m: nat, n: nat)
    requires b > 0 && Pow(b, m) < Pow(b, n)
    ensures m < n
  {
    if m >= n { PowMonotone(b, n, m); }
  }

  // ---- How large a double can be, in decimal ----

  const MAX_DOUBLE_DIGITS := 767

  // The range of an IEEE 754 double f * 2^e.
  predicate IsDouble(f: nat, e: int) {
    0 < f < 0x20_0000_0000_0000 && -1074 <= e <= 971
  }

  lemma ValueSpan(f: nat, e: int, shift: nat, x: int)
    ensures var n, d := NumeratorOf(f, e, shift, x), DenominatorOf(e, shift, x);
            var v, w := f * LowerOf(e, x), Pow(10, Pos(x)) * Pow(2, Pos(-e));
            (d < 2 * n ==> w < 2 * v) && (n < 10 * d ==> v < 10 * w)
  {
    var n, d := NumeratorOf(f, e, shift, x), DenominatorOf(e, shift, x);
    var v, w := f * LowerOf(e, x), Pow(10, Pos(x)) * Pow(2, Pos(-e));
    RatioIsValue(f, e, shift, x);
    DenominatorPositive(e, shift, x);
    WeightPositive(x, e);
    MulAssoc(f, LowerOf(e, x), d);
    SpanFromRatio(n, d, v, w);
  }

  lemma SpanFromRatio(n: nat, d: nat, v: nat, w: nat)
    requires d > 0 && w > 0 && n * w == v * d
    ensures (d < 2 * n ==> w < 2 * v) && (n < 10 * d ==> v < 10 * w)
  {
    MulAssoc(2, n, w);
    MulAssoc(2, v, d);
    MulAssoc(10, d, w);
    MulAssoc(10, w, d);
    if d < 2 * n {
      MulStrict(w, d, 2 * n);
      CancelLess(d, w, 2 * v);
    }
    if n < 10 * d {
      MulStrict(w, n, 10 * d);
      CancelLess(d, v, 10 * w);
    }
  }

  // 2^54 * 5^1074 stays below 10^767: this is where the 767 comes from.
  lemma LongestDouble(f: nat, b: nat, digits: nat, k: nat)
    requires f < 0x20_0000_0000_0000 && b <= 1074 && digits == 767 && k == 5
    ensures 2 * f * Pow(5, b) < Pow(10, digits)
  {
    FiveToThe14();
    Two54();
    FivesBelowTwos(k, 12, 28);
    PowAdd(5, 59 * k + 12, digits);
    PowAdd(2, 54, 137 * k + 28);
    PowMul(2, 5, digits);
    PowMonotone(5, b, 59 * k + 12 + digits);
    PowPositive(5, b);
    PowPositive(5, digits);
    LongestProduct(f, Pow(5, b), Pow(5, 59 * k + 12), Pow(2, 137 * k + 28), Pow(5, digits), Pow(2, 54));
  }

  lemma Two54()
    ensures Pow(2, 28) == 0x1000_0000 && Pow(2, 54) == 0x40_0000_0000_0000
  {
    assert Pow(2, 0) == 1 && Pow(2, 7) == 128 && Pow(2, 6) == 64;
    PowAdd(2, 7, 7);
    PowAdd(2, 14, 14);
    PowAdd(2, 7, 6);
    PowAdd(2, 13, 13);
    PowAdd(2, 28, 26);
  }

  lemma LongestProduct(f: nat, g: nat, a: nat, b: nat, c: nat, t: nat)
    requires 2 * f < t && 0 < g <= a * c && a < b && c > 0
    ensures 2 * f * g < (t * b) * c
  {
    MulStrict(g, 2 * f, t);
    MulMonotone(t, g, a * c);
    MulStrict(c, a, b);
    MulMonotone(t, a * c, b * c);
    MulAssoc(t, b, c);
  }

  // Where the last decimal of a double stands, counted from its leading digit: a double has at
  // most 767 significant digits, so a request for more is not cut short.
  lemma AtMost767Digits(f: nat, e: int, shift: nat, x: int)
    requires IsDouble(f, e)
    requires DenominatorOf(e, shift, x) < 2 * NumeratorOf(f, e, shift, x)
    ensures x + Pos(-e) <= 766
  {
    ValueSpan(f, e, shift, x);
    if e < 0 { EndOfFraction(f, -e, x, 767); } else { EndOfInteger(f, e, x, 342); }
  }

  lemma EndOfFraction(f: nat, b: nat, x: int, digits: nat)
    requires f < 0x20_0000_0000_0000 && b <= 1074 && digits == 767
    requires Pow(10, Pos(x)) * Pow(2, b) < 2 * (f * (Pow(2, 0) * Pow(10, Pos(-x))))
    ensures x + b < digits
  {
    var p, y: nat := Pos(x), Pos(-x);
    assert Pow(2, 0) == 1;
    LongestDouble(f, b, digits, 5);
    PowMul(2, 5, b);
    PowAdd(10, p, b);
    PowAdd(10, digits, y);
    PowPositive(5, b);
    PowPositive(10, y);
    FractionSpan(f, Pow(10, p), Pow(2, b), Pow(5, b), Pow(10, y), Pow(10, digits));
    PowReflects(10, p + b, digits + y);
  }

  lemma EndOfInteger(f: nat, e: nat, x: int, digits: nat)
    requires f < 0x20_0000_0000_0000 && e <= 971 && digits == 342
    requires Pow(10, Pos(x)) * Pow(2, 0) < 2 * (f * (Pow(2, e) * Pow(10, Pos(-x))))
    ensures x < digits
  {
    var p, y: nat := Pos(x), Pos(-x);
    assert Pow(2, 0) == 1;
    Two54();
    PowAdd(2, 54, e);
    PowMonotone(2, 54 + e, 3 * digits);
    EightsBelowTens(digits);
    PowAdd(10, digits, y);
    PowPositive(2, e);
    PowPositive(10, y);
    IntegerSpan(f, Pow(10, p), Pow(2, e), Pow(10, y), Pow(2, 54), Pow(10, digits));
    PowReflects(10, p, digits + y);
  }

  lemma FractionSpan(f: nat, p: nat, b: nat, g: nat, y: nat, top: nat)
    requires p * b < 2 * (f * (1 * y)) && 2 * f * g < top && g > 0 && y > 0
    ensures p * (b * g) < top * y
  {
    MulAssoc(2, f, y);
    MulStrict(g, p * b, (2 * f) * y);
    MulAssoc(p, b, g);
    Swap3(2 * f, y, g);
    MulStrict(y, (2 * f) * g, top);
  }

  lemma IntegerSpan(f: nat, p: nat, q: nat, y: nat, t: nat, top: nat)
    requires p * 1 < 2 * (f * (q * y)) && 2 * f < t && t * q <= top && q > 0 && y > 0
    ensures p < top * y
  {
    MulAssoc(f, q, y);
    MulAssoc(2, f * q, y);
    MulAssoc(2, f, q);
    MulStrict(q, 2 * f, t);
    MulStrict(y, (2 * f) * q, t * q);
    MulMonotone(y, t * q, top);
  }

  // A double is not so small that its leading digit stands below the last place kept.
  lemma LeadingDigitIsKept(f: nat, e: int, shift: nat, x: int)
    requires IsDouble(f, e)
    requires NumeratorOf(f, e, shift, x) < 10 * DenominatorOf(e, shift, x)
    ensures x > -400
  {
    if x <= -400 {
      var y: nat := -x;
      ValueSpan(f, e, shift, x);
      assert Pow(10, 0) == 1;
      PowPositive(2, Pos(e));
      PowPositive(10, y);
      PowMonotone(2, Pos(-e), 3 * 358);
      EightsBelowTens(358);
      SmallSpan(f, Pow(2, Pos(e)), Pow(10, y), Pow(2, Pos(-e)), Pow(10, 358));
      PowAdd(10, 1, 358);
      assert Pow(10, 1) == 10;
      PowReflects(10, y, 359);
    }
  }

  lemma SmallSpan(f: nat, q: nat, y: nat, b: nat, top: nat)
    requires f * (q * y) < 10 * (1 * b) && b <= top && f > 0 && q > 0 && y > 0
    ensures y < 10 * top
  {
    MulAssoc(f, q, y);
    MulMonotone(q, 1, f);
    MulMonotone(y, 1, f * q);
  }

  // ---- Which values have no more decimals than are kept ----

  // At most 767 decimals: the binary point has not moved further, not counting factors of two
  // in the significand.
  predicate DecimalsFit(f: nat, e: int) {
    var u := Pow(2, Pos(-e - MAX_DOUBLE_DIGITS));
    u > 0 && f % u == 0
  }

  lemma {:induction false} OddFactor(a: nat, o: nat, t: nat, k: nat) returns (c: nat)
    requires o % 2 == 1 && a * o == k * Pow(2, t)
    ensures a == c * Pow(2, t)
  {
    if t == 0 {
      assert Pow(2, 0) == 1;
      return a;
    }
    var r := Pow(2, t - 1);
    MulAssoc(k, 2, r);
    MulAssoc(2, k, r);
    var b := HalfOfProduct(a, o, k * r);
    c := OddFactor(b, o, t - 1, k);
    MulAssoc(c, 2, r);
    MulAssoc(2, c, r);
  }

  lemma HalfOfProduct(a: nat, o: nat, h: nat) returns (b: nat)
    requires o % 2 == 1 && a * o == 2 * h
    ensures a == 2 * b && b * o == h
  {
    var i := o / 2;
    b := a / 2;
    assert o == 2 * i + 1;
    MulAssoc(a, 2, i);
    MulAssoc(2, a, i);
    assert a * o == 2 * (a * i) + a;
    MulAssoc(2, b, o);
  }

  // The value with 767 decimals, as an integer over a power of two.
  lemma KeptDecimals(f: nat, e: int, x: int, t: nat, k: nat)
    requires x >= -767 && -e == 767 + t
    ensures (f * LowerOf(e, x)) * Pow(10, 767 + x) == k * (Pow(10, Pos(x)) * Pow(2, Pos(-e)))
            <==> f * Pow(5, 767) == k * Pow(2, t)
  {
    var p, y, a: nat := Pos(x), Pos(-x), 767 + x;
    assert Pow(2, 0) == 1;
    PowAdd(10, y, a);
    PowAdd(10, p, 767);
    PowAdd(2, t, 767);
    PowMul(5, 2, 767);
    PowPositive(10, p);
    PowPositive(2, 767);
    KeptProduct(f, k, Pow(10, y), Pow(10, a), Pow(10, p), Pow(2, t), Pow(2, 767), Pow(5, 767));
  }

  lemma KeptProduct(f: nat, k: nat, y: nat, a: nat, p: nat, t: nat, b: nat, g: nat)
    requires y * a == p * (g * b) && p > 0 && b > 0
    ensures (f * (1 * y)) * a == k * (p * (t * b)) <==> f * g == k * t
  {
    MulAssoc(f, y, a);
    MulAssoc(f, p, g * b);
    Swap3(f, p, g * b);
    MulAssoc(f, g, b);
    MulAssoc(k, p, t * b);
    Swap3(k, p, t * b);
    MulAssoc(k, t, b);
    if ((f * g) * b) * p == ((k * t) * b) * p {
      CancelEqual(p, (f * g) * b, (k * t) * b);
      CancelEqual(b, f * g, k * t);
    }
  }

  // The distance from the nearest decimal that is kept is zero exactly for those values.
  lemma FitIsExact(f: nat, e: int, shift: nat, x: int)
    requires x >= -767
    ensures DenominatorOf(e, shift, x) > 0
    ensures DecimalsFit(f, e) <==> Off(NumeratorOf(f, e, shift, x) * Pow(10, 767 + x), DenominatorOf(e, shift, x)) == 0
  {
    var n, d, a := NumeratorOf(f, e, shift, x), DenominatorOf(e, shift, x), 767 + x;
    var t: nat := Pos(-e - 767);
    DenominatorPositive(e, shift, x);
    PowPositive(2, t);
    if t == 0 {
      var k := WholeAt(f, e, shift, x, a);
      OffZero(n * Pow(10, a), d, k);
      assert Pow(2, 0) == 1;
    } else {
      if DecimalsFit(f, e) {
        var h := f / Pow(2, t);
        DivIdentity(f, Pow(2, t));
        Swap3(h, Pow(2, t), Pow(5, 767));
        KeptDecimals(f, e, x, t, h * Pow(5, 767));
        WholeWhen(f, e, shift, x, a, h * Pow(5, 767));
        OffZero(n * Pow(10, a), d, h * Pow(5, 767));
      }
      if Off(n * Pow(10, a), d) == 0 {
        var k := ZeroOff(n * Pow(10, a), d);
        WholeWhen(f, e, shift, x, a, k);
        KeptDecimals(f, e, x, t, k);
        FivePowerIsOdd(767);
        var c := OddFactor(f, Pow(5, 767), t, k);
        DivModUnique(f, Pow(2, t), c, 0);
      }
    }
  }

  lemma OffZero(a: nat, d: nat, k: int)
    requires d > 0 && a == k * d
    ensures Off(a, d) == 0
  {
    DivModUnique(a, d, k, 0);
  }

  lemma ZeroOff(a: nat, d: nat) returns (k: nat)
    requires d > 0 && Off(a, d) == 0
    ensures a == k * d
  {
    k := a / d;
    DivIdentity(a, d);
    if k < 0 { MulMonotone(d, k, -1); }
  }

  // ---- When cutting a request for decimals to 767 loses nothing ----

  // The caller asks for so many decimals, and 767 of them hold the value as nearly as asked.
  predicate ClampHarmless(precision: nat, x: int, n: nat, d: nat)
    requires d > 0
  {
    precision <= MAX_DOUBLE_DIGITS
    || 2 * Off(n * Pow(10, Pos(MAX_DOUBLE_DIGITS + x)), d) * Pow(10, precision - MAX_DOUBLE_DIGITS) <= d
  }

  lemma FitIsHarmless(f: nat, e: int, shift: nat, x: int, precision: nat)
    requires x >= -767 && DecimalsFit(f, e)
    ensures DenominatorOf(e, shift, x) > 0
    ensures ClampHarmless(precision, x, NumeratorOf(f, e, shift, x), DenominatorOf(e, shift, x))
  {
    FitIsExact(f, e, shift, x);
  }

  // A double with more decimals is off by at least one in its last binary place, of which
  // there are at most 307 below the last decimal kept.
  lemma OffByABinaryPlace(f: nat, e: int, shift: nat, x: int, t: nat)
    requires x >= -767 && -e == 767 + t && !DecimalsFit(f, e)
    ensures DenominatorOf(e, shift, x) > 0
    ensures Off(NumeratorOf(f, e, shift, x) * Pow(10, 767 + x), DenominatorOf(e, shift, x)) * Pow(2, t)
            >= DenominatorOf(e, shift, x)
  {
    var n, d, a: nat := NumeratorOf(f, e, shift, x), DenominatorOf(e, shift, x), 767 + x;
    var v, w := f * LowerOf(e, x), Pow(10, Pos(x)) * Pow(2, Pos(-e));
    FitIsExact(f, e, shift, x);
    RatioIsValue(f, e, shift, x);
    WeightPositive(x, e);
    PowPositive(2, t);
    MulAssoc(f, LowerOf(e, x), d);
    ScaledUp(f, e, x, t);
    MultipleOfBoth(n, d, v, w, Pow(10, a), Pow(2, t), f * Pow(5, 767));
  }

  lemma MultipleOfBoth(n: nat, d: nat, v: nat, w: nat, c: nat, u: nat, k: nat)
    requires d > 0 && w > 0 && u > 0 && n * w == v * d && v * (c * u) == k * w
    requires Off(n * c, d) != 0
    ensures Off(n * c, d) * u >= d
  {
    CrossMultiply(n, d, v, w, c * u, k);
    MulAssoc(n, c, u);
    MultipleOff(n * c, d, u, k);
  }

  lemma ScaledUp(f: nat, e: int, x: int, t: nat)
    requires x >= -767 && -e == 767 + t
    ensures (f * LowerOf(e, x)) * (Pow(10, 767 + x) * Pow(2, t))
            == (f * Pow(5, 767)) * (Pow(10, Pos(x)) * Pow(2, Pos(-e)))
  {
    var p, y, a: nat := Pos(x), Pos(-x), 767 + x;
    assert Pow(2, 0) == 1;
    PowAdd(10, y, a);
    PowAdd(10, p, 767);
    PowAdd(2, t, 767);
    PowMul(5, 2, 767);
    ScaledUpProduct(f, Pow(10, y), Pow(10, a), Pow(10, p), Pow(2, t), Pow(2, 767), Pow(5, 767));
  }

  lemma ScaledUpProduct(f: int, y: int, a: int, p: int, t: int, b: int, g: int)
    requires y * a == p * (g * b)
    ensures (f * (1 * y)) * (a * t) == (f * g) * (p * (t * b))
  {
    Commute4(f, y, a, t);
    MulAssoc(f, y, a * t);
    MulAssoc(y, a, t);
    MulAssoc(p, g * b, t);
    MulAssoc(g, b, t);
    MulAssoc(p, g, b * t);
    MulAssoc(g, p, b * t);
    MulAssoc(f, g, p * (b * t));
  }

  lemma MultipleOff(a: nat, d: nat, u: nat, k: nat)
    requires d > 0 && u > 0 && a * u == k * d && Off(a, d) != 0
    ensures Off(a, d) * u >= d
  {
    var m, r := a / d, a % d;
    DivIdentity(a, d);
    Distribute(m * d, r, u);
    Swap3(m, d, u);
    Distribute(k, -(m * u), d);
    assert r * u == (k - m * u) * d;
    Distribute(d, -r, u);
    Distribute(u, -(k - m * u), d);
    assert (d - r) * u == (u - (k - m * u)) * d;
    MulPositive(r, u);
    MulPositive(d - r, u);
    AtLeastOneTimes(k - m * u, d);
    AtLeastOneTimes(u - (k - m * u), d);
  }

  lemma AtLeastOneTimes(c: int, d: nat)
    requires c * d > 0
    ensures c * d >= d
  {
    if c <= 0 { MulMonotone(d, c, 0); }
    MulMonotone(d, 1, c);
  }

  // From 870 decimals on the request is met exactly by those doubles that have at most 767,
  // so those are also the ones for which every request is met.
  lemma ClampExactly(f: nat, e: int, shift: nat, x: int, precision: nat)
    requires IsDouble(f, e) && x >= -767 && precision >= 870
    ensures DenominatorOf(e, shift, x) > 0
    ensures ClampHarmless(precision, x, NumeratorOf(f, e, shift, x), DenominatorOf(e, shift, x)) <==> DecimalsFit(f, e)
  {
    var n, d := NumeratorOf(f, e, shift, x), DenominatorOf(e, shift, x);
    if DecimalsFit(f, e) {
      FitIsHarmless(f, e, shift, x, precision);
    } else {
      FitIsExact(f, e, shift, x);
      var t: nat := Pos(-e - 767);
      if t == 0 { assert Pow(2, 0) == 1; }
      OffByABinaryPlace(f, e, shift, x, t);
      var more: nat := precision - 767;
      EightsBelowTens(more);
      PowMonotone(2, t, 3 * more);
      var off := Off(n * Pow(10, 767 + x), d);
      MulMonotone(off, Pow(2, t), Pow(10, more));
      MulAssoc(2, off, Pow(10, more));
    }
  }

  // The smallest double has 1074 decimals; a thousand of them are asked for in vain.
  lemma SmallestDoubleIsCutShort(shift: nat)
    ensures IsDouble(1, -1074) && !DecimalsFit(1, -1074)
    ensures DenominatorOf(-1074, shift, -324) > 0
    ensures !ClampHarmless(1000, -324, NumeratorOf(1, -1074, shift, -324), DenominatorOf(-1074, shift, -324))
  {
    var t: nat := 307;
    PowMonotone(2, 1, t);
    assert Pow(2, 0) == 1 && Pow(2, 1) == 2 * Pow(2, 0);
    DivModUnique(1, Pow(2, t), 0, 1);
    ClampExactly(1, -1074, shift, -324, 1000);
  }
}
