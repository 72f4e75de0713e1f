// Integer powers and the few facts about products that the arithmetic modules share.

module Powers {

  function Pow(b: nat, n: nat): nat {
    if n == 0 then 1 else b * Pow(b, n - 1)
  }

  lemma {:induction false} PowPositive(b: nat, n: nat)
    requires b > 0
    ensures Pow(b, n) > 0
  {
    if n > 0 {
      PowPositive(b, n - 1);
      MulPositive(b, Pow(b, n - 1));
    }
  }

  lemma {:induction false} PowAdd(b: nat, m: nat, n: nat)
    ensures Pow(b, m + n) == Pow(b, m) * Pow(b, n)
  {
    if m > 0 {
      PowAdd(b, m - 1, n);
      MulAssoc(b, Pow(b, m - 1), Pow(b, n));
    }
  }

  lemma {:induction false} PowMul(a: nat, b: nat, n: nat)
    ensures Pow(a * b, n) == Pow(a, n) * Pow(b, n)
  {
    if n > 0 {
      PowMul(a, b, n - 1);
      var x, y := Pow(a, n - 1), Pow(b, n - 1);
      calc {
        (a * b) * (x * y);
        { MulAssoc(a, b, x * y); MulAssoc(b, x, y); MulAssoc(x, b, y); }
        a * (x * (b * y));
        { MulAssoc(a, x, b * y); }
        (a * x) * (b * y);
      }
    }
  }

  lemma {:induction false} PowPow(b: nat, m: nat, n: nat)
    ensures Pow(Pow(b, m), n) == Pow(b, m * n)
  {
    if n == 0 {
      assert m * n == 0;
    } else {
      PowPow(b, m, n - 1);
      PowAdd(b, m, m * (n - 1));
      assert m + m * (n - 1) == m * n;
    }
  }

  lemma {:induction false} PowMonotone(b: nat, m: nat, n: nat)
    requires b > 0 && m <= n
    ensures Pow(b, m) <= Pow(b, n)
  {
    PowAdd(b, m, n - m);
    PowPositive(b, n - m);
    PowPositive(b, m);
    MulMonotone(Pow(b, m), 1, Pow(b, n - m));
  }

  lemma MulPositive(a: int, b: int)
    requires a > 0 && b > 0
    ensures a * b > 0
  {}

  lemma MulAssoc(a: int, b: int, c: int)
    ensures a * (b * c) == (a * b) * c
  {}

  lemma Swap3(a: int, b: int, c: int)
    ensures (a * b) * c == (a * c) * b
  {
    MulAssoc(a, b, c);
    MulAssoc(a, c, b);
  }

  lemma Distribute(a: int, b: int, c: int)
    ensures (a + b) * c == a * c + b * c
  {}

  lemma MulMonotone(c: int, a: int, b: int)
    requires 0 <= c && a <= b
    ensures c * a <= c * b && a * c <= b * c
  {}

  lemma MulStrict(c: int, a: int, b: int)
    requires 0 < c && a < b
    ensures c * a < c * b && a * c < b * c
  {}

  // A factor that is common to both sides may be dropped from a comparison.
  lemma CancelLess(c: int, a: int, b: int)
    requires c > 0 && a * c < b * c
    ensures a < b
  {
    if b <= a { MulMonotone(c, b, a); }
  }

  // Quotient and remainder are determined by the division equation.
  lemma DivModUnique(x: int, d: int, q: int, r: int)
    requires d > 0 && 0 <= r < d && x == q * d + r
    ensures x / d == q && x % d == r
  {
    var q', r' := x / d, x % d;
    Distribute(q, -q', d);
    if q < q' { MulMonotone(d, q - q', -1); }
    if q' < q { MulMonotone(d, 1, q - q'); }
  }

  predicate IsPowerOfTwo(n: nat) {
    n == 1 || (n > 1 && n % 2 == 0 && IsPowerOfTwo(n / 2))
  }

  lemma QuotientAtMost(n: nat, d: nat)
    requires d > 0
    ensures 0 <= n / d <= n
  {
    if n / d > n { MulMonotone(n / d, 1, d); }
  }

  lemma TwiceHalf(n: nat, b: nat)
    requires b > 0
    ensures n / b == 2 * (n / (2 * b)) + (n / b) % 2
  {
    var q, r := n / b, n % b;
    var h, l := q / 2, q % 2;
    assert q * b == h * (2 * b) + l * b;
    MulMonotone(b, l, 1);
    DivModUnique(n, 2 * b, h, l * b + r);
  }

  lemma {:induction false} PowBelow(a: nat, b: nat, n: nat)
    requires a <= b
    ensures Pow(a, n) <= Pow(b, n)
  {
    if n > 0 {
      PowBelow(a, b, n - 1);
      MulMonotone(a, Pow(a, n - 1), Pow(b, n - 1));
      MulMonotone(Pow(b, n - 1), a, b);
    }
  }

  lemma DivIdentity(x: int, d: int)
    requires d > 0
    ensures x == (x / d) * d + x % d && 0 <= x % d < d
  {}

  lemma QuotientLess(x: int, d: int, b: int)
    requires d > 0 && x < b * d
    ensures x / d < b
  {
    DivIdentity(x, d);
    if x / d >= b { MulMonotone(d, b, x / d); }
  }

  lemma TwoToThe32()
    ensures Pow(2, 32) == 0x1_0000_0000
  {
    assert Pow(2, 8) == 256;
    PowAdd(2, 8, 8);
    PowAdd(2, 16, 16);
  }

  lemma TwoToThe60()
    ensures Pow(2, 60) == 0x1000_0000_0000_0000
  {
    assert Pow(2, 15) == 32768;
    PowAdd(2, 15, 15);
    PowAdd(2, 30, 30);
  }

  // A position that runs past the end of a circular store comes back to its beginning.
  function Wrap(p: int, size: int): int {
    if p < size then p else p - size
  }

  lemma WrapIsMod(p: int, size: int)
    requires 0 < size && 0 <= p < 2 * size
    ensures p % size == Wrap(p, size)
  {
    if p < size { DivModUnique(p, size, 0, p); } else { DivModUnique(p, size, 1, p - size); }
  }
}
