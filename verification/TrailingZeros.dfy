// Divisibility by powers of five through multiplication by a modular inverse, and the removal
// of trailing decimal zeros built on it.

module TrailingZeros {
  import opened Machine
  import opened Powers

  // For any word base m: multiplying by the inverse of d lands at or below the largest
  // possible quotient exactly for the multiples of d, and then it is the quotient.
  lemma InverseDividesExactly(x: nat, d: nat, inverse: nat, m: nat)
    requires 0 < d && x < m && (d * inverse) % m == 1
    ensures (x * inverse) % m <= (m - 1) / d <==> x % d == 0
    ensures x % d == 0 ==> (x * inverse) % m == x / d
  {
    var y, k := (x * inverse) % m, (x * inverse) / m;
    var j := (d * inverse) / m;
    DivIdentity(x * inverse, m);
    DivIdentity(d * inverse, m);
    DivIdentity(m - 1, d);
    if x % d == 0 {
      var q := x / d;
      DivIdentity(x, d);
      QuotientTimesInverse(x, d, inverse, m, q, j);
      if q > (m - 1) / d { MulMonotone(d, (m - 1) / d + 1, q); Distribute((m - 1) / d, 1, d); }
    }
    if y <= (m - 1) / d {
      MulMonotone(d, y, (m - 1) / d);
      MultipleFromInverse(x, d, inverse, m, y, k, j);
    }
  }

  lemma QuotientTimesInverse(x: nat, d: nat, inverse: nat, m: nat, q: nat, j: int)
    requires d > 0 && x == q * d && x < m && d * inverse == j * m + 1
    ensures (x * inverse) % m == q
  {
    MulAssoc(q, d, inverse);
    Distribute(j * m, 1, q);
    MulAssoc(q, j, m);
    MulMonotone(q, 1, d);
    DivModUnique(x * inverse, m, q * j, q);
  }

  lemma MultipleFromInverse(x: nat, d: nat, inverse: nat, m: nat, y: nat, k: int, j: int)
    requires d > 0 && x < m && d * y < m
    requires x * inverse == k * m + y && d * inverse == j * m + 1
    ensures x == y * d && x % d == 0
  {
    calc {
      d * y + (d * k) * m;
      { MulAssoc(d, k, m); Distribute(k * m, y, d); }
      d * (x * inverse);
      { MulAssoc(d, x, inverse); MulAssoc(x, d, inverse); }
      x * (d * inverse);
      { Distribute(j * m, 1, x); MulAssoc(x, j, m); }
      (x * j) * m + x;
    }
    DivModUnique((x * j) * m + x, m, x * j, x);
    DivModUnique((d * k) * m + d * y, m, d * k, d * y);
    DivModUnique(x, d, y, 0);
  }

  // ---- The tables of inverses and largest quotients ----

  const INVERSES_64: seq<Word64> := [
    0x0000000000000001, 0xcccccccccccccccd, 0x8f5c28f5c28f5c29, 0x1cac083126e978d5, 0xd288ce703afb7e91,
    0x5d4e8fb00bcbe61d, 0x790fb65668c26139, 0xe5032477ae8d46a5, 0xc767074b22e90e21, 0x8e47ce423a2e9c6d,
    0x4fa7f60d3ed61f49, 0x0fee64690c913975, 0x3662e0e1cf503eb1, 0xa47a2cf9f6433fbd, 0x54186f653140a659,
    0x7738164770402145, 0xe4a4d1417cd9a041, 0xc75429d9e5c5200d, 0xc1773b91fac10669, 0x26b172506559ce15,
    0xd489e3a9addec2d1, 0x90e860bb892c8d5d, 0x502e79bf1b6f4f79, 0xdcd618596be30fe5]

  const QUOTIENTS_64: seq<Word64> := [
    0xffffffffffffffff, 0x3333333333333333, 0x0a3d70a3d70a3d70, 0x020c49ba5e353f7c, 0x0068db8bac710cb2,
    0x0014f8b588e368f0, 0x000431bde82d7b63, 0x0000d6bf94d5e57a, 0x00002af31dc46118, 0x0000089705f4136b,
    0x000001b7cdfd9d7b, 0x00000057f5ff85e5, 0x000000119799812d, 0x0000000384b84d09, 0x00000000b424dc35,
    0x0000000024075f3d, 0x000000000734aca5, 0x000000000170ef54, 0x000000000049c977, 0x00000000000ec1e4,
    0x000000000002f394, 0x000000000000971d, 0x0000000000001e39, 0x000000000000060b]

  const INVERSES_32: seq<Word32> := [
    0x00000001, 0xcccccccd, 0xc28f5c29, 0x26e978d5, 0x3afb7e91, 0x0bcbe61d,
    0x68c26139, 0xae8d46a5, 0x22e90e21, 0x3a2e9c6d, 0x3ed61f49]

  const QUOTIENTS_32: seq<Word32> := [
    0xffffffff, 0x33333333, 0x0a3d70a3, 0x020c49ba, 0x0068db8b, 0x0014f8b5,
    0x000431bd, 0x0000d6bf, 0x00002af3, 0x00000897, 0x000001b7]

  // Neighbouring entries: five times an inverse is the one before, up to the word base.
  lemma Neighbours64(k: nat)
    requires 0 < k < 24
    ensures |INVERSES_64| == |QUOTIENTS_64| == 24
    ensures (5 * (INVERSES_64[k] as int)) % 0x1_0000_0000_0000_0000 == INVERSES_64[k - 1]
    ensures QUOTIENTS_64[k] == QUOTIENTS_64[k - 1] / 5
  {}

  lemma {:induction false} Inverse64(k: nat)
    requires k < 24
    ensures |INVERSES_64| == 24 && (Pow(5, k) * INVERSES_64[k]) % 0x1_0000_0000_0000_0000 == 1
  {
    if k == 0 {
      assert Pow(5, 0) == 1;
    } else {
      Inverse64(k - 1);
      Neighbours64(k);
      InverseStep(Pow(5, k - 1), INVERSES_64[k - 1], INVERSES_64[k], 0x1_0000_0000_0000_0000);
    }
  }

  lemma {:induction false} Quotient64(k: nat)
    requires k < 24
    ensures Pow(5, k) > 0 && |QUOTIENTS_64| == 24 && QUOTIENTS_64[k] == 0xffff_ffff_ffff_ffff / Pow(5, k)
  {
    if k == 0 {
      assert Pow(5, 0) == 1;
    } else {
      Quotient64(k - 1);
      Neighbours64(k);
      NestedQuotient(0xffff_ffff_ffff_ffff, Pow(5, k - 1));
    }
  }

  lemma InverseStep(p: nat, previous: nat, inverse: nat, m: nat)
    requires m > 1 && (p * previous) % m == 1 && (5 * inverse) % m == previous
    ensures ((5 * p) * inverse) % m == 1
  {
    var carry := (5 * inverse) / m;
    DivIdentity(5 * inverse, m);
    MulAssoc(5, p, inverse);
    MulAssoc(p, 5, inverse);
    MulAssoc(p, 5, inverse);
    Distribute(carry * m, previous, p);
    MulAssoc(p, carry, m);
    DivIdentity(p * previous, m);
    Distribute(p * carry, (p * previous) / m, m);
    DivModUnique((5 * p) * inverse, m, p * carry + (p * previous) / m, 1);
  }

  lemma NestedQuotient(x: nat, p: nat)
    requires p > 0
    ensures x / (5 * p) == (x / p) / 5
  {
    var q := x / p;
    DivIdentity(x, p);
    MulMonotone(p, q % 5, 4);
    Distribute(5 * (q / 5), q % 5, p);
    MulAssoc(q / 5, 5, p);
    DivModUnique(x, 5 * p, q / 5, (q % 5) * p + x % p);
  }

  // Neighbouring entries: five times an inverse is the one before, up to the word base.
  lemma Neighbours32(k: nat)
    requires 0 < k < 11
    ensures |INVERSES_32| == |QUOTIENTS_32| == 11
    ensures (5 * (INVERSES_32[k] as int)) % 0x1_0000_0000 == INVERSES_32[k - 1]
    ensures QUOTIENTS_32[k] == QUOTIENTS_32[k - 1] / 5
  {}

  lemma {:induction false} Inverse32(k: nat)
    requires k < 11
    ensures |INVERSES_32| == 11 && (Pow(5, k) * INVERSES_32[k]) % 0x1_0000_0000 == 1
  {
    if k == 0 {
      assert Pow(5, 0) == 1;
    } else {
      Inverse32(k - 1);
      Neighbours32(k);
      InverseStep(Pow(5, k - 1), INVERSES_32[k - 1], INVERSES_32[k], 0x1_0000_0000);
    }
  }

  lemma {:induction false} Quotient32(k: nat)
    requires k < 11
    ensures Pow(5, k) > 0 && |QUOTIENTS_32| == 11 && QUOTIENTS_32[k] == 0xffff_ffff / Pow(5, k)
  {
    if k == 0 {
      assert Pow(5, 0) == 1;
    } else {
      Quotient32(k - 1);
      Neighbours32(k);
      NestedQuotient(0xffff_ffff, Pow(5, k - 1));
    }
  }

  predicate DivisibleByPowerOf5In64(x: Word64, exp: nat)
    requires exp < |INVERSES_64| && exp < |QUOTIENTS_64|
  {
    (x * INVERSES_64[exp]) % 0x1_0000_0000_0000_0000 <= QUOTIENTS_64[exp]
  }

  predicate DivisibleByPowerOf5In32(x: Word32, exp: nat)
    requires exp < |INVERSES_32| && exp < |QUOTIENTS_32|
  {
    (x * INVERSES_32[exp]) % 0x1_0000_0000 <= QUOTIENTS_32[exp]
  }

  // The table test is divisibility, and the product is then the quotient.
  lemma PowerOf5Test64(x: Word64, exp: nat)
    requires exp < 24
    ensures Pow(5, exp) > 0
    ensures DivisibleByPowerOf5In64(x, exp) <==> x % Pow(5, exp) == 0
    ensures x % Pow(5, exp) == 0 ==> (x * INVERSES_64[exp]) % 0x1_0000_0000_0000_0000 == x / Pow(5, exp)
  {
    Inverse64(exp);
    Quotient64(exp);
    InverseDividesExactly(x, Pow(5, exp), INVERSES_64[exp], 0x1_0000_0000_0000_0000);
  }

  lemma PowerOf5Test32(x: Word32, exp: nat)
    requires exp < 11
    ensures Pow(5, exp) > 0
    ensures DivisibleByPowerOf5In32(x, exp) <==> x % Pow(5, exp) == 0
    ensures x % Pow(5, exp) == 0 ==> (x * INVERSES_32[exp]) % 0x1_0000_0000 == x / Pow(5, exp)
  {
    Inverse32(exp);
    Quotient32(exp);
    InverseDividesExactly(x, Pow(5, exp), INVERSES_32[exp], 0x1_0000_0000);
  }

  // ---- Trailing zeros, by the plain definition ----

  function ZerosOf(n: nat): nat
    requires n > 0
  {
    if n % 10 == 0 then 1 + ZerosOf(n / 10) else 0
  }

  // The number of trailing zero bits (a count-trailing-zeros instruction).
  function TwosOf(n: nat): nat
    requires n > 0
  {
    if n % 2 == 0 then 1 + TwosOf(n / 2) else 0
  }

  // n is z with s zeros behind it, and no more zeros may be taken: z ends in another digit or
  // the cap is reached.
  predicate Stripped(n: int, z: int, s: nat, cap: nat) {
    n == z * Pow(10, s) && s <= cap && (s == cap || z % 10 != 0)
  }

  lemma {:induction false} StrippedIsMaximal(n: nat, z: nat, s: nat, cap: nat)
    requires n > 0 && Stripped(n, z, s, cap)
    ensures s == if ZerosOf(n) < cap then ZerosOf(n) else cap
  {
    if s == 0 {
      assert Pow(10, 0) == 1;
    } else {
      var m := z * Pow(10, s - 1);
      MulAssoc(z, 10, Pow(10, s - 1));
      MulAssoc(10, z, Pow(10, s - 1));
      ZerosOfTens(n, m);
      StrippedIsMaximal(m, z, s - 1, cap - 1);
    }
  }

  lemma ZerosOfTens(n: nat, m: nat)
    requires n == 10 * m && n > 0
    ensures m > 0 && ZerosOf(n) == 1 + ZerosOf(m)
  {
    assert n / 10 == m;
  }

  lemma Tens(z: nat)
    ensures z % 10 == 0 <==> z % 2 == 0 && z % 5 == 0
  {
    var q, r := z / 10, z % 10;
    assert z == 2 * (5 * q) + r && z == 5 * (2 * q) + r;
    assert r == 2 * (r / 2) + r % 2 && r == 5 * (r / 5) + r % 5;
    DivModUnique(z, 2, 5 * q + r / 2, r % 2);
    DivModUnique(z, 5, 2 * q + r / 5, r % 5);
  }

  // Below 10^k there are fewer than k zeros.
  lemma {:induction false} ZerosBelow(n: nat, k: nat)
    requires 0 < n < Pow(10, k)
    ensures ZerosOf(n) < k
  {
    if k > 0 && n % 10 == 0 {
      ZerosBelow(n / 10, k - 1);
    }
  }

  lemma {:induction false} TwosOfFive(n: nat)
    requires n > 0
    ensures TwosOf(5 * n) == TwosOf(n)
  {
    HalfOfFive(n, n / 2, n % 2);
    if n % 2 == 0 { TwosOfFive(n / 2); }
  }

  lemma HalfOfFive(n: nat, h: nat, bit: nat)
    requires n == 2 * h + bit && bit <= 1
    ensures (5 * n) % 2 == bit
    ensures bit == 0 ==> (5 * n) / 2 == 5 * h
  {
    DivModUnique(5 * n, 2, 5 * h + 2 * bit, bit);
  }

  lemma {:induction false} TwosOfTens(z: nat, s: nat)
    requires z > 0
    ensures z * Pow(10, s) > 0 && TwosOf(z * Pow(10, s)) == TwosOf(z) + s
  {
    if s == 0 {
      assert Pow(10, 0) == 1;
    } else {
      TwosOfTens(z, s - 1);
      var y := z * Pow(10, s - 1);
      MulAssoc(z, 10, Pow(10, s - 1));
      MulAssoc(10, z, Pow(10, s - 1));
      TwosOfTen(z * Pow(10, s), y);
    }
  }

  lemma TwosOfTen(x: nat, y: nat)
    requires x == 10 * y && y > 0
    ensures TwosOf(x) == TwosOf(y) + 1
  {
    assert x / 2 == 5 * y;
    TwosOfFive(y);
  }

  // Multiplying by a power of two does not affect divisibility by five.
  lemma {:induction false} FiveAndTwos(y: nat, s: nat)
    ensures (y * Pow(2, s)) % 5 == 0 <==> y % 5 == 0
  {
    if s == 0 {
      assert Pow(2, 0) == 1;
    } else {
      FiveAndTwos(y, s - 1);
      MulAssoc(y, 2, Pow(2, s - 1));
      MulAssoc(2, y, Pow(2, s - 1));
      DoubleByFive(y * Pow(2, s - 1));
    }
  }

  lemma DoubleByFive(x: nat)
    ensures (2 * x) % 5 == 0 <==> x % 5 == 0
  {}

  function MinTwos(n: nat, cap: nat): nat
    requires n > 0
  {
    if TwosOf(n) > cap then cap else TwosOf(n)
  }

  lemma PositiveFactor(a: nat, b: nat)
    requires a * b > 0
    ensures a > 0
  {}

  // While fewer than min(ctz, cap) zeros are out, what remains is even; once they are all out,
  // the cap is reached or what remains is odd.
  lemma EvenUntil(n: nat, z: nat, s: nat, cap: nat)
    requires n > 0 && n == z * Pow(10, s) && s <= MinTwos(n, cap)
    ensures z > 0
    ensures s < MinTwos(n, cap) ==> z % 2 == 0
    ensures s == MinTwos(n, cap) ==> s == cap || z % 2 == 1
    ensures s + 1 < MinTwos(n, cap) ==> z % 4 == 0
  {
    PositiveFactor(z, Pow(10, s));
    TwosOfTens(z, s);
  }

  // ---- The 64-bit version ----

  // True when the word times the inverse of five exceeds the largest quotient.
  predicate NotByFive(x: Word32) {
    (x * 0xcccccccd) % 0x1_0000_0000 > 0x33333333
  }

  function FifthOf(x: Word32): Word32 { (x * 0xcccccccd) % 0x1_0000_0000 }

  lemma FiveTest(x: Word32)
    ensures NotByFive(x) <==> x % 5 != 0
    ensures x % 5 == 0 ==> FifthOf(x) == x / 5
  {
    InverseDividesExactly(x, 5, 0xcccccccd, 0x1_0000_0000);
  }

  lemma EighthPowerTest(n: Word64)
    ensures (n * 0xc767074b22e90e21) % 0x1_0000_0000_0000_0000 <= 0x00002af31dc46118 <==> n % 390625 == 0
    ensures n % 390625 == 0 ==> (n * 0xc767074b22e90e21) % 0x1_0000_0000_0000_0000 == n / 390625
  {
    InverseDividesExactly(n, 390625, 0xc767074b22e90e21, 0x1_0000_0000_0000_0000);
  }

  // The value left after s zeros, held as y * 2^k: the low k bits are cleared only at the end.
  predicate Held(n: int, y: int, z: int, high: int, s: nat, word: int, k: nat) {
    z == y + high && n == z * Pow(10, s) && word == y * Pow(2, k)
  }

  lemma ShiftBack(y: nat, k: nat)
    ensures Pow(2, k) > 0 && (y * Pow(2, k)) / Pow(2, k) == y
  {
    PowPositive(2, k);
    DivModUnique(y * Pow(2, k), Pow(2, k), y, 0);
  }

  // Taking one more zero: y and high are both multiples of ten.
  lemma OneMoreZero(n: nat, y: nat, high: nat, s: nat, word: nat, k: nat)
    requires Held(n, y, y + high, high, s, word, k)
    requires y % 10 == 0 && high % 10 == 0
    ensures word % 5 == 0 && Held(n, y / 10, (y + high) / 10, high / 10, s + 1, word / 5, k + 1)
  {
    var y' := y / 10;
    MulAssoc((y + high) / 10, 10, Pow(10, s));
    FiveAndTwos(y, k);
    MulAssoc(y', 2, Pow(2, k));
    MulAssoc(5, 2 * y', Pow(2, k));
    assert y == 5 * (2 * y');
  }

  // n is a multiple of 10^8 whose quotient fits 32 bits: zeros beyond the eighth are taken one
  // by one from the quotient.
  method StripQuotient(n: Word64, t: nat, first: Word32, ghost cap: nat) returns (s: nat, rest: Word32)
    requires n > 0 && t == MinTwos(n, cap) >= 8
    requires n == first * Pow(10, 8)
    ensures Stripped(n, rest, s, cap)
  {
    var quotient: nat := first;
    s := 8;
    ghost var z: nat := first;
    assert Pow(2, 0) == 1;
    while s < t
      invariant 8 <= s <= t && quotient < 0x1_0000_0000
      invariant Held(n, z, z, 0, s, quotient, s - 8)
    {
      QuotientTest(n, z, s, quotient, cap);
      if NotByFive(quotient) {
        rest := quotient / Pow(2, s - 8);
        return;
      }
      quotient := FifthOf(quotient);
      s := s + 1;
      z := z / 10;
    }
    QuotientDone(n, z, s, quotient, cap);
    rest := quotient / Pow(2, s - 8);
  }

  lemma QuotientTest(n: nat, z: nat, s: nat, quotient: Word32, cap: nat)
    requires n > 0 && 8 <= s < MinTwos(n, cap) && Held(n, z, z, 0, s, quotient, s - 8)
    ensures Pow(2, s - 8) > 0
    ensures if NotByFive(quotient)
            then 0 <= quotient / Pow(2, s - 8) < 0x1_0000_0000 && Stripped(n, quotient / Pow(2, s - 8), s, cap)
            else 0 <= FifthOf(quotient) && Held(n, z / 10, z / 10, 0, s + 1, FifthOf(quotient), s - 7)
  {
    EvenUntil(n, z, s, cap);
    FiveTest(quotient);
    FiveAndTwos(z, s - 8);
    Tens(z);
    ShiftBack(z, s - 8);
    QuotientAtMost(quotient, Pow(2, s - 8));
    if !NotByFive(quotient) { OneMoreZero(n, z, 0, s, quotient, s - 8); }
  }

  lemma QuotientDone(n: nat, z: nat, s: nat, quotient: Word32, cap: nat)
    requires n > 0 && 8 <= s == MinTwos(n, cap) && Held(n, z, z, 0, s, quotient, s - 8)
    ensures Pow(2, s - 8) > 0
    ensures 0 <= quotient / Pow(2, s - 8) < 0x1_0000_0000 && Stripped(n, quotient / Pow(2, s - 8), s, cap)
  {
    EvenUntil(n, z, s, cap);
    Tens(z);
    ShiftBack(z, s - 8);
    QuotientAtMost(quotient, Pow(2, s - 8));
  }

  // s zeros are out of the low eight digits, of which y are left (held as remainder), and
  // 8 - s zeros are left in the factor of the quotient.
  predicate ChainState(n: int, quotient: int, remainder: int, s: nat, y: int)
    requires s <= 8
  {
    0 <= y <= 99999999 && Held(n, y, y + quotient * Pow(10, 8 - s), quotient * Pow(10, 8 - s), s, remainder, s)
  }

  // The test at stop s of the chain: stop with the value stripped, or one more zero goes.
  lemma ChainTest(n: Word64, quotient: Word32, remainder: Word32, s: nat, y: nat, cap: nat)
    requires n > 0 && s <= 6 && s <= MinTwos(n, cap)
    requires ChainState(n, quotient, remainder, s, y)
    ensures if s == MinTwos(n, cap) || NotByFive(remainder) then Stripped(n, y + quotient * Pow(10, 8 - s), s, cap)
            else ChainState(n, quotient, FifthOf(remainder), s + 1, y / 10)
  {
    var tenth := RestInTens(quotient, s);
    EvenUntil(n, y + 10 * tenth, s, cap);
    FiveTest(remainder);
    FiveAndTwos(y, s);
    SumWithTens(y, tenth);
    if s < MinTwos(n, cap) && !NotByFive(remainder) { OneMoreZero(n, y, 10 * tenth, s, remainder, s); }
  }

  lemma RestInTens(quotient: nat, s: nat) returns (tenth: nat)
    requires s <= 6
    ensures tenth == quotient * Pow(10, 7 - s) && quotient * Pow(10, 8 - s) == 10 * tenth
  {
    PowPositive(10, 7 - s);
    MulMonotone(Pow(10, 7 - s), 0, quotient);
    MulAssoc(quotient, 10, Pow(10, 7 - s));
    MulAssoc(10, quotient, Pow(10, 7 - s));
    tenth := quotient * Pow(10, 7 - s);
  }

  lemma SumWithTens(y: nat, tenth: nat)
    ensures (y + 10 * tenth) % 2 == y % 2 && (y + 10 * tenth) % 5 == y % 5
    ensures (y + 10 * tenth) % 10 == y % 10 && (y + 10 * tenth) / 10 == y / 10 + tenth
    ensures y % 10 == 0 <==> y % 2 == 0 && y % 5 == 0
  {
    Tens(y);
    DivModUnique(y + 10 * tenth, 10, y / 10 + tenth, y % 10);
    DivModUnique(y + 10 * tenth, 2, y / 2 + 5 * tenth, y % 2);
    DivModUnique(y + 10 * tenth, 5, y / 5 + 2 * tenth, y % 5);
  }

  // After seven zeros a remainder that was no multiple of 5^8 has none left.
  lemma SevenIsLast(n: Word64, z: nat, cap: nat)
    requires n > 0 && n == z * Pow(10, 7) && 7 <= MinTwos(n, cap)
    requires MinTwos(n, cap) < 8 || n % 390625 != 0
    ensures Stripped(n, z, 7, cap)
  {
    EvenUntil(n, z, 7, cap);
    Tens(z);
    if z % 10 == 0 && MinTwos(n, cap) >= 8 {
      assert Pow(10, 7) == 10000000 by { PowAdd(10, 4, 3); }
      EightZeros(n, z);
    }
  }

  lemma EightZeros(n: nat, z: nat)
    requires n == z * 10000000 && z % 10 == 0
    ensures n % 390625 == 0
  {
    DivModUnique(n, 390625, (z / 10) * 256, 0);
  }

  // Removes trailing zeros, as many as the cap allows: the 64-bit version, whose quotient by
  // 10^8 must fit 32 bits.
  method RemoveTrailingZeros64(n: Word64, cap: nat) returns (rest: Word64, s: nat)
    requires 0 < n < 0x1_0000_0000 * 100000000
    ensures n == rest * Pow(10, s)
    ensures s == if ZerosOf(n) < cap then ZerosOf(n) else cap
  {
    var t := TwosOf(n);
    if t > cap { t := cap; }
    EighthPowerTest(n);
    if t >= 8 {
      var candidate: Word64 := (n * 0xc767074b22e90e21) % 0x1_0000_0000_0000_0000;
      if candidate <= 0x00002af31dc46118 {
        WholeEighthPower(n, cap);
        var quotient: Word32 := (candidate / 256) % 0x1_0000_0000;
        s, rest := StripQuotient(n, t, quotient, cap);
        StrippedIsMaximal(n, rest, s, cap);
        return;
      }
    }
    rest, s := StripRemainder(n, t, cap);
    StrippedIsMaximal(n, rest, s, cap);
  }

  lemma WholeEighthPower(n: Word64, cap: nat)
    requires 0 < n < 0x1_0000_0000 * 100000000 && n % 390625 == 0 && MinTwos(n, cap) >= 8
    ensures (n / 390625) / 256 < 0x1_0000_0000 && n == ((n / 390625) / 256) * Pow(10, 8)
  {
    var m := n / 390625;
    assert n == 390625 * m;
    TwosOfFivePower(m);
    EightTwos(m);
    assert Pow(10, 8) == 100000000 by { PowAdd(10, 4, 4); }
  }

  lemma TwosOfFivePower(m: nat)
    requires m > 0
    ensures TwosOf(390625 * m) == TwosOf(m)
  {
    TwosOfFive(m);
    TwosOfFive(5 * m);
    TwosOfFive(25 * m);
    TwosOfFive(125 * m);
    TwosOfFive(625 * m);
    TwosOfFive(3125 * m);
    TwosOfFive(15625 * m);
    TwosOfFive(78125 * m);
  }

  lemma {:induction false} TwosDivide(m: nat, k: nat)
    requires m > 0 && TwosOf(m) >= k
    ensures Pow(2, k) > 0 && m % Pow(2, k) == 0
  {
    PowPositive(2, k);
    if k > 0 {
      TwosDivide(m / 2, k - 1);
      var q := m / 2 / Pow(2, k - 1);
      DivIdentity(m / 2, Pow(2, k - 1));
      MulAssoc(q, 2, Pow(2, k - 1));
      MulAssoc(2, q, Pow(2, k - 1));
      DivModUnique(m, Pow(2, k), q, 0);
    } else {
      assert Pow(2, 0) == 1;
    }
  }

  lemma EightTwos(m: nat)
    requires m > 0 && TwosOf(m) >= 8
    ensures m == (m / 256) * 256
  {
    TwosDivide(m, 8);
    assert Pow(2, 8) == 256;
  }

  // The value written back at stop s: the sum does not wrap.
  method WriteBack(n: Word64, quotient: Word32, remainder: Word32, s: nat, ghost y: nat) returns (rest: Word64)
    requires 0 < s <= 7 && ChainState(n, quotient, remainder, s, y)
    ensures rest == y + quotient * Pow(10, 8 - s)
  {
    ShiftBack(y, s);
    PowMonotone(10, 8 - s, 8);
    PowPositive(10, 8 - s);
    assert Pow(10, 8) == 100000000 by { PowAdd(10, 4, 4); }
    MulMonotone(quotient, Pow(10, 8 - s), 100000000);
    MulMonotone(100000000, quotient, 0xffff_ffff);
    MulMonotone(Pow(10, 8 - s), 0, quotient);
    rest := remainder / Pow(2, s) + quotient * Pow(10, 8 - s);
  }

  // One test of the chain with what it returns on stopping.
  method ChainStep(n: Word64, quotient: Word32, remainder: Word32, s: nat, t: nat, ghost y: nat, ghost cap: nat)
    returns (stopped: bool, rest: Word64, next: Word32, ghost y': nat)
    requires n > 0 && s <= 6 && s <= t && t == MinTwos(n, cap)
    requires ChainState(n, quotient, remainder, s, y)
    ensures stopped ==> Stripped(n, rest, s, cap)
    ensures !stopped ==> s < t && ChainState(n, quotient, next, s + 1, y')
  {
    ChainTest(n, quotient, remainder, s, y, cap);
    stopped, rest, next, y' := t == s || NotByFive(remainder), n, remainder, y;
    if stopped {
      if s > 0 {
        rest := WriteBack(n, quotient, remainder, s, y);
      } else {
        assert Pow(10, 0) == 1;
      }
    } else {
      next, y' := FifthOf(remainder), y / 10;
    }
  }

  // The chain of tests on the low eight digits, for a number that is no multiple of 10^8 (or
  // of which fewer than eight zeros may be taken).
  method StripRemainder(n: Word64, t: nat, ghost cap: nat) returns (rest: Word64, s: nat)
    requires 0 < n < 0x1_0000_0000 * 100000000
    requires t == MinTwos(n, cap) && (t < 8 || n % 390625 != 0)
    ensures Stripped(n, rest, s, cap)
  {
    var quotient: Word32 := n / 100000000;
    // The inner product is 32 bits wide and wraps; the truncated difference is the remainder.
    var remainder: Word32 := ((n - (100000000 * (quotient as int)) % 0x1_0000_0000) % 0x1_0000_0000_0000_0000) % 0x1_0000_0000;
    LowDigits(n, quotient, remainder);
    ghost var y: nat := remainder;
    var stopped;
    stopped, rest, remainder, y := ChainStep(n, quotient, remainder, 0, t, y, cap);
    if stopped { return rest, 0; }
    stopped, rest, remainder, y := ChainStep(n, quotient, remainder, 1, t, y, cap);
    if stopped { return rest, 1; }
    stopped, rest, remainder, y := ChainStep(n, quotient, remainder, 2, t, y, cap);
    if stopped { return rest, 2; }
    stopped, rest, remainder, y := ChainStep(n, quotient, remainder, 3, t, y, cap);
    if stopped { return rest, 3; }
    stopped, rest, remainder, y := ChainStep(n, quotient, remainder, 4, t, y, cap);
    if stopped { return rest, 4; }
    stopped, rest, remainder, y := ChainStep(n, quotient, remainder, 5, t, y, cap);
    if stopped { return rest, 5; }
    stopped, rest, remainder, y := ChainStep(n, quotient, remainder, 6, t, y, cap);
    if stopped { return rest, 6; }
    rest := WriteBack(n, quotient, remainder, 7, y);
    SevenIsLast(n, rest, cap);
    return rest, 7;
  }

  lemma LowDigits(n: Word64, quotient: Word32, remainder: Word32)
    requires quotient == n / 100000000
    requires remainder == ((n - (100000000 * (quotient as int)) % 0x1_0000_0000) % 0x1_0000_0000_0000_0000) % 0x1_0000_0000
    ensures remainder == n % 100000000
    ensures ChainState(n, quotient, remainder, 0, remainder)
  {
    var product := 100000000 * (quotient as int);
    var wraps := product / 0x1_0000_0000;
    assert n - product % 0x1_0000_0000 == n % 100000000 + wraps * 0x1_0000_0000;
    DivModUnique(n - product % 0x1_0000_0000, 0x1_0000_0000, wraps, n % 100000000);
    assert Pow(10, 8) == 100000000 by { PowAdd(10, 4, 4); }
    assert Pow(10, 0) == 1 && Pow(2, 0) == 1;
  }

  // For the significands of a double, below 10^17, every zero goes as soon as sixteen may.
  lemma AllZerosGo(n: nat, cap: nat, rest: nat, s: nat)
    requires 0 < n < Pow(10, 17) && cap >= 16
    requires n == rest * Pow(10, s) && s == (if ZerosOf(n) < cap then ZerosOf(n) else cap)
    ensures s == ZerosOf(n) && rest % 10 != 0
  {
    ZerosBelow(n, 17);
    StrippedOf(n, rest, s);
  }

  lemma {:induction false} StrippedOf(n: nat, rest: nat, s: nat)
    requires n > 0 && n == rest * Pow(10, s) && s == ZerosOf(n)
    ensures rest % 10 != 0
  {
    if s == 0 {
      assert Pow(10, 0) == 1;
    } else {
      var m := rest * Pow(10, s - 1);
      MulAssoc(rest, 10, Pow(10, s - 1));
      MulAssoc(10, rest, Pow(10, s - 1));
      ZerosOfTens(n, m);
      StrippedOf(m, rest, s - 1);
    }
  }

  // ---- The 32-bit version ----

  lemma TwentyFiveTest(x: Word32)
    ensures (x * 0xc28f5c29) % 0x1_0000_0000 <= 0x0a3d70a3 <==> x % 25 == 0
    ensures x % 25 == 0 ==> (x * 0xc28f5c29) % 0x1_0000_0000 == x / 25
  {
    InverseDividesExactly(x, 25, 0xc28f5c29, 0x1_0000_0000);
  }

  // 32-bit numbers: pairs of zeros first, then at most one more.
  method RemoveTrailingZeros32(start: Word32, cap: nat) returns (rest: Word32, s: nat)
    requires start > 0
    ensures start == rest * Pow(10, s)
    ensures s == if ZerosOf(start) < cap then ZerosOf(start) else cap
  {
    var t := TwosOf(start);
    if t > cap { t := cap; }
    var n: nat := start;
    ghost var z: nat := start;
    s := 0;
    assert Pow(10, 0) == 1 && Pow(2, 0) == 1;
    while s < t - 1
      invariant 0 <= s <= t && n < 0x1_0000_0000
      invariant Held(start, z, z, 0, s, n, s)
      decreases t - s
    {
      PairTest(start, z, s, n, cap);
      if (n * 0xc28f5c29) % 0x1_0000_0000 > 0x0a3d70a3 { break; }
      n := (n * 0xc28f5c29) % 0x1_0000_0000;
      s := s + 2;
      z := z / 100;
    }
    assert s < t - 1 ==> z % 25 != 0;
    SingleTest(start, z, s, n, cap);
    if s < t && !NotByFive(n) {
      n := FifthOf(n);
      s := s + 1;
      z := z / 10;
    }
    ShiftBack(z, s);
    QuotientAtMost(n, Pow(2, s));
    rest := n / Pow(2, s);
    StrippedIsMaximal(start, rest, s, cap);
  }

  lemma {:induction false} TwentyFiveAndTwos(y: nat, s: nat)
    ensures (y * Pow(2, s)) % 25 == 0 <==> y % 25 == 0
  {
    if s == 0 {
      assert Pow(2, 0) == 1;
    } else {
      TwentyFiveAndTwos(y, s - 1);
      MulAssoc(y, 2, Pow(2, s - 1));
      MulAssoc(2, y, Pow(2, s - 1));
      DoubleByTwentyFive(y * Pow(2, s - 1));
    }
  }

  lemma DoubleByTwentyFive(x: nat)
    ensures (2 * x) % 25 == 0 <==> x % 25 == 0
  {}

  lemma PairTest(start: Word32, z: nat, s: nat, n: Word32, cap: nat)
    requires start > 0 && s + 1 < MinTwos(start, cap) && Held(start, z, z, 0, s, n, s)
    ensures (n * 0xc28f5c29) % 0x1_0000_0000 > 0x0a3d70a3 <==> z % 25 != 0
    ensures z % 25 == 0 ==>
              Held(start, z / 100, z / 100, 0, s + 2, (n * 0xc28f5c29) % 0x1_0000_0000, s + 2)
  {
    TwentyFiveTest(n);
    TwentyFiveAndTwos(z, s);
    EvenUntil(start, z, s, cap);
    if z % 25 == 0 {
      Hundreds(z);
      OneMoreZero(start, z, 0, s, n, s);
      OneMoreZero(start, z / 10, 0, s + 1, n / 5, s + 1);
    }
  }

  lemma Hundreds(z: nat)
    requires z % 25 == 0 && z % 4 == 0
    ensures z % 10 == 0 && (z / 10) % 10 == 0 && (z / 10) / 10 == z / 100
  {
    var h, r := z / 100, z % 100;
    DivModUnique(z, 25, 4 * h + r / 25, r % 25);
    DivModUnique(z, 4, 25 * h + r / 4, r % 4);
    assert r == 0;
    DivModUnique(z, 10, 10 * h, 0);
  }

  lemma FiftyIsTwice25(z: nat)
    requires z % 10 == 0 && (z / 10) % 5 == 0
    ensures z % 25 == 0
  {
    DivModUnique(z, 25, 2 * (z / 10 / 5), 0);
  }

  lemma SingleTest(start: Word32, z: nat, s: nat, n: Word32, cap: nat)
    requires start > 0 && s <= MinTwos(start, cap) && Held(start, z, z, 0, s, n, s)
    requires s + 1 < MinTwos(start, cap) ==> z % 25 != 0
    ensures if s < MinTwos(start, cap) && !NotByFive(n)
            then Held(start, z / 10, z / 10, 0, s + 1, FifthOf(n), s + 1) && Stripped(start, z / 10, s + 1, cap)
            else Stripped(start, z, s, cap)
  {
    EvenUntil(start, z, s, cap);
    FiveTest(n);
    FiveAndTwos(z, s);
    Tens(z);
    if s < MinTwos(start, cap) && !NotByFive(n) {
      OneMoreZero(start, z, 0, s, n, s);
      EvenUntil(start, z / 10, s + 1, cap);
      Tens(z / 10);
      if (z / 10) % 5 == 0 { FiftyIsTwice25(z); }
    }
  }
}
