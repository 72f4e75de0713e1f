// Facts about single steps of the word loops: products, shifts, carries and the top word.

module WordSteps {
  import opened Powers
  import opened Words

  // A word of the scaled number is produced and the carry moves up one position.
  lemma CarryStep(s: seq<Bigit>, t: seq<Bigit>, i: nat, m: int, c: int, d: Bigit, c': int)
    requires i < |s| && i < |t|
    requires Val(t[..i]) + Scale(c, i) == Val(s[..i]) * m
    requires s[i] * m + c == c' * 0x1_0000_0000 + d
    requires t[i] == d
    ensures Val(t[..i + 1]) + Scale(c', i + 1) == Val(s[..i + 1]) * m
  {
    ValPrefix(s, i);
    ValPrefix(t, i);
    ScaleScale(c', 1, i);
    assert Scale(c', 1) == 0x1_0000_0000 * Scale(c', 0);
    ScaleAdd(d, c' * 0x1_0000_0000, i);
    ScaleAdd(s[i] * m, c, i);
    ScaleMul(m, s[i], i);
    Distribute(Val(s[..i]), Scale(s[i], i), m);
  }

  // Storing the low word of a carry as the next word leaves the rest of it one position up.
  lemma CarryWord(s: seq<Bigit>, carry: nat)
    ensures Val(s + [carry % 0x1_0000_0000]) + Scale(carry / 0x1_0000_0000, |s| + 1)
         == Val(s) + Scale(carry, |s|)
  {
    var hi, word := carry / 0x1_0000_0000, carry % 0x1_0000_0000;
    ValSnoc(s, word);
    ScaleScale(hi, 1, |s|);
    assert Scale(hi, 1) == 0x1_0000_0000 * Scale(hi, 0);
    ScaleAdd(word, 0x1_0000_0000 * hi, |s|);
  }

  // Shifting one 32-bit word left by a part of a word, p * q being the word base.
  lemma ShiftWordParts(b: Bigit, p: nat, q: nat, carry: nat)
    requires p > 0 && q > 0 && p * q == 0x1_0000_0000 && carry < p
    ensures (b * p) % 0x1_0000_0000 + carry < 0x1_0000_0000
    ensures (b * p) % 0x1_0000_0000 + carry + (b / q) * 0x1_0000_0000 == b * p + carry
    ensures b / q < p
  {
    var h, l := b / q, b % q;
    assert b == h * q + l;
    Distribute(h * q, l, p);
    MulAssoc(h, q, p);
    MulMonotone(p, l, q - 1);
    Distribute(q, -1, p);
    DivModUnique(b * p, 0x1_0000_0000, h, l * p);
    if h >= p { MulMonotone(q, p, h); }
  }

  lemma WordStep(b: Bigit, value: Bigit, carry: Bigit)
    ensures 0 <= b * value + carry < 0x1_0000_0000_0000_0000
  {
    MulMonotone(value, b, 0xFFFF_FFFF);
    MulMonotone(0xFFFF_FFFF, value, 0xFFFF_FFFF);
    MulMonotone(b, 0, value);
  }

  // The three-term 64-bit sum of the two-half multiplication neither wraps nor loses a part.
  lemma DoubleStep(b: Bigit, value: DoubleBigit, carry: DoubleBigit)
    requires carry < value
    ensures var result := b * (value % 0x1_0000_0000) + carry % 0x1_0000_0000;
            var next := b * (value / 0x1_0000_0000) + result / 0x1_0000_0000 + carry / 0x1_0000_0000;
            0 <= result < 0x1_0000_0000_0000_0000
            && 0 <= next < value
            && b * value + carry == next * 0x1_0000_0000 + result % 0x1_0000_0000
  {
    var lo, hi := value % 0x1_0000_0000, value / 0x1_0000_0000;
    var result := b * lo + carry % 0x1_0000_0000;
    var next := b * hi + result / 0x1_0000_0000 + carry / 0x1_0000_0000;
    MulMonotone(lo, b, 0xFFFF_FFFF);
    MulMonotone(b, 0, lo);
    MulMonotone(b, 0, hi);
    calc {
      b * value;
      b * (hi * 0x1_0000_0000 + lo);
      { Distribute(hi * 0x1_0000_0000, lo, b); MulAssoc(b, hi, 0x1_0000_0000); }
      (b * hi) * 0x1_0000_0000 + b * lo;
    }
    MulMonotone(value, b, 0xFFFF_FFFF);
  }

  lemma TwoWords(n: DoubleBigit)
    ensures n < 0x1_0000_0000 ==> Val([n]) == n
    ensures Val([n % 0x1_0000_0000, n / 0x1_0000_0000]) == n
  {
    var a: Bigit, b: Bigit := n % 0x1_0000_0000, n / 0x1_0000_0000;
    ValSnoc([], a);
    ValSnoc([a], b);
    assert [] + [a] == [a] && [a] + [b] == [a, b];
    assert Scale(b, 1) == 0x1_0000_0000 * Scale(b, 0);
  }

  // Scaling by a positive factor keeps the top word non-zero.
  lemma ScaledTop(s: seq<Bigit>, e: nat, t: seq<Bigit>, m: int)
    requires m > 0 && |s| <= |t|
    requires Val(t) == Val(s) * m
    requires |t| > |s| ==> NonZeroTop(t)
    ensures NonZeroTop(s) ==> NonZeroTop(t)
    ensures ValueOf(t, e) == ValueOf(s, e) * m
  {
    ScaleMul(m, Val(s), e);
    if NonZeroTop(s) && |t| == |s| {
      ValBound(s);
      ValTop(s);
      MulMonotone(Val(s), 1, m);
      TopFromValue(t, 0, |s| - 1);
    }
  }

  // A shift by n is a shift by n / 32 words and n % 32 bits.
  lemma ShiftSplit(v: int, e: nat, n: nat)
    ensures Scale(v * Pow(2, n % 32), e + n / 32) == Scale(v, e) * Pow(2, n)
  {
    var k, b := n / 32, n % 32;
    ScaleScale(v * Pow(2, b), e, k);
    ScaleMul(Pow(2, b), v, e);
    ScaleIsPow(Scale(v, e) * Pow(2, b), k);
    PowAdd(2, b, 32 * k);
    MulAssoc(Scale(v, e), Pow(2, b), Pow(2, 32 * k));
  }

  // Where the parts at and above a position differ, so do the numbers.
  lemma HighOrder(s: seq<Bigit>, e: nat, t: seq<Bigit>, f: nat, p: nat)
    requires High(s, e, p) < High(t, f, p)
    ensures ValueOf(s, e) < ValueOf(t, f)
  {
    HighBound(s, e, p);
    HighBound(t, f, p);
    ScaleMonotone(High(s, e, p) + 1, High(t, f, p), p);
  }

  lemma NumberOfWords(s: seq<Bigit>, e: nat, t: seq<Bigit>, f: nat)
    requires NonZeroTop(s) && |s| + e > |t| + f
    ensures ValueOf(s, e) > ValueOf(t, f)
  {
    ValueTop(s, e);
    ValueBound(t, f);
    WeightMonotone(|t| + f, |s| - 1 + e);
  }

  // A number that agrees from position f on with one that has no words below f.
  lemma AgreeAbove(s: seq<Bigit>, e: nat, t: seq<Bigit>, f: nat)
    requires High(s, e, f) == High(t, f, f)
    ensures ValueOf(s, e) >= ValueOf(t, f)
  {
    HighBound(s, e, f);
    HighBound(t, f, f);
  }

  // A power of five stored without trailing words takes at most one word per factor.
  lemma FivePowerLength(s: Stored, n: nat)
    requires s.Normalized() && s.exp == 0 && s.Value() == Pow(5, n)
    ensures |s.words| <= n + 1
  {
    ValTop(s.words);
    PowBelow(5, 0x1_0000_0000, n);
    ScaleIsPow(1, n);
    PowPow(2, 32, n);
    TwoToThe32();
    if |s.words| > n + 1 {
      WeightMonotone(n + 1, |s.words| - 1);
      WeightMonotone(n, n);
    }
  }
}
