// Products wider than the machine word: the portable branches compute exactly what the
// branches with a 128-bit integer type compute. Stated for any even word base h * h, of which
// the program's is 2^32 * 2^32.

module WideMultiply {
  import opened Powers

  // The full product as a high and a low word.
  datatype Wide = Wide(high: int, low: int)

  // The four half-word products ac, bc, ad, bd put together through one intermediate sum.
  function Combine(ac: int, bc: int, ad: int, bd: int, h: int): Wide
    requires h > 0
  {
    var intermediate := bd / h + ad % h + bc % h;
    Wide(ac + intermediate / h + ad / h + bc / h, (intermediate * h) % (h * h) + bd % h)
  }

  function Multiply128(x: nat, y: nat, h: nat): Wide
    requires h > 0
  {
    var a, b, c, d := x / h, x % h, y / h, y % h;
    Combine(a * c, b * c, a * d, b * d, h)
  }

  // The product over the word base, rounded to nearest with ties up, from the same parts.
  function CombineRounded(ac: int, bc: int, ad: int, bd: int, h: int): int
    requires h > 0
  {
    var mid := bd / h + ad % h + bc % h + h / 2;
    ac + ad / h + bc / h + mid / h
  }

  function MultiplyRounded(x: nat, y: nat, h: nat): int
    requires h > 0
  {
    var a, b, c, d := x / h, x % h, y / h, y % h;
    CombineRounded(a * c, b * c, a * d, b * d, h)
  }

  lemma FourProducts(a: int, b: int, c: int, d: int, h: int)
    ensures (a * h + b) * (c * h + d) == (a * c) * (h * h) + (a * d) * h + (b * c) * h + b * d
  {
    Distribute(a * h, b, c * h + d);
    Distribute(c * h, d, a * h);
    Distribute(c * h, d, b);
    MulAssoc(a, h, c * h);
    MulAssoc(h, c, h);
    MulAssoc(c, h, h);
    MulAssoc(a, c, h * h);
    MulAssoc(a, h, d);
    MulAssoc(a, d, h);
    MulAssoc(b, c, h);
  }

  lemma SplitProduct(p: int, h: int)
    requires h > 0
    ensures p * h == (p / h) * (h * h) + (p % h) * h
    ensures 0 <= p % h <= h - 1
  {
    DivIdentity(p, h);
    Distribute((p / h) * h, p % h, h);
    MulAssoc(p / h, h, h);
  }

  // A double word t * h + l, split at the word boundary.
  lemma SplitAtWord(t: int, l: int, h: int)
    requires h > 0 && 0 <= l < h
    ensures t * h + l == (t / h) * (h * h) + ((t * h) % (h * h) + l)
    ensures 0 <= (t * h) % (h * h) + l < h * h
    ensures (t * h) % (h * h) == (t % h) * h
  {
    SplitProduct(t, h);
    MulPositive(h, h);
    MulMonotone(h, t % h, h - 1);
    MulMonotone(h, 0, t % h);
    Distribute(h, -1, h);
    DivModUnique(t * h, h * h, t / h, (t % h) * h);
  }

  // The parts lose nothing: together they are (ac * h + ad + bc) * h + bd.
  lemma CombineIsExact(ac: int, bc: int, ad: int, bd: int, h: int)
    requires h > 0
    ensures var w := Combine(ac, bc, ad, bd, h);
            && ac * (h * h) + ad * h + bc * h + bd == w.high * (h * h) + w.low
            && 0 <= w.low < h * h
  {
    var p, q, r := ad / h, bc / h, bd / h;
    var u, v, l := ad % h, bc % h, bd % h;
    SplitProduct(ad, h);
    SplitProduct(bc, h);
    DivIdentity(bd, h);
    SplitAtWord(r + u + v, l, h);
    Regroup(ac, p, q, (r + u + v) / h, r, u, v, h);
  }

  lemma Regroup(ac: int, p: int, q: int, top: int, r: int, u: int, v: int, h: int)
    ensures (ac + top + p + q) * (h * h) == ac * (h * h) + top * (h * h) + p * (h * h) + q * (h * h)
    ensures (r + u + v) * h == r * h + u * h + v * h
  {
    Distribute(ac + top + p, q, h * h);
    Distribute(ac + top, p, h * h);
    Distribute(ac, top, h * h);
    Distribute(r + u, v, h);
    Distribute(r, u, h);
  }

  // umul128: high and low word are the quotient and the remainder of the product by the base.
  lemma Multiply128IsExact(x: nat, y: nat, h: nat)
    requires h > 0
    ensures h * h > 0
    ensures Multiply128(x, y, h) == Wide((x * y) / (h * h), (x * y) % (h * h))
  {
    var a, b, c, d := x / h, x % h, y / h, y % h;
    MulPositive(h, h);
    DivIdentity(x, h);
    DivIdentity(y, h);
    FourProducts(a, b, c, d, h);
    CombineIsExact(a * c, b * c, a * d, b * d, h);
    var w := Multiply128(x, y, h);
    DivModUnique(x * y, h * h, w.high, w.low);
  }

  // The portable rounding adds half a unit to the middle sum; the 128-bit branch adds one to
  // the high word when the top bit of the low word is set.
  lemma RoundedFromParts(ac: int, bc: int, ad: int, bd: int, h: int)
    requires h > 0 && h % 2 == 0
    ensures var w := Combine(ac, bc, ad, bd, h);
            CombineRounded(ac, bc, ad, bd, h) == w.high + (if 2 * w.low >= h * h then 1 else 0)
  {
    DivIdentity(bd, h);
    MiddleRounds(bd / h + ad % h + bc % h, bd % h, h);
  }

  lemma MiddleRounds(t: int, l: int, h: int)
    requires h > 0 && h % 2 == 0 && 0 <= l < h
    ensures (t + h / 2) / h == t / h + (if 2 * ((t * h) % (h * h) + l) >= h * h then 1 else 0)
  {
    var q, r, e := t / h, t % h, h / 2;
    DivIdentity(t, h);
    SplitAtWord(t, l, h);
    MulAssoc(2, r, h);
    if r >= e {
      MulMonotone(h, h, 2 * r);
      Distribute(q, 1, h);
      DivModUnique(t + e, h, q + 1, r + e - h);
    } else {
      MulMonotone(h, 2 * r + 2, h);
      Distribute(2 * r, 2, h);
      DivModUnique(t + e, h, q, r + e);
    }
  }

  // multiply: the product over the word base, rounded half up.
  lemma MultiplyRoundsHalfUp(x: nat, y: nat, h: nat)
    requires h > 0 && h % 2 == 0
    ensures h * h > 0
    ensures MultiplyRounded(x, y, h)
         == (x * y) / (h * h) + (if 2 * ((x * y) % (h * h)) >= h * h then 1 else 0)
  {
    Multiply128IsExact(x, y, h);
    RoundedFromParts((x / h) * (y / h), (x % h) * (y / h), (x / h) * (y % h), (x % h) * (y % h), h);
  }

  // With the program's base every product and every sum of parts fits the 64-bit variable that
  // holds it, so the portable code computes these functions without wrapping.
  lemma PartsFit(x: nat, y: nat)
    requires x < 0x1_0000_0000_0000_0000 && y < 0x1_0000_0000_0000_0000
    ensures var h := 0x1_0000_0000;
            var a, b, c, d := x / h, x % h, y / h, y % h;
            && 0 <= a * c <= 0xFFFF_FFFE_0000_0001 && 0 <= b * c <= 0xFFFF_FFFE_0000_0001
            && 0 <= a * d <= 0xFFFF_FFFE_0000_0001 && 0 <= b * d <= 0xFFFF_FFFE_0000_0001
            && 0 <= (b * d) / h + (a * d) % h + (b * c) % h + h / 2 < 0x1_0000_0000_0000_0000
            && 0 <= Combine(a * c, b * c, a * d, b * d, h).high < 0x1_0000_0000_0000_0000
            && 0 <= CombineRounded(a * c, b * c, a * d, b * d, h) < 0x1_0000_0000_0000_0000
  {
    var h := 0x1_0000_0000;
    var a, b, c, d := x / h, x % h, y / h, y % h;
    HalfProduct(a, c);
    HalfProduct(b, c);
    HalfProduct(a, d);
    HalfProduct(b, d);
  }

  lemma HalfProduct(a: int, b: int)
    requires 0 <= a <= 0xFFFF_FFFF && 0 <= b <= 0xFFFF_FFFF
    ensures 0 <= a * b <= 0xFFFF_FFFE_0000_0001
  {
    MulMonotone(b, a, 0xFFFF_FFFF);
    MulMonotone(0xFFFF_FFFF, b, 0xFFFF_FFFF);
    MulMonotone(b, 0, a);
  }
}
