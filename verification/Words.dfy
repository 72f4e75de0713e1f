// Little-endian sequences of 32-bit words ("bigits") and the integers they denote.
// Weights of word positions are built by repeated multiplication with the constant base, so
// that all positional reasoning stays linear.

module Words {
  import opened Machine
  import opened Powers

  type Bigit = Word32
  type DoubleBigit = Word64

  function Sign(x: int): int {
    if x > 0 then 1 else if x < 0 then -1 else 0
  }

  // v moved up by e words: v * 2^(32 e).
  function Scale(v: int, e: nat): int {
    if e == 0 then v else 0x1_0000_0000 * Scale(v, e - 1)
  }

  // The weight of word position i.
  function Weight(i: nat): int { Scale(1, i) }

  // The integer denoted by a word sequence, least significant word first.
  function Val(s: seq<Bigit>): int {
    if s == [] then 0
    else Val(s[..|s| - 1]) + Scale(s[|s| - 1], |s| - 1)
  }

  // The integer denoted by words whose least significant one stands at position e.
  function ValueOf(s: seq<Bigit>, e: nat): int {
    Scale(Val(s), e)
  }

  predicate NonZeroTop(s: seq<Bigit>) {
    s != [] && s[|s| - 1] != 0
  }

  predicate SingleZero(s: seq<Bigit>) {
    |s| == 1 && s[0] == 0
  }

  // The word at absolute position p, zero outside the stored words.
  function WordAt(s: seq<Bigit>, e: nat, p: int): Bigit {
    if e <= p < e + |s| then s[p - e] else 0
  }

  // A number as the original stores it: words, and how many zero words stand below them.
  datatype Stored = Stored(words: seq<Bigit>, exp: nat) {
    function Value(): int { ValueOf(words, exp) }

    function NumBigits(): nat { |words| + exp }

    predicate Normalized() { NonZeroTop(words) }

    // A zero left by subtraction is a single zero word; the comparisons place it correctly
    // as long as it does not stand above the other operand's lowest word.
    predicate ComparableTo(other: Stored) {
      Normalized() || (SingleZero(words) && exp <= other.exp)
    }
  }

  // ---- Scaling is linear and monotone ----

  lemma {:induction false} ScaleAdd(a: int, b: int, e: nat)
    ensures Scale(a + b, e) == Scale(a, e) + Scale(b, e)
  {
    if e > 0 { ScaleAdd(a, b, e - 1); }
  }

  lemma {:induction false} ScaleScale(v: int, i: nat, j: nat)
    ensures Scale(Scale(v, i), j) == Scale(v, i + j)
  {
    if j > 0 { ScaleScale(v, i, j - 1); }
  }

  lemma {:induction false} ScaleMul(c: int, v: int, e: nat)
    ensures Scale(v * c, e) == Scale(v, e) * c
  {
    if e > 0 {
      ScaleMul(c, v, e - 1);
      MulAssoc(0x1_0000_0000, Scale(v, e - 1), c);
    }
  }

  lemma {:induction false} ScaleMonotone(a: int, b: int, e: nat)
    ensures a <= b <==> Scale(a, e) <= Scale(b, e)
  {
    if e > 0 { ScaleMonotone(a, b, e - 1); }
  }

  lemma {:induction false} ScaleZero(e: nat)
    ensures Scale(0, e) == 0
  {
    if e > 0 { ScaleZero(e - 1); }
  }

  lemma {:induction false} ScaleIsPow(v: int, e: nat)
    ensures Scale(v, e) == v * Pow(2, 32 * e)
  {
    if e == 0 {
      assert Pow(2, 0) == 1;
    } else {
      ScaleIsPow(v, e - 1);
      PowAdd(2, 32, 32 * (e - 1));
      TwoToThe32();
      MulAssoc(v, 0x1_0000_0000, Pow(2, 32 * (e - 1)));
    }
  }

  lemma WeightMonotone(i: nat, j: nat)
    requires i <= j
    ensures 0 < Weight(i) <= Weight(j)
    decreases j
  {
    ScaleZero(i);
    if i < j { WeightMonotone(i, j - 1); } else { ScaleMonotone(1, 0, i); }
  }

  // ---- Values of words ----

  lemma ValPrefix(s: seq<Bigit>, i: nat)
    requires i < |s|
    ensures Val(s[..i + 1]) == Val(s[..i]) + Scale(s[i], i)
  {
    assert s[..i + 1][..i] == s[..i];
  }

  lemma ValSnoc(s: seq<Bigit>, c: Bigit)
    ensures Val(s + [c]) == Val(s) + Scale(c, |s|)
  {
    assert (s + [c])[..|s|] == s;
  }

  lemma {:induction false} ValBound(s: seq<Bigit>)
    ensures 0 <= Val(s) < Weight(|s|)
  {
    if s != [] {
      var k := |s| - 1;
      ValBound(s[..k]);
      ScaleZero(k);
      ScaleMonotone(0, s[k], k);
      ScaleMonotone(s[k], 0xFFFF_FFFF, k);
      ScaleAdd(0xFFFF_FFFF, 1, k);
      ScaleScale(1, 1, k);
    }
  }

  // The integer splits into the words below and the words from position i on.
  lemma {:induction false} ValSplit(s: seq<Bigit>, i: nat)
    requires i <= |s|
    ensures Val(s) == Val(s[..i]) + Scale(Val(s[i..]), i)
    decreases |s|
  {
    if i == |s| {
      assert s[..i] == s;
      ScaleZero(i);
    } else {
      var k := |s| - 1;
      ValSplit(s[..k], i);
      assert s[..k][..i] == s[..i];
      assert s[i..][..k - i] == s[..k][i..];
      ScaleAdd(Val(s[i..][..k - i]), Scale(s[k], k - i), i);
      ScaleScale(s[k], k - i, i);
    }
  }

  // A non-zero top word bounds the integer from below.
  lemma ValTop(s: seq<Bigit>)
    requires NonZeroTop(s)
    ensures Val(s) >= Weight(|s| - 1)
  {
    ValBound(s[..|s| - 1]);
    ScaleMonotone(1, s[|s| - 1], |s| - 1);
  }

  lemma {:induction false} ValZeros(s: seq<Bigit>)
    requires forall k :: 0 <= k < |s| ==> s[k] == 0
    ensures Val(s) == 0
  {
    if s != [] {
      ValZeros(s[..|s| - 1]);
      ScaleZero(|s| - 1);
    }
  }

  // Changing one word changes the integer by the difference, moved to its position.
  lemma ValUpdate(s: seq<Bigit>, i: nat, x: Bigit)
    requires i < |s|
    ensures Val(s[i := x]) == Val(s) + Scale(x - s[i], i)
  {
    var t := s[i := x];
    assert t[..i] == s[..i] && t[i + 1..] == s[i + 1..];
    ValSplit(s, i + 1);
    ValSplit(t, i + 1);
    ValPrefix(s, i);
    ValPrefix(t, i);
    ScaleAdd(x - s[i], s[i], i);
  }

  lemma ValueBound(s: seq<Bigit>, e: nat)
    ensures 0 <= ValueOf(s, e) < Weight(|s| + e)
  {
    ValBound(s);
    ScaleScale(1, |s|, e);
    ScaleZero(e);
    ScaleMonotone(0, Val(s), e);
    ScaleMonotone(Weight(|s|), Val(s), e);
  }

  lemma ValueTop(s: seq<Bigit>, e: nat)
    requires NonZeroTop(s)
    ensures ValueOf(s, e) >= Weight(|s| - 1 + e) > 0
  {
    ValTop(s);
    ScaleScale(1, |s| - 1, e);
    ScaleMonotone(Weight(|s| - 1), Val(s), e);
    WeightMonotone(|s| - 1 + e, |s| - 1 + e);
  }

  // A value at least as large as a position's weight has a word at that position or above.
  lemma TopFromValue(s: seq<Bigit>, e: nat, k: nat)
    requires ValueOf(s, e) >= Weight(k)
    ensures |s| + e > k
    ensures |s| + e == k + 1 && s != [] ==> NonZeroTop(s)
  {
    ValueBound(s, e);
    if |s| + e <= k { WeightMonotone(|s| + e, k); }
    if |s| + e == k + 1 && s != [] && s[|s| - 1] == 0 {
      ScaleZero(|s| - 1);
      ValueBound(s[..|s| - 1], e);
    }
  }

  lemma ZeroWord(s: seq<Bigit>, e: nat)
    requires SingleZero(s)
    ensures ValueOf(s, e) == 0
  {
    ValZeros(s);
    ScaleZero(e);
  }

  // ---- The part of a number at and above a position ----

  function High(s: seq<Bigit>, e: nat, p: nat): int
    decreases |s| + e - p
  {
    if p >= |s| + e then 0
    else 0x1_0000_0000 * High(s, e, p + 1) + WordAt(s, e, p)
  }

  lemma {:induction false} HighWords(s: seq<Bigit>, e: nat, p: nat)
    ensures p >= e + |s| ==> High(s, e, p) == 0
    ensures e <= p < e + |s| ==> High(s, e, p) == Val(s[p - e..])
    ensures p < e ==> High(s, e, p) == Scale(Val(s), e - p)
    decreases |s| + e - p
  {
    if p < e + |s| { HighWords(s, e, p + 1); }
    if e <= p < e + |s| {
      var t := s[p - e..];
      ValSplit(t, 1);
      assert t[..1] == [] + [s[p - e]];
      ValSnoc([], s[p - e]);
      assert t[1..] == s[p + 1 - e..];
      if p + 1 == e + |s| { assert t[1..] == []; }
      assert Scale(Val(t[1..]), 1) == 0x1_0000_0000 * Scale(Val(t[1..]), 0);
    } else if p < e && s == [] {
      ScaleZero(e - p);
    } else if p + 1 == e {
      assert s[p + 1 - e..] == s;
      assert Scale(Val(s), 1) == 0x1_0000_0000 * Scale(Val(s), 0);
    }
  }

  // What remains below position p is less than one unit of that position, and nothing
  // remains when the number does not reach below it.
  lemma HighBound(s: seq<Bigit>, e: nat, p: nat)
    ensures Scale(High(s, e, p), p) <= ValueOf(s, e) < Scale(High(s, e, p) + 1, p)
    ensures p <= e ==> ValueOf(s, e) == Scale(High(s, e, p), p)
  {
    HighWords(s, e, p);
    ScaleAdd(High(s, e, p), 1, p);
    WeightMonotone(p, p);
    if p >= e + |s| {
      ValueBound(s, e);
      WeightMonotone(|s| + e, p);
      ScaleZero(p);
      if p == e { assert s == []; }
    } else if p >= e {
      var i := p - e;
      ValSplit(s, i);
      ValueBound(s[..i], e);
      ScaleAdd(Val(s[..i]), Scale(Val(s[i..]), i), e);
      ScaleScale(Val(s[i..]), i, e);
      if p == e {
        assert s[..i] == [];
        ScaleZero(e);
      }
    } else {
      ScaleScale(Val(s), e - p, p);
    }
  }
}
