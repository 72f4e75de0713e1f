// Schoolbook products column by column: column k collects the word products whose positions
// add up to k, and all columns together make the product.

module Columns {
  import opened Powers
  import opened Words

  function At(t: seq<Bigit>, j: int): Bigit {
    if 0 <= j < |t| then t[j] else 0
  }

  function Col(s: seq<Bigit>, t: seq<Bigit>, k: nat): int {
    if s == [] then 0
    else Col(s[..|s| - 1], t, k) + s[|s| - 1] * At(t, k - (|s| - 1))
  }

  function SumCols(s: seq<Bigit>, t: seq<Bigit>, n: nat): int {
    if n == 0 then 0 else SumCols(s, t, n - 1) + Scale(Col(s, t, n - 1), n - 1)
  }

  // One row of the product: the words of t moved up by m, summed over the first n columns.
  function Row(t: seq<Bigit>, m: nat, n: nat): int {
    if n == 0 then 0 else Row(t, m, n - 1) + Scale(At(t, n - 1 - m), n - 1)
  }

  lemma ColSnoc(s: seq<Bigit>, t: seq<Bigit>, i: nat, k: nat)
    requires i < |s|
    ensures Col(s[..i + 1], t, k) == Col(s[..i], t, k) + s[i] * At(t, k - i)
  {
    assert s[..i + 1][..i] == s[..i];
  }

  lemma {:induction false} RowValue(t: seq<Bigit>, m: nat, n: nat)
    ensures n <= m ==> Row(t, m, n) == 0
    ensures m <= n <= m + |t| ==> Row(t, m, n) == Scale(Val(t[..n - m]), m)
    ensures n >= m + |t| ==> Row(t, m, n) == Scale(Val(t), m)
  {
    ScaleZero(m);
    assert t[..|t|] == t;
    if n == 0 {
      if m == 0 { assert t[..0] == []; }
    } else {
      RowValue(t, m, n - 1);
      ScaleZero(n - 1);
      if n == m { assert t[..0] == []; }
      if m < n <= m + |t| {
        var i := n - 1 - m;
        ValPrefix(t, i);
        ScaleAdd(Val(t[..i]), Scale(t[i], i), m);
        ScaleScale(t[i], i, m);
      }
    }
  }

  lemma {:induction false} AddRow(s: seq<Bigit>, t: seq<Bigit>, n: nat)
    requires s != []
    ensures SumCols(s, t, n) == SumCols(s[..|s| - 1], t, n) + Row(t, |s| - 1, n) * s[|s| - 1]
  {
    if n > 0 {
      var m, x, k := |s| - 1, s[|s| - 1], n - 1;
      AddRow(s, t, k);
      AddToColumn(Col(s[..m], t, k), At(t, k - m), x, k, Row(t, m, k));
    }
  }

  lemma AddToColumn(col: int, a: int, x: int, k: nat, row: int)
    ensures Scale(col + x * a, k) + row * x == Scale(col, k) + (row + Scale(a, k)) * x
  {
    ScaleAdd(col, a * x, k);
    ScaleMul(x, a, k);
    Distribute(row, Scale(a, k), x);
  }

  // The columns add up to the product.
  lemma {:induction false} ColumnsMakeProduct(s: seq<Bigit>, t: seq<Bigit>, n: nat)
    requires n >= |s| + |t|
    ensures SumCols(s, t, n) == Val(s) * Val(t)
  {
    if s == [] {
      EmptyColumns(t, n);
    } else {
      var m, x := |s| - 1, s[|s| - 1];
      ColumnsMakeProduct(s[..m], t, n);
      AddRow(s, t, n);
      RowValue(t, m, n);
      ScaleMul(x, Val(t), m);
      ScaleMul(Val(t), x, m);
      Distribute(Val(s[..m]), Scale(x, m), Val(t));
    }
  }

  lemma {:induction false} EmptyColumns(t: seq<Bigit>, n: nat)
    ensures SumCols([], t, n) == 0
  {
    if n > 0 {
      EmptyColumns(t, n - 1);
      ScaleZero(n - 1);
    }
  }

  // Word positions above k contribute nothing to column k.
  lemma {:induction false} ColUpTo(s: seq<Bigit>, t: seq<Bigit>, i: nat, k: nat)
    requires k < i <= |s|
    ensures Col(s, t, k) == Col(s[..i], t, k)
    decreases |s|
  {
    if i == |s| {
      assert s[..i] == s;
    } else {
      ColUpTo(s[..|s| - 1], t, i, k);
      assert s[..|s| - 1][..i] == s[..i];
    }
  }

  // Neither do positions so low that the partner would lie beyond the top of t.
  lemma {:induction false} ColFrom(s: seq<Bigit>, t: seq<Bigit>, i: nat, k: nat)
    requires i <= |s| && i + |t| <= k + 1
    ensures Col(s[..i], t, k) == 0
  {
    if i > 0 {
      ColFrom(s, t, i - 1, k);
      ColSnoc(s, t, i - 1, k);
    }
  }

  lemma SquareBound(s: seq<Bigit>)
    ensures Val(s) * Val(s) < Weight(2 * |s|)
  {
    ValBound(s);
    MulMonotone(Val(s), Val(s), Weight(|s|));
    MulStrict(Weight(|s|), Val(s), Weight(|s|));
    ScaleScale(1, |s|, |s|);
    ScaleMul(Weight(|s|), 1, |s|);
  }

  // The low word of a column's sum is stored and the rest is carried into the next column.
  lemma ColumnStep(n: seq<Bigit>, t: seq<Bigit>, k: nat, carry: nat, sum: nat)
    requires k < |t| && t[k] == sum % 0x1_0000_0000
    requires Val(t[..k]) + Scale(carry, k) == SumCols(n, n, k)
    requires sum == carry + Col(n, n, k)
    ensures Val(t[..k + 1]) + Scale(sum / 0x1_0000_0000, k + 1) == SumCols(n, n, k + 1)
  {
    ValPrefix(t, k);
    var hi := sum / 0x1_0000_0000;
    ScaleScale(hi, 1, k);
    assert Scale(hi, 1) == 0x1_0000_0000 * Scale(hi, 0);
    ScaleAdd(t[k], 0x1_0000_0000 * hi, k);
    ScaleAdd(carry, Col(n, n, k), k);
  }

  lemma NoFinalCarry(n: seq<Bigit>, t: seq<Bigit>, carry: nat)
    requires |t| == 2 * |n|
    requires Val(t) + Scale(carry, |t|) == SumCols(n, n, |t|)
    ensures Val(t) == SumCols(n, n, |t|)
  {
    ColumnsMakeProduct(n, n, |t|);
    SquareBound(n);
    ValBound(t);
    ScaleZero(|t|);
    ScaleMonotone(1, carry, |t|);
  }

  lemma SquareValue(s: Stored, t: Stored)
    requires Val(t.words) == SumCols(s.words, s.words, 2 * |s.words|) && t.exp == 2 * s.exp
    ensures t.Value() == s.Value() * s.Value()
  {
    ColumnsMakeProduct(s.words, s.words, 2 * |s.words|);
    SquareScaled(Val(s.words), s.exp);
  }

  lemma SquareScaled(v: int, e: nat)
    ensures Scale(v * v, 2 * e) == Scale(v, e) * Scale(v, e)
  {
    ScaleScale(v * v, e, e);
    ScaleMul(v, v, e);
    ScaleMul(Scale(v, e), v, e);
    ScaleMul(v, Scale(v, e), e);
  }
}
