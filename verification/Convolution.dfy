// The square of a bigit sequence as the sum of its anti-diagonals.
module Convolution {
  import opened Words
  import opened Powers
  import opened Limbs
  import opened BigintSteps

  // The products n[t] * n[k - t] with t < i, where k - t is a valid index.
  ghost function Cross(n: seq<Bigit>, k: nat, i: nat): nat
    requires i <= |n|
  {
    if i == 0 then 0
    else
      ProductBound(n[i - 1] as int, BigitAt(n, i - 1, k) as int, BASE - 1);
      Cross(n, k, i - 1) + n[i - 1] * BigitAt(n, i - 1, k)
  }

  // The first k anti-diagonals, restricted to the first i rows.
  ghost function Diagonals(n: seq<Bigit>, i: nat, k: nat): int
    requires i <= |n|
  {
    if k == 0 then 0 else Diagonals(n, i, k - 1) + Cross(n, k - 1, i) * Weight(k - 1)
  }

  lemma {:induction false} NoRows(n: seq<Bigit>, k: nat)
    ensures Diagonals(n, 0, k) == 0
  {
    if k == 0 {
    } else {
      NoRows(n, k - 1);
    }
  }

  // One more row adds n, moved up by i and multiplied by n[i].
  lemma {:induction false} AddRow(n: seq<Bigit>, t: seq<Bigit>, i: nat, k: nat)
    requires i < |n| && k <= |t|
    requires forall p :: 0 <= p < |t| ==> t[p] == BigitAt(n, i, p)
    ensures Diagonals(n, i + 1, k) == Diagonals(n, i, k) + n[i] * Sum(t, k)
  {
    if k == 0 {
    } else {
      AddRow(n, t, i, k - 1);
      assert t[k - 1] == BigitAt(n, i, k - 1);
      RowTerm(Cross(n, k - 1, i), n[i] as int, Sum(t, k - 1), t[k - 1] as int, Weight(k - 1));
    }
  }

  lemma RowTerm(c: int, a: int, s: int, b: int, w: int)
    ensures (c + a * b) * w + a * s == c * w + a * (s + b * w)
  {
    MulDistribute(c, a * b, w);
    MulDistribute(s, b * w, a);
    MulAssoc(a, b, w);
  }

  lemma {:induction false} RowsAreProducts(n: seq<Bigit>, i: nat)
    requires i <= |n|
    ensures Diagonals(n, i, 2 * |n|) == Sum(n, i) * Sum(n, |n|)
  {
    if i == 0 {
      NoRows(n, 2 * |n|);
    } else {
      RowsAreProducts(n, i - 1);
      var t := Window(n, i - 1, 0, 2 * |n|);
      AddRow(n, t, i - 1, 2 * |n|);
      PaddedSum(n, t, i - 1, 2 * |n|);
      var s, w := Sum(n, |n|), Weight(i - 1);
      Factor(Sum(n, i - 1), n[i - 1] as int, s, w);
    }
  }

  lemma Factor(p: int, b: int, s: int, w: int)
    ensures p * s + b * (s * w) == (p + b * w) * s
  {
    MulDistribute(p, b * w, s);
    MulAssoc(b, w, s);
  }

  // All the anti-diagonals together are the square.
  lemma DiagonalsAreSquare(n: seq<Bigit>)
    ensures Diagonals(n, |n|, 2 * |n|) == Sum(n, |n|) * Sum(n, |n|)
  {
    RowsAreProducts(n, |n|);
  }

  // Rows outside lo <= t < hi contribute nothing to anti-diagonal k.
  lemma {:induction false} CrossOutside(n: seq<Bigit>, k: nat, lo: nat, hi: nat)
    requires lo <= hi <= |n|
    requires forall t :: lo <= t < hi ==> BigitAt(n, t, k) == 0
    ensures Cross(n, k, hi) == Cross(n, k, lo)
    decreases hi
  {
    if lo == hi {
    } else {
      CrossOutside(n, k, lo, hi - 1);
    }
  }

  lemma {:induction false} CrossBound(n: seq<Bigit>, k: nat, i: nat)
    requires i <= |n|
    ensures Cross(n, k, i) <= i * ((BASE - 1) * (BASE - 1))
  {
    if i == 0 {
    } else {
      CrossBound(n, k, i - 1);
      ProductBound(n[i - 1] as int, BigitAt(n, i - 1, k) as int, BASE - 1);
      MulDistribute(i - 1, 1, (BASE - 1) * (BASE - 1));
    }
  }

  // The sum of one anti-diagonal and the carry fits 128 bits, and leaves a
  // carry as small as the one that came in.
  lemma AccumulatorBound(n: seq<Bigit>, k: nat, carry: nat, i: nat)
    requires |n| <= 0x7fff_ffff && i <= |n| && carry <= |n| * BASE
    ensures carry + Cross(n, k, i) < U64 * U64
    ensures (carry + Cross(n, k, i)) / BASE <= |n| * BASE
  {
    CrossBound(n, k, i);
    MulLe(i, |n|, (BASE - 1) * (BASE - 1));
    MulDistribute(BASE * BASE, (BASE - 1) * (BASE - 1) + BASE, |n|);
    MulLe((BASE - 1) * (BASE - 1) + BASE, BASE * BASE, |n|);
    MulDistribute((BASE - 1) * (BASE - 1), BASE, |n|);
    MulLe(|n|, 0x7fff_ffff, BASE * BASE);
    MulAssoc(|n|, BASE, BASE);
    QuotientBound(carry + Cross(n, k, i), |n| * BASE);
  }

  lemma QuotientBound(a: nat, m: nat)
    requires a <= m * BASE
    ensures a / BASE <= m
  {
  }
}
