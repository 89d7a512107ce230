// Little-endian sequences of 32-bit "bigits" and the number they denote.
module Limbs {
  import opened Words
  import opened Powers

  const BASE: nat := U32

  type Bigit = x: int | 0 <= x < BASE

  // Weight of the bigit at index i.
  ghost function Weight(i: nat): (w: nat)
    ensures w > 0
  {
    PowPositive(BASE, i);
    Pow(BASE, i)
  }

  // The number denoted by the n lowest bigits.
  ghost function Sum(s: seq<Bigit>, n: nat): nat
    requires n <= |s|
  {
    if n == 0 then 0 else Sum(s, n - 1) + s[n - 1] * Weight(n - 1)
  }

  lemma WeightNext(i: nat)
    ensures Weight(i + 1) == BASE * Weight(i)
  {
  }

  lemma WeightAdd(i: nat, j: nat)
    ensures Weight(i + j) == Weight(i) * Weight(j)
  {
    PowAdd(BASE, i, j);
  }

  lemma WeightMonotone(i: nat, j: nat)
    requires i <= j
    ensures Weight(i) <= Weight(j)
  {
    PowMonotone(BASE, i, j);
  }

  lemma {:induction false} SumBound(s: seq<Bigit>, n: nat)
    requires n <= |s|
    ensures Sum(s, n) < Weight(n)
  {
    if n == 0 {
    } else {
      SumBound(s, n - 1);
      MulLe(s[n - 1] as int + 1, BASE, Weight(n - 1));
      assert (s[n - 1] as int + 1) * Weight(n - 1) == s[n - 1] * Weight(n - 1) + Weight(n - 1);
    }
  }

  // A nonzero top bigit makes the number at least the weight of that bigit.
  lemma SumAtLeast(s: seq<Bigit>, n: nat)
    requires 0 < n <= |s| && s[n - 1] != 0
    ensures Sum(s, n) >= Weight(n - 1)
  {
    MulLe(1, s[n - 1], Weight(n - 1));
  }

  lemma {:induction false} SumFrame(s: seq<Bigit>, t: seq<Bigit>, n: nat)
    requires n <= |s| && n <= |t|
    requires forall k :: 0 <= k < n ==> s[k] == t[k]
    ensures Sum(s, n) == Sum(t, n)
  {
    if n == 0 {
    } else {
      SumFrame(s, t, n - 1);
    }
  }

  lemma {:induction false} SumMonotone(s: seq<Bigit>, m: nat, n: nat)
    requires m <= n <= |s|
    ensures Sum(s, m) <= Sum(s, n)
    decreases n
  {
    if m == n {
    } else {
      SumMonotone(s, m, n - 1);
      MulLe(0, s[n - 1], Weight(n - 1));
    }
  }

  // Bigits that agree from m on contribute the same.
  lemma {:induction false} SumTail(s: seq<Bigit>, t: seq<Bigit>, m: nat, n: nat)
    requires m <= n <= |s| && n <= |t|
    requires forall k :: m <= k < n ==> s[k] == t[k]
    ensures Sum(s, n) - Sum(s, m) == Sum(t, n) - Sum(t, m)
    decreases n
  {
    if m == n {
    } else {
      SumTail(s, t, m, n - 1);
    }
  }

  // Zero bigits on top add nothing; conversely a sum that does not grow has
  // only zero bigits on top.
  lemma {:induction false} SumZeroTop(s: seq<Bigit>, m: nat, n: nat)
    requires m <= n <= |s|
    ensures (forall k :: m <= k < n ==> s[k] == 0) <==> Sum(s, n) == Sum(s, m)
    decreases n
  {
    if m == n {
    } else {
      SumZeroTop(s, m, n - 1);
      SumMonotone(s, m, n - 1);
      if s[n - 1] != 0 {
        MulLe(1, s[n - 1], Weight(n - 1));
      }
    }
  }

  // d zero bigits below s multiply its number by the weight of index d.
  lemma {:induction false} SumShift(s: seq<Bigit>, t: seq<Bigit>, d: nat, n: nat)
    requires n <= |s| && n + d <= |t|
    requires forall k :: 0 <= k < d ==> t[k] == 0
    requires forall k :: 0 <= k < n ==> t[k + d] == s[k]
    ensures Sum(t, n + d) == Sum(s, n) * Weight(d)
  {
    if n == 0 {
      SumZeroTop(t, 0, d);
    } else {
      SumShift(s, t, d, n - 1);
      WeightAdd(n - 1, d);
      assert t[n - 1 + d] == s[n - 1];
      MulAssoc(s[n - 1], Weight(n - 1), Weight(d));
      MulDistribute(Sum(s, n - 1), s[n - 1] * Weight(n - 1), Weight(d));
    }
  }

  // Splits a sum at index d: the part above d, moved down, times its weight.
  lemma {:induction false} SumSplit(s: seq<Bigit>, d: nat, n: nat)
    requires d <= n <= |s|
    ensures Sum(s, n) == Sum(s, d) + Sum(s[d..], n - d) * Weight(d)
    decreases n
  {
    if n == d {
    } else {
      SumSplit(s, d, n - 1);
      WeightAdd(n - 1 - d, d);
      assert s[d..][n - 1 - d] == s[n - 1];
      MulAssoc(s[n - 1], Weight(n - 1 - d), Weight(d));
      MulDistribute(Sum(s[d..], n - 1 - d), s[n - 1] * Weight(n - 1 - d), Weight(d));
    }
  }

  // The bigit of s, placed at exponent exp, at absolute position i.
  function BigitAt(s: seq<Bigit>, exp: nat, i: nat): Bigit {
    if exp <= i < exp + |s| then s[i - exp] else 0
  }

  // The n absolute positions from `lowest` on.
  ghost function Window(s: seq<Bigit>, exp: nat, lowest: nat, n: nat): (t: seq<Bigit>)
    ensures |t| == n
  {
    seq<Bigit>(n, (k: nat) => BigitAt(s, exp, lowest + k))
  }

  lemma WindowAt(s: seq<Bigit>, exp: nat, lowest: nat, n: nat, i: nat)
    requires lowest <= i < lowest + n
    ensures Window(s, exp, lowest, n)[i - lowest] == BigitAt(s, exp, i)
  {
    assert lowest + (i - lowest) == i;
  }

  lemma WindowSum(s: seq<Bigit>, exp: nat, lowest: nat, n: nat)
    requires lowest <= exp && exp + |s| <= lowest + n
    ensures Sum(Window(s, exp, lowest, n), n) * Weight(lowest) == Sum(s, |s|) * Weight(exp)
  {
    var t, d := Window(s, exp, lowest, n), exp - lowest;
    forall k | 0 <= k < n
      ensures t[k] == BigitAt(s, d, k)
    {
      WindowAt(s, exp, lowest, n, lowest + k);
    }
    PaddedSum(s, t, d, n);
    WeightAdd(d, lowest);
    MulAssoc(Sum(s, |s|), Weight(d), Weight(lowest));
  }

  lemma PaddedSum(s: seq<Bigit>, t: seq<Bigit>, d: nat, n: nat)
    requires d + |s| <= n == |t|
    requires forall k :: 0 <= k < n ==> t[k] == BigitAt(s, d, k)
    ensures Sum(t, n) == Sum(s, |s|) * Weight(d)
  {
    assert forall k :: |s| + d <= k < n ==> t[k] == 0;
    SumZeroTop(t, |s| + d, n);
    SumShift(s, t, d, |s|);
  }

  // The highest differing bigit decides.
  lemma TopDecides(s: seq<Bigit>, t: seq<Bigit>, k: nat)
    requires k < |s| == |t|
    requires s[k] < t[k]
    requires forall i :: k < i < |s| ==> s[i] == t[i]
    ensures Sum(s, |s|) < Sum(t, |t|)
  {
    SumTail(s, t, k + 1, |s|);
    SumBound(s, k);
    MulLe(s[k] as int + 1, t[k] as int, Weight(k));
    MulDistribute(s[k] as int, 1, Weight(k));
  }
}
