// Facts about bigit sequences, step by step as the bigint operations need
// them. Nothing here mentions the heap.
module BigintSteps {
  import opened Words
  import opened Powers
  import opened Limbs

  function Sign(x: int): (s: int)
  {
    if x < 0 then -1 else if x == 0 then 0 else 1
  }

  // What `Compare` answers for any two operands.
  ghost function Comparison(l: seq<Bigit>, le: nat, r: seq<Bigit>, re: nat): int {
    var x, y := Sum(l, |l|) * Weight(le), Sum(r, |r|) * Weight(re);
    if |l| + le != |r| + re then Sign(|l| + le - |r| - re)
    else if x != y then Sign(x - y)
    else Sign(re - le)
  }

  lemma FirstDifference(l: seq<Bigit>, le: nat, r: seq<Bigit>, re: nat, i: nat, j: nat)
    requires |l| + le == |r| + re && i + le == j + re
    requires i < |l| && j < |r| && l[i] < r[j]
    requires l[i + 1..] == r[j + 1..]
    ensures Sum(l, |l|) * Weight(le) < Sum(r, |r|) * Weight(re)
  {
    var low := if le < re then le else re;
    var n := |l| + le - low;
    WindowSum(l, le, low, n);
    WindowSum(r, re, low, n);
    WindowsDiffer(l, le, r, re, i, j, low);
    MulLt(Sum(Window(l, le, low, n), n), Sum(Window(r, re, low, n), n), Weight(low));
  }

  lemma WindowsDiffer(l: seq<Bigit>, le: nat, r: seq<Bigit>, re: nat, i: nat, j: nat, low: nat)
    requires |l| + le == |r| + re && i + le == j + re && low <= le && low <= re
    requires i < |l| && j < |r| && l[i] < r[j] && l[i + 1..] == r[j + 1..]
    ensures var n := |l| + le - low; Sum(Window(l, le, low, n), n) < Sum(Window(r, re, low, n), n)
  {
    var n := |l| + le - low;
    var x, y, top := Window(l, le, low, n), Window(r, re, low, n), i + le - low;
    WindowAt(l, le, low, n, i + le);
    WindowAt(r, re, low, n, j + re);
    assert x[top] == l[i] && y[top] == r[j];
    forall p | top < p < |x|
      ensures x[p] == y[p]
    {
      WindowAt(l, le, low, n, low + p);
      WindowAt(r, re, low, n, low + p);
      AgreeAbove(l, le, r, re, i, j, low + p);
      assert low + p - low == p;
    }
    TopDecides(x, y, top);
  }

  lemma AgreeAbove(l: seq<Bigit>, le: nat, r: seq<Bigit>, re: nat, i: nat, j: nat, p: nat)
    requires |l| + le == |r| + re && i + le == j + re < p
    requires i < |l| && j < |r| && l[i + 1..] == r[j + 1..]
    ensures BigitAt(l, le, p) == BigitAt(r, re, p)
  {
    if p < |l| + le {
      assert l[i + 1..][p - le - i - 1] == r[j + 1..][p - re - j - 1];
    }
  }

  lemma LongerIsNotSmaller(l: seq<Bigit>, le: nat, r: seq<Bigit>, re: nat)
    requires |l| + le == |r| + re && le <= re
    requires l[re - le..] == r
    ensures Sum(l, |l|) * Weight(le) >= Sum(r, |r|) * Weight(re)
  {
    var d := re - le;
    SumSplit(l, d, |l|);
    WeightAdd(d, le);
    MulDistribute(Sum(l, d), Sum(r, |r|) * Weight(d), Weight(le));
    MulAssoc(Sum(r, |r|), Weight(d), Weight(le));
  }

  lemma FirstDifferenceDecides(l: seq<Bigit>, le: nat, r: seq<Bigit>, re: nat, i: nat, j: nat)
    requires |l| + le == |r| + re && i + le == j + re
    requires i < |l| && j < |r| && l[i] < r[j] && l[i + 1..] == r[j + 1..]
    ensures Comparison(l, le, r, re) == -1 && Comparison(r, re, l, le) == 1
  {
    FirstDifference(l, le, r, re, i, j);
  }

  lemma LengthDecides(l: seq<Bigit>, le: nat, r: seq<Bigit>, re: nat)
    requires |l| + le == |r| + re && le <= re && l[re - le..] == r
    ensures le < re ==> Comparison(l, le, r, re) == 1 && Comparison(r, re, l, le) == -1
    ensures le == re ==> Comparison(l, le, r, re) == 0
  {
    LongerIsNotSmaller(l, le, r, re);
    if le == re {
      assert l[0..] == l;
    }
  }

  // The borrow left after the aligned bigits meets a zero bigit.
  ghost predicate BorrowMeetsZero(was: seq<Bigit>, other: seq<Bigit>, d: nat) {
    var i := d + |other|;
    i < |was| && was[i] == 0 && Sum(was, i) < Sum(other, |other|) * Weight(d)
  }

  // What is added by mistake when a borrow meets a zero bigit at position i.
  ghost function Excess(i: nat): int {
    Weight(i + 1) - Weight(i)
  }

  ghost function Owed(borrow: Bigit, i: nat): nat {
    if borrow == 0 then 0 else Weight(i)
  }

  lemma AlignedSizes(was: seq<Bigit>, other: seq<Bigit>, exp: nat, otherExp: nat)
    requires exp <= otherExp && |other| > 0 && other[|other| - 1] != 0
    requires Sum(was, |was|) * Weight(exp) >= Sum(other, |other|) * Weight(otherExp)
    ensures otherExp - exp + |other| <= |was|
    ensures Sum(was, |was|) >= Sum(other, |other|) * Weight(otherExp - exp)
  {
    var d := otherExp - exp;
    WeightAdd(d, exp);
    MulAssoc(Sum(other, |other|), Weight(d), Weight(exp));
    MulCancelLe(Sum(other, |other|) * Weight(d), Sum(was, |was|), Weight(exp));
    SumAtLeast(other, |other|);
    MulLe(Weight(|other| - 1), Sum(other, |other|), Weight(d));
    WeightAdd(|other| - 1, d);
    SumBound(was, |was|);
    if |was| < d + |other| {
      WeightMonotone(|was|, d + |other| - 1);
    }
  }

  lemma SubtractStep(was: seq<Bigit>, before: seq<Bigit>, now: seq<Bigit>, other: seq<Bigit>,
                     d: nat, j: nat, borrow: Bigit, borrow': Bigit)
    requires j < |other| && d + |other| <= |was| == |before| == |now| && borrow <= 1 && borrow' <= 1
    requires Sum(before, d + j) - Owed(borrow, d + j) == Sum(was, d + j) - Sum(other, j) * Weight(d)
    requires forall k :: 0 <= k < d + j ==> now[k] == before[k]
    requires now[d + j] as int - borrow' * BASE == was[d + j] as int - other[j] - borrow
    ensures Sum(now, d + j + 1) - Owed(borrow', d + j + 1) == Sum(was, d + j + 1) - Sum(other, j + 1) * Weight(d)
  {
    SumFrame(before, now, d + j);
    SubtractColumn(was[d + j] as int, now[d + j] as int, other[j] as int, borrow as int, borrow' as int, Weight(d + j));
    WeightAdd(j, d);
    MulAssoc(other[j] as int, Weight(j), Weight(d));
    MulDistribute(Sum(other, j), other[j] * Weight(j), Weight(d));
    WeightNext(d + j);
  }

  lemma SubtractColumn(was: int, now: int, other: int, borrow: int, borrow': int, w: int)
    requires 0 <= borrow <= 1 && 0 <= borrow' <= 1
    requires now - borrow' * BASE == was - other - borrow
    ensures now * w - (if borrow' == 0 then 0 else BASE * w) == was * w - other * w - (if borrow == 0 then 0 else w)
  {
    MulDistribute(now, borrow' * BASE, w);
    MulDistribute(was - other, borrow, w);
    MulDistribute(was, other, w);
  }

  // After the aligned bigits a borrow is owed exactly when the low part was
  // too small, and then there is still a bigit to take it from.
  lemma LastBorrow(was: seq<Bigit>, low: seq<Bigit>, i: nat, target: nat, borrow: Bigit)
    requires |low| == |was| && i <= |was| && borrow <= 1
    requires Sum(low, i) - Owed(borrow, i) == Sum(was, i) - target
    requires Sum(was, |was|) >= target
    ensures borrow == 1 <==> Sum(was, i) < target
    ensures borrow == 1 ==> i < |was|
  {
    SumBound(low, i);
  }

  // What the propagation loop leaves: the difference, too large by one less
  // than a whole bigit position when the borrow met a zero bigit.
  lemma SubtractTotal(was: seq<Bigit>, low: seq<Bigit>, now: seq<Bigit>, other: seq<Bigit>, d: nat, exp: nat, borrow: Bigit)
    requires d + |other| <= |was| == |low| == |now| && borrow <= 1
    requires Sum(low, d + |other|) - Owed(borrow, d + |other|) == Sum(was, d + |other|) - Sum(other, |other|) * Weight(d)
    requires borrow == 1 <==> Sum(was, d + |other|) < Sum(other, |other|) * Weight(d)
    requires forall k :: 0 <= k < |was| && k != d + |other| ==> now[k] == if k < d + |other| then low[k] else was[k]
    requires borrow == 0 && d + |other| < |was| ==> now[d + |other|] == was[d + |other|]
    requires borrow == 1 ==> d + |other| < |was|
    requires borrow == 1 ==> now[d + |other|] as int == if was[d + |other|] == 0 then BASE - 2 else was[d + |other|] as int - 1
    ensures Sum(now, |now|) * Weight(exp) ==
            Sum(was, |was|) * Weight(exp) - Sum(other, |other|) * Weight(d + exp) +
            if BorrowMeetsZero(was, other, d) then Excess(d + |other| + exp) else 0
  {
    var i := d + |other|;
    var stuck := BorrowMeetsZero(was, other, d);
    SumFrame(now, low, i);
    if i < |was| {
      SumTail(now, was, i + 1, |was|);
      BorrowArithmetic(was[i] as int, now[i] as int, borrow, Weight(i));
      WeightNext(i);
    }
    ScaledDifference(Sum(was, |was|), Sum(now, |was|), other, d, exp, if stuck then i else -1);
  }

  lemma BorrowArithmetic(was: int, now: int, borrow: int, w: int)
    requires 0 <= borrow <= 1
    requires now == if borrow == 0 then was else if was == 0 then BASE - 2 else was - 1
    ensures now * w == was * w - (if borrow == 0 then 0 else w) + if borrow == 1 && was == 0 then BASE * w - w else 0
  {
    MulDistribute(was, 1, w);
    MulDistribute(BASE, 2, w);
  }

  lemma ScaledDifference(was: nat, now: nat, other: seq<Bigit>, d: nat, exp: nat, stuck: int)
    requires now == was - Sum(other, |other|) * Weight(d) + if stuck >= 0 then Excess(stuck) else 0
    ensures now * Weight(exp) == was * Weight(exp) - Sum(other, |other|) * Weight(d + exp) +
                                 if stuck >= 0 then Excess(stuck + exp) else 0
  {
    var t, e := Sum(other, |other|), Weight(exp);
    WeightAdd(d, exp);
    MulAssoc(t, Weight(d), e);
    MulDistribute(was, t * Weight(d), e);
    if stuck >= 0 {
      WeightAdd(stuck, exp);
      WeightAdd(stuck + 1, exp);
      MulDistribute(was - t * Weight(d), Excess(stuck), e);
      MulDistribute(Weight(stuck + 1), Weight(stuck), e);
    }
  }

  // A sum that reaches the weight of its top bigit has a nonzero top bigit.
  lemma TopNonzero(s: seq<Bigit>)
    requires |s| > 0 && Sum(s, |s|) >= Weight(|s| - 1)
    ensures s[|s| - 1] != 0
  {
    SumBound(s, |s| - 1);
  }

  // One column of a pass that multiplies by `value`.
  lemma MultiplyStep(was: seq<Bigit>, before: seq<Bigit>, now: seq<Bigit>, value: nat, i: nat, carry: nat, carry': nat)
    requires i < |was| == |before| == |now|
    requires Sum(before, i) + carry * Weight(i) == value * Sum(was, i)
    requires forall k :: 0 <= k < i ==> now[k] == before[k]
    requires now[i] as int + carry' * BASE == was[i] * value + carry
    ensures Sum(now, i + 1) + carry' * Weight(i + 1) == value * Sum(was, i + 1)
  {
    SumFrame(before, now, i);
    WeightNext(i);
    ColumnTotal(Sum(before, i), Sum(was, i), was[i] as int, value, carry, now[i] as int, carry', Weight(i));
  }

  lemma ColumnTotal(low: int, wasLow: int, b: int, value: int, carry: int, lo: int, hi: int, w: int)
    requires low + carry * w == value * wasLow && lo + hi * BASE == b * value + carry
    ensures (low + lo * w) + hi * (BASE * w) == value * (wasLow + b * w)
  {
    ColumnStep(b, value, carry, lo, hi, w);
    MulDistribute(wasLow, b * w, value);
  }

  lemma ColumnStep(b: int, value: int, carry: int, lo: int, hi: int, w: int)
    requires lo + hi * BASE == b * value + carry
    ensures lo * w + hi * (BASE * w) == value * (b * w) + carry * w
  {
    MulAssoc(hi, BASE, w);
    MulDistribute(lo, hi * BASE, w);
    MulDistribute(b * value, carry, w);
    calc {
      b * value * w;
      value * b * w;
      { MulAssoc(value, b, w); }
      value * (b * w);
    }
  }

  lemma ProductBound(a: int, b: int, m: int)
    requires 0 <= a <= m && 0 <= b <= m
    ensures 0 <= a * b <= m * m
  {
    MulLe(a, m, b);
    MulLe(b, m, m);
  }

  // Appending the carry.
  lemma AppendCarry(s: seq<Bigit>, carry: Bigit)
    ensures Sum(s + [carry], |s| + 1) == Sum(s, |s|) + carry * Weight(|s|)
  {
    SumFrame(s, s + [carry], |s|);
  }

  // A product of a normalised number by a positive factor is normalised.
  lemma ProductCanonical(was: seq<Bigit>, now: seq<Bigit>, value: nat)
    requires 0 < |was| == |now| && value > 0 && was[|was| - 1] != 0
    requires Sum(now, |now|) == value * Sum(was, |was|)
    ensures now[|now| - 1] != 0
  {
    SumAtLeast(was, |was|);
    MulLe(1, value, Sum(was, |was|));
    TopNonzero(now);
  }

  lemma ProductScaled(now: int, was: int, value: int, e: int)
    requires now == value * was
    ensures now * e == was * e * value
  {
    calc {
      value * was * e;
      was * value * e;
      { MulAssoc(was, value, e); }
      was * (value * e);
      was * (e * value);
      { MulAssoc(was, e, value); }
      was * e * value;
    }
  }

  // The two halves of a 64-bit factor and of the running carry recombine.
  lemma WideColumn(b: nat, value: nat, carry: nat)
    requires b < BASE && value < U64 && carry < U64
    ensures var result := b * (value % BASE) + carry % BASE;
            var carry' := b * (value / BASE) + result / BASE + carry / BASE;
            0 <= b * (value / BASE) && 0 <= result < U64 && carry' < U64 && result % BASE + carry' * BASE == b * value + carry
  {
    var lower, upper := value % BASE, value / BASE;
    ProductBound(b, lower, BASE - 1);
    ProductBound(b, upper, BASE - 1);
    calc {
      b * value;
      b * (upper * BASE + lower);
      b * (upper * BASE) + b * lower;
      { MulAssoc(b, upper, BASE); }
      b * upper * BASE + b * lower;
    }
    var result := b * lower + carry % BASE;
    MulDistribute(b * upper + result / BASE, carry / BASE, BASE);
    MulDistribute(b * upper, result / BASE, BASE);
  }

  // Shifting one bigit left by s bits: what stays and what is carried.
  lemma ShiftColumn(b: nat, p: nat, q: nat, carry: nat)
    requires b < BASE && p > 0 && q > 0 && p * q == BASE && carry < p
    ensures var lo := (b * p) % BASE + carry;
            var hi := b / q;
            lo < BASE && hi < p && lo + hi * BASE == b * p + carry
  {
    var hi, r := b / q, b % q;
    assert b == hi * q + r;
    calc {
      b * p;
      { MulDistribute(hi * q, r, p); }
      hi * q * p + r * p;
      { MulAssoc(hi, q, p); }
      hi * (q * p) + r * p;
      hi * BASE + r * p;
    }
    MulLe(r + 1, q, p);
    MulDistribute(r, 1, p);
    MulLe(0, r, p);
    DivModUnique(b * p, BASE, hi, r * p);
    if hi >= p {
      MulLe(p, hi, q);
    }
  }

  lemma CarryStep(s: seq<Bigit>, carry: nat)
    ensures Sum(s + [carry % BASE], |s| + 1) + carry / BASE * Weight(|s| + 1) == Sum(s, |s|) + carry * Weight(|s|)
  {
    AppendCarry(s, carry % BASE);
    MulAssoc(carry / BASE, BASE, Weight(|s|));
    MulDistribute(carry % BASE, carry / BASE * BASE, Weight(|s|));
  }

  lemma PowTwoProduct(s: nat)
    requires s <= 32
    ensures Pow(2, s) > 0 && Pow(2, 32 - s) > 0
    ensures Pow(2, s) * Pow(2, 32 - s) == BASE
  {
    PowPositive(2, s);
    PowPositive(2, 32 - s);
    PowAdd(2, s, 32 - s);
    BaseIsPowerOfTwo();
  }

  lemma BaseIsPowerOfTwo()
    ensures Pow(2, 32) == BASE
  {
    PowSquare(2, 1);
    PowSquare(2, 2);
    PowSquare(2, 4);
    PowSquare(2, 8);
    PowSquare(2, 16);
  }

  // Whole bigits go to the exponent, the rest is a factor of the sum.
  lemma ShiftParts(sum: nat, exp: nat, shift: nat)
    ensures sum * Weight(exp) * Pow(2, shift) == sum * Pow(2, shift % 32) * Weight(exp + shift / 32)
  {
    var k, s := shift / 32, shift % 32;
    PowAdd(2, 32 * k, s);
    PowOfPow(2, 32, k);
    BaseIsPowerOfTwo();
    WeightAdd(exp, k);
    Regroup(sum, Weight(exp), Weight(k), Pow(2, s));
  }

  lemma Regroup(a: int, b: int, c: int, d: int)
    ensures a * b * (c * d) == a * d * (b * c)
  {
    MulAssoc(a, b, c * d);
    MulAssoc(b, c, d);
    MulAssoc(a, d, b * c);
  }

  lemma ShiftTotal(now: nat, was: nat, exp: nat, shift: nat)
    requires now == Pow(2, shift % 32) * was
    ensures now * Weight(exp + shift / 32) == was * Weight(exp) * Pow(2, shift)
  {
    ShiftParts(was, exp, shift);
  }

  // How far c is above a + b when only the positions from k on count.
  ghost function Ahead(a: seq<Bigit>, b: seq<Bigit>, c: seq<Bigit>, k: nat): int
    requires k <= |a| == |b| == |c|
  {
    (Sum(c, |c|) - Sum(c, k)) - (Sum(a, |a|) - Sum(a, k)) - (Sum(b, |b|) - Sum(b, k))
  }

  // Moving down one position. The pending borrow is worth BASE there.
  lemma AheadStep(a: seq<Bigit>, b: seq<Bigit>, c: seq<Bigit>, k: nat, borrow: int)
    requires 0 < k <= |a| == |b| == |c|
    requires Ahead(a, b, c, k) == borrow * Weight(k)
    ensures Ahead(a, b, c, k - 1) == (c[k - 1] + borrow * BASE - a[k - 1] - b[k - 1]) * Weight(k - 1)
  {
    var w := Weight(k - 1);
    MulAssoc(borrow, BASE, w);
    MulDistribute(c[k - 1] + borrow * BASE - a[k - 1], b[k - 1] as int, w);
    MulDistribute(c[k - 1] + borrow * BASE, a[k - 1] as int, w);
    MulDistribute(c[k - 1] as int, borrow * BASE, w);
  }

  // The positions below k cannot make up for a lead of two, nor for a lag.
  lemma AheadDecides(a: seq<Bigit>, b: seq<Bigit>, c: seq<Bigit>, k: nat, lead: int)
    requires k <= |a| == |b| == |c|
    requires Ahead(a, b, c, k) == lead * Weight(k)
    ensures lead < 0 ==> Sum(a, |a|) + Sum(b, |b|) > Sum(c, |c|)
    ensures lead > 1 ==> Sum(a, |a|) + Sum(b, |b|) < Sum(c, |c|)
  {
    SumBound(a, k);
    SumBound(b, k);
    SumBound(c, k);
    if lead < 0 {
      MulLe(lead, -1, Weight(k));
    } else if lead > 1 {
      MulLe(2, lead, Weight(k));
    }
  }

  lemma AheadAtBottom(a: seq<Bigit>, b: seq<Bigit>, c: seq<Bigit>, lead: int, w: nat)
    requires |a| == |b| == |c| && 0 <= lead <= 1 && w > 0
    requires Ahead(a, b, c, 0) == lead * Weight(0)
    ensures Sign(Sum(a, |a|) * w + Sum(b, |b|) * w - Sum(c, |c|) * w) == -lead
  {
    ScaledSums(Sum(a, |a|), Sum(b, |b|), Sum(c, |c|), w);
  }

  lemma AheadRound(a: seq<Bigit>, b: seq<Bigit>, c: seq<Bigit>, k: nat, lead: int)
    requires 0 < k <= |a| == |b| == |c|
    requires Ahead(a, b, c, k) == lead * Weight(k)
    ensures var next := c[k - 1] + lead * BASE - a[k - 1] - b[k - 1];
            && Ahead(a, b, c, k - 1) == next * Weight(k - 1)
            && (next < 0 ==> Sum(a, |a|) + Sum(b, |b|) > Sum(c, |c|))
            && (next > 1 ==> Sum(a, |a|) + Sum(b, |b|) < Sum(c, |c|))
  {
    AheadStep(a, b, c, k, lead);
    AheadDecides(a, b, c, k - 1, c[k - 1] + lead * BASE - a[k - 1] - b[k - 1]);
  }

  ghost function Scaled(s: seq<Bigit>, exp: nat): nat {
    Sum(s, |s|) * Weight(exp)
  }

  // Sizes alone decide when they are far enough apart.
  lemma SizeBounds(s: seq<Bigit>, exp: nat)
    ensures Scaled(s, exp) < Weight(|s| + exp)
    ensures |s| > 0 && s[|s| - 1] != 0 ==> Scaled(s, exp) >= Weight(|s| + exp - 1)
    ensures s == [0] ==> Scaled(s, exp) == 0
  {
    SumBound(s, |s|);
    WeightAdd(|s|, exp);
    MulLt(Sum(s, |s|), Weight(|s|), Weight(exp));
    if |s| > 0 && s[|s| - 1] != 0 {
      SumAtLeast(s, |s|);
      WeightAdd(|s| - 1, exp);
      MulLe(Weight(|s| - 1), Sum(s, |s|), Weight(exp));
    }
  }

  lemma ScaledSums(a: nat, b: nat, c: nat, w: nat)
    requires w > 0
    ensures Sign(a * w + b * w - c * w) == Sign(a + b - c)
  {
    MulDistribute(a, b, w);
    if a + b < c {
      MulLt(a + b, c, w);
    } else if c < a + b {
      MulLt(c, a + b, w);
    }
  }

  // A number without superfluous zero bigits on top.
  ghost predicate Normalised(s: seq<Bigit>) {
    s == [0] || (|s| > 0 && s[|s| - 1] != 0)
  }

  // A zero whose exponent lies above the top of another number: its size makes
  // it look the larger one.
  ghost predicate ZeroAbove(s: seq<Bigit>, exp: nat, top: nat) {
    s == [0] && exp >= top
  }

  // What `AddCompare` answers for any three operands.
  ghost function AddComparison(x: seq<Bigit>, xe: nat, y: seq<Bigit>, ye: nat, z: seq<Bigit>, ze: nat): int {
    var n := if |x| + xe > |y| + ye then |x| + xe else |y| + ye;
    if n + 1 < |z| + ze then -1
    else if n > |z| + ze then 1
    else Sign(Scaled(x, xe) + Scaled(y, ye) - Scaled(z, ze))
  }

  // On normalised operands it compares the sum, but for a zero above it on the
  // right, or a zero above the right that the other summand does not make up for.
  lemma AddComparisonIsExact(x: seq<Bigit>, xe: nat, y: seq<Bigit>, ye: nat, z: seq<Bigit>, ze: nat)
    requires Normalised(x) && Normalised(y) && Normalised(z)
    ensures var n := if |x| + xe > |y| + ye then |x| + xe else |y| + ye;
            var sum := Scaled(x, xe) + Scaled(y, ye);
            AddComparison(x, xe, y, ye, z, ze) == Sign(sum - Scaled(z, ze)) <==>
            !ZeroAbove(z, ze, n + 1) && (ZeroAbove(x, xe, |z| + ze) || ZeroAbove(y, ye, |z| + ze) ==> sum > Scaled(z, ze))
  {
    hide Scaled, Weight;
    SizeBounds(x, xe);
    SizeBounds(y, ye);
    SizeBounds(z, ze);
    var n := if |x| + xe > |y| + ye then |x| + xe else |y| + ye;
    if n + 1 < |z| + ze {
      WeightMonotone(|x| + xe, n);
      WeightMonotone(|y| + ye, n);
      WeightMonotone(n + 1, |z| + ze - 1);
      WeightNext(n);
      MulLe(2, BASE, Weight(n));
    } else if n > |z| + ze {
      if |x| + xe > |z| + ze {
        WeightMonotone(|z| + ze, |x| + xe - 1);
      }
      if |y| + ye > |z| + ze {
        WeightMonotone(|z| + ze, |y| + ye - 1);
      }
    }
  }

  // A remainder against half of the divisor.
  lemma TwiceIsExact(x: seq<Bigit>, xe: nat, z: seq<Bigit>, ze: nat)
    requires Normalised(x) && Normalised(z) && z != [0] && !ZeroAbove(x, xe, |z| + ze)
    ensures AddComparison(x, xe, x, xe, z, ze) == Sign(2 * Scaled(x, xe) - Scaled(z, ze))
  {
    AddComparisonIsExact(x, xe, x, xe, z, ze);
  }

  // A zero written as 0 * 2^160 counts as larger than one.
  lemma ZeroCanCompareLarger()
    ensures Comparison([0], 5, [1], 0) == 1 && Scaled([0], 5) == 0 && Scaled([1], 0) == 1
    ensures AddComparison([0], 5, [0], 5, [1], 0) == 1
  {
    SizeBounds([0], 5);
    assert Weight(0) == 1 && Sum([1 as Bigit], 1) == 1;
  }

  function Zeros(n: nat): (z: seq<Bigit>)
    ensures |z| == n && forall k :: 0 <= k < n ==> z[k] == 0
  {
    seq<Bigit>(n, _ => 0)
  }

  // On normalised operands the comparison has the sign of the difference,
  // unless they are equal and one of them keeps lower zero bigits. That is so
  // exactly as long as no zero lies above the other number.
  lemma ComparisonIsExact(l: seq<Bigit>, le: nat, r: seq<Bigit>, re: nat)
    requires Normalised(l) && Normalised(r)
    ensures Comparison(l, le, r, re) == (if Scaled(l, le) == Scaled(r, re) then Sign(re - le) else Sign(Scaled(l, le) - Scaled(r, re))) <==>
            !ZeroAbove(l, le, |r| + re) && !ZeroAbove(r, re, |l| + le)
  {
    SizeBounds(l, le);
    SizeBounds(r, re);
    if |l| + le < |r| + re {
      WeightMonotone(|l| + le, |r| + re - 1);
    } else if |r| + re < |l| + le {
      WeightMonotone(|r| + re, |l| + le - 1);
    }
  }

  // With a quotient below BASE the dividend has at most one bigit more than
  // the divisor, so a borrow meets the top bigit, which is not zero.
  lemma NoStuckBorrow(l: seq<Bigit>, le: nat, r: seq<Bigit>, re: nat)
    requires |l| > 0 && l[|l| - 1] != 0 && |r| > 0 && r[|r| - 1] != 0 && le <= re
    requires Scaled(l, le) < BASE * Scaled(r, re)
    ensures !BorrowMeetsZero(l, r, re - le)
  {
    SizeBounds(l, le);
    SizeBounds(r, re);
    WeightNext(|r| + re);
    MulLt(Scaled(r, re), Weight(|r| + re), BASE);
    if |l| + le - 1 > |r| + re {
      WeightMonotone(|r| + re + 1, |l| + le - 1);
    }
  }

  lemma QuotientGrows(value: nat, q: nat, d: nat, rest: nat)
    requires d > 0 && value == q * d + rest && value / d <= 0x7fff_ffff
    ensures rest < BASE * d
    ensures value == (q + 1) * d + (rest - d)
  {
    var k, r := value / d, value % d;
    assert value == k * d + r;
    MulLe(k, 0x7fff_ffff, d);
    MulLe(0, q, d);
    MulDistribute(q, 1, d);
    MulDistribute(0x7fff_ffff, 1, d);
    MulLe(0x8000_0000, BASE, d);
  }

  // 2^32 written with and without a low zero bigit: the comparison tells two
  // equal numbers apart.
  lemma EqualNumbersCompareUnequal()
    ensures Scaled([1], 1) == Scaled([0, 1], 0) && Comparison([1], 1, [0, 1], 0) == -1
  {
    var low: seq<Bigit>, high: seq<Bigit> := [1], [0, 1];
    assert Weight(1) == BASE;
    SumFrame(high, [0], 1);
    assert Sum(low, 1) == 1 && Sum(high, 2) == BASE;
  }

  // 2^64 - 1: the borrow meets a zero bigit, and 2^64 - 2^32 is added.
  lemma BorrowCanMeetZero()
    ensures BorrowMeetsZero([0, 0, 1], [1], 0) && Excess(1) == BASE * BASE - BASE
  {
    var was: seq<Bigit>, other: seq<Bigit> := [0, 0, 1], [1];
    assert Sum(was, 1) == 0 && Sum(other, 1) == 1;
    assert Weight(1) == BASE && Weight(2) == BASE * BASE;
  }
}
