// The arbitrary-precision integer of the exact printer: a growable buffer of
// 32-bit bigits, least significant first, times a power of 2^32.
module BigintModel {
  import opened Words
  import opened Powers
  import opened Limbs
  import opened BigintSteps
  import opened BigintSizes
  import opened Convolution
  import opened AccumulatorModel

  function Max(a: int, b: int): int {
    if a > b then a else b
  }

  class Bigint {
    var bigits: seq<Bigit>
    var exp: nat
    // The most bigits that the buffer has held.
    ghost var peak: nat

    ghost function Value(): nat
      reads this
    {
      Sum(bigits, |bigits|) * Weight(exp)
    }

    // At least one bigit, and no superfluous zero on top.
    ghost predicate Canonical()
      reads this
    {
      |bigits| > 0 && (|bigits| == 1 || bigits[|bigits| - 1] != 0)
    }

    ghost predicate HasTop()
      reads this
    {
      |bigits| > 0 && bigits[|bigits| - 1] != 0
    }

    // The shape of the operands that a comparison is exact for: a zero does not
    // lie above the top of the number it is compared with.
    ghost predicate NormalisedFor(top: nat)
      reads this
    {
      HasTop() || (bigits == [0] && exp < top)
    }

    constructor ()
      ensures bigits == [] && exp == 0 && peak == 0
    {
      bigits, exp, peak := [], 0, 0;
    }

    function NumBigits(): (n: nat)
      reads this
    {
      |bigits| + exp
    }

    method SubtractBigits(index: nat, other: Bigit, borrow: Bigit) returns (borrow': Bigit)
      requires index < |bigits| && borrow <= 1
      modifies this`bigits
      ensures |bigits| == old(|bigits|) && borrow' <= 1
      ensures forall k :: 0 <= k < |bigits| && k != index ==> bigits[k] == old(bigits)[k]
      ensures bigits[index] as int - borrow' * BASE == old(bigits)[index] as int - other - borrow
    {
      var result := (bigits[index] as int - other - borrow) % U64;
      bigits := bigits[index := result % BASE];
      borrow' := result / 0x8000_0000_0000_0000;
    }

    method RemoveLeadingZeros()
      requires |bigits| > 0
      modifies this`bigits
      ensures Canonical() && Sum(bigits, |bigits|) == Sum(old(bigits), |old(bigits)|)
      ensures bigits <= old(bigits)
    {
      var n := |bigits| - 1;
      while n > 0 && bigits[n] == 0
        invariant 0 <= n < |bigits|
        invariant forall k :: n < k < |bigits| ==> bigits[k] == 0
      {
        n := n - 1;
      }
      SumZeroTop(bigits, n + 1, |bigits|);
      SumFrame(bigits, bigits[..n + 1], n + 1);
      bigits := bigits[..n + 1];
    }

    // The index does not move: a borrow that meets a zero bigit is taken from
    // that bigit a second time instead of from the next one.
    method PropagateBorrow(i: nat, lastBorrow: Bigit)
      requires lastBorrow <= 1 && (lastBorrow == 1 ==> i < |bigits|)
      modifies this`bigits
      ensures |bigits| == old(|bigits|)
      ensures forall k :: 0 <= k < |bigits| && k != i ==> bigits[k] == old(bigits)[k]
      ensures lastBorrow == 0 ==> bigits == old(bigits)
      ensures lastBorrow == 1 ==> bigits[i] as int == if old(bigits)[i] == 0 then BASE - 2 else old(bigits)[i] as int - 1
    {
      ghost var was := bigits;
      var borrow: Bigit := lastBorrow;
      while borrow > 0
        invariant |bigits| == |was| && borrow <= lastBorrow && (lastBorrow == 0 ==> bigits == was)
        invariant forall k :: 0 <= k < |was| && k != i ==> bigits[k] == was[k]
        invariant borrow == 1 ==> bigits[i] == was[i] || (was[i] == 0 && bigits[i] as int == BASE - 1)
        invariant lastBorrow == 1 && borrow == 0 ==> bigits[i] as int == if was[i] == 0 then BASE - 2 else was[i] as int - 1
        decreases borrow, if borrow == 0 || bigits[i] != 0 then 0 else 1
      {
        borrow := SubtractBigits(i, 0, borrow);
      }
    }

    // Subtracts bigit by bigit from position d on.
    method SubtractCommon(other: seq<Bigit>, d: nat) returns (borrow: Bigit)
      requires d + |other| <= |bigits|
      modifies this`bigits
      ensures |bigits| == old(|bigits|) && borrow <= 1
      ensures forall k :: d + |other| <= k < |bigits| ==> bigits[k] == old(bigits)[k]
      ensures Sum(bigits, d + |other|) - Owed(borrow, d + |other|) == Sum(old(bigits), d + |other|) - Sum(other, |other|) * Weight(d)
    {
      ghost var was := bigits;
      borrow := 0;
      var i := d;
      for j := 0 to |other|
        invariant i == d + j && |bigits| == |was| && borrow <= 1
        invariant forall k :: i <= k < |was| ==> bigits[k] == was[k]
        invariant Sum(bigits, i) - Owed(borrow, i) == Sum(was, i) - Sum(other, j) * Weight(d)
      {
        ghost var before, b := bigits, borrow;
        borrow := SubtractBigits(i, other[j], borrow);
        SubtractStep(was, before, bigits, other, d, j, b, borrow);
        i := i + 1;
      }
    }

    // Subtraction of an aligned, not larger number. The result is the
    // difference exactly when the last borrow does not meet a zero bigit.
    method SubtractAligned(other: Bigint)
      requires this != other && exp <= other.exp
      requires other.HasTop() && Value() >= other.Value()
      modifies this`bigits
      ensures Canonical() && exp == old(exp) && |bigits| <= old(|bigits|)
      ensures Value() == old(Value()) - other.Value() +
                         if BorrowMeetsZero(old(bigits), other.bigits, other.exp - exp)
                         then Excess(other.exp + |other.bigits|) else 0
    {
      hide Sum, Weight, BorrowMeetsZero, Excess;
      ghost var was, sub, d := bigits, other.bigits, other.exp - exp;
      AlignedSizes(was, sub, exp, other.exp);
      var borrow := SubtractCommon(other.bigits, other.exp - exp);
      ghost var low := bigits;
      LastBorrow(was, low, d + |sub|, Sum(sub, |sub|) * Weight(d), borrow);
      PropagateBorrow(other.exp - exp + |other.bigits|, borrow);
      SubtractTotal(was, low, bigits, sub, d, exp, borrow);
      RemoveLeadingZeros();
    }

    static method Compare(lhs: Bigint, rhs: Bigint) returns (result: int)
      requires |lhs.bigits| > 0 && |rhs.bigits| > 0
      ensures result == Comparison(lhs.bigits, lhs.exp, rhs.bigits, rhs.exp)
    {
      if lhs.NumBigits() != rhs.NumBigits() {
        return if lhs.NumBigits() > rhs.NumBigits() then 1 else -1;
      }
      result := CompareTopBigits(lhs.bigits, lhs.exp, rhs.bigits, rhs.exp);
    }

    // Compares the aligned top bigits; what is left over decides by its length.
    static method CompareTopBigits(lhs: seq<Bigit>, lhsExp: nat, rhs: seq<Bigit>, rhsExp: nat) returns (result: int)
      requires |lhs| > 0 && |rhs| > 0 && |lhs| + lhsExp == |rhs| + rhsExp
      ensures result == Comparison(lhs, lhsExp, rhs, rhsExp)
    {
      var i, j := |lhs| - 1, |rhs| - 1;
      var end := if i - j < 0 then 0 else i - j;
      while i >= end
        invariant end - 1 <= i < |lhs| && i - j == |lhs| - |rhs|
        invariant -1 <= j < |rhs| && lhs[i + 1..] == rhs[j + 1..]
      {
        if lhs[i] != rhs[j] {
          if lhs[i] > rhs[j] {
            FirstDifferenceDecides(rhs, rhsExp, lhs, lhsExp, j, i);
            return 1;
          }
          FirstDifferenceDecides(lhs, lhsExp, rhs, rhsExp, i, j);
          return -1;
        }
        i, j := i - 1, j - 1;
      }
      if i != j {
        if i > j {
          LengthDecides(lhs, lhsExp, rhs, rhsExp);
          return 1;
        }
        LengthDecides(rhs, rhsExp, lhs, lhsExp);
        return -1;
      }
      LengthDecides(lhs, lhsExp, rhs, rhsExp);
      return 0;
    }

    method Multiply32(value: Bigit)
      modifies this`bigits, this`peak
      ensures |bigits| <= old(|bigits|) + 1 && peak == Max(old(peak), |bigits|)
      ensures Value() == old(Value()) * value
      ensures exp == old(exp)
      ensures value > 0 && old(HasTop()) ==> HasTop()
      ensures old(bigits) == [0] ==> bigits == [0]
    {
      ghost var was := bigits;
      var carry: Bigit := 0;
      for i := 0 to |bigits|
        invariant |bigits| == |was| && peak == old(peak)
        invariant forall k :: i <= k < |was| ==> bigits[k] == was[k]
        invariant Sum(bigits, i) + carry * Weight(i) == value * Sum(was, i)
      {
        ghost var before, c := bigits, carry;
        ProductBound(bigits[i], value, BASE - 1);
        var result: nat := bigits[i] * value + carry;
        assert result < U64;
        bigits := bigits[i := result % BASE];
        carry := result / BASE;
        MultiplyStep(was, before, bigits, value, i, c, carry);
      }
      if carry == 0 && value > 0 && |was| > 0 && was[|was| - 1] != 0 {
        ProductCanonical(was, bigits, value);
      }
      if carry != 0 {
        AppendCarry(bigits, carry);
        bigits := bigits + [carry];
      }
      peak := Max(peak, |bigits|);
      ProductScaled(Sum(bigits, |bigits|), Sum(was, |was|), value, Weight(exp));
    }

    method Multiply64(value: nat)
      requires value < U64
      modifies this`bigits, this`peak
      ensures |bigits| <= old(|bigits|) + 2 && peak == Max(old(peak), |bigits|)
      ensures Value() == old(Value()) * value
      ensures exp == old(exp)
      ensures value > 0 && old(HasTop()) ==> HasTop()
      ensures old(bigits) == [0] ==> bigits == [0]
    {
      ghost var was := bigits;
      var lower, upper := value % BASE, value / BASE;
      var carry: nat := 0;
      for i := 0 to |bigits|
        invariant |bigits| == |was| && carry < U64 && peak == old(peak)
        invariant forall k :: i <= k < |was| ==> bigits[k] == was[k]
        invariant Sum(bigits, i) + carry * Weight(i) == value * Sum(was, i)
        invariant was == [0] ==> carry == 0 && bigits[0] == 0
      {
        ghost var before, c := bigits, carry;
        var low: Bigit, high: nat := WideBigit(bigits[i], lower, upper, carry, value);
        bigits := bigits[i := low];
        carry := high;
        MultiplyStep(was, before, bigits, value, i, c, carry);
      }
      if carry == 0 && value > 0 && |was| > 0 && was[|was| - 1] != 0 {
        ProductCanonical(was, bigits, value);
      }
      PushCarry(carry);
      ProductScaled(Sum(bigits, |bigits|), Sum(was, |was|), value, Weight(exp));
    }

    // One column with a 64-bit factor.
    static method WideBigit(b: Bigit, lower: nat, upper: nat, carry: nat, ghost value: nat) returns (low: Bigit, high: nat)
      requires value < U64 && lower == value % BASE && upper == value / BASE && carry < U64
      ensures high < U64 && low as int + high * BASE == b * value + carry
      ensures b == 0 && carry == 0 ==> low == 0 && high == 0
    {
      WideColumn(b, value, carry);
      var result: nat := b * lower + carry % BASE;
      low, high := result % BASE, b * upper + result / BASE + carry / BASE;
    }

    // Appends what is left of a carry, bigit by bigit.
    method PushCarry(carry: nat)
      modifies this`bigits, this`peak
      ensures old(|bigits|) <= |bigits| && peak == Max(old(peak), |bigits|)
      ensures carry < U64 ==> |bigits| <= old(|bigits|) + 2
      ensures Sum(bigits, |bigits|) == old(Sum(bigits, |bigits|)) + carry * Weight(old(|bigits|))
      ensures carry == 0 ==> bigits == old(bigits)
      ensures carry != 0 ==> HasTop()
    {
      ghost var total := Sum(bigits, |bigits|) + carry * Weight(|bigits|);
      var rest: nat := carry;
      while rest != 0
        invariant Sum(bigits, |bigits|) + rest * Weight(|bigits|) == total
        invariant carry == 0 ==> bigits == old(bigits)
        invariant carry != 0 && rest == 0 ==> HasTop()
        invariant peak == old(peak) && old(|bigits|) <= |bigits|
        invariant carry < U64 ==> |bigits| + (if rest == 0 then 0 else if rest < BASE then 1 else 2) <= old(|bigits|) + 2
        decreases rest
      {
        CarryStep(bigits, rest);
        bigits := bigits + [rest % BASE];
        rest := rest / BASE;
      }
      peak := Max(peak, |bigits|);
    }

    method ShiftLeft(shift: nat)
      modifies this
      ensures Value() == old(Value()) * Pow(2, shift)
      ensures exp == old(exp) + shift / 32
      ensures |bigits| <= old(|bigits|) + 1 && peak == Max(old(peak), |bigits|)
      ensures old(HasTop()) ==> HasTop()
    {
      ghost var was, e := bigits, exp;
      exp := exp + shift / 32;
      if shift % 32 != 0 {
        ShiftBits(shift % 32);
      }
      peak := Max(peak, |bigits|);
      ShiftTotal(Sum(bigits, |bigits|), Sum(was, |was|), e, shift);
    }

    method ShiftBits(s: nat)
      requires 0 < s < 32
      modifies this`bigits
      ensures |bigits| <= old(|bigits|) + 1
      ensures Sum(bigits, |bigits|) == Pow(2, s) * Sum(old(bigits), |old(bigits)|)
      ensures old(HasTop()) ==> HasTop()
    {
      ghost var was := bigits;
      var p, q := Pow(2, s), Pow(2, 32 - s);
      PowTwoProduct(s);
      var carry: Bigit := 0;
      for i := 0 to |bigits|
        invariant |bigits| == |was| && carry < p
        invariant forall k :: i <= k < |was| ==> bigits[k] == was[k]
        invariant Sum(bigits, i) + carry * Weight(i) == p * Sum(was, i)
      {
        ghost var before, c := bigits, carry;
        var low: Bigit, high: Bigit := ShiftBigit(bigits[i], p, q, carry);
        bigits := bigits[i := low];
        carry := high;
        MultiplyStep(was, before, bigits, p, i, c, carry);
      }
      if carry == 0 && |was| > 0 && was[|was| - 1] != 0 {
        ProductCanonical(was, bigits, p);
      }
      if carry != 0 {
        AppendCarry(bigits, carry);
        bigits := bigits + [carry];
      }
    }

    static method ShiftBigit(b: Bigit, p: nat, q: nat, carry: Bigit) returns (low: Bigit, high: Bigit)
      requires p > 0 && q > 0 && p * q == BASE && carry < p
      ensures high < p && low as int + high * BASE == b * p + carry
    {
      ShiftColumn(b, p, q, carry);
      low, high := b * p % BASE + carry, b / q;
    }

    static method AddCompare(lhs1: Bigint, lhs2: Bigint, rhs: Bigint) returns (result: int)
      ensures result == AddComparison(lhs1.bigits, lhs1.exp, lhs2.bigits, lhs2.exp, rhs.bigits, rhs.exp)
    {
      var maxLhs := if lhs1.NumBigits() > lhs2.NumBigits() then lhs1.NumBigits() else lhs2.NumBigits();
      if maxLhs + 1 < rhs.NumBigits() {
        return -1;
      }
      if maxLhs > rhs.NumBigits() {
        return 1;
      }
      result := CompareFromTop(lhs1.bigits, lhs1.exp, lhs2.bigits, lhs2.exp, rhs.bigits, rhs.exp);
    }

    // Visits the positions from the top down. The borrow is the lead of rhs so
    // far, in units of the position about to be visited.
    static method CompareFromTop(lhs1: seq<Bigit>, exp1: nat, lhs2: seq<Bigit>, exp2: nat, rhs: seq<Bigit>, exp: nat)
      returns (result: int)
      requires |lhs1| + exp1 <= |rhs| + exp && |lhs2| + exp2 <= |rhs| + exp
      ensures result == Sign(Scaled(lhs1, exp1) + Scaled(lhs2, exp2) - Scaled(rhs, exp))
    {
      hide Sum, Weight;
      var minExp := if exp1 < exp2 then exp1 else exp2;
      minExp := if minExp < exp then minExp else exp;
      ghost var n := |rhs| + exp - minExp;
      ghost var a, b, c := Window(lhs1, exp1, minExp, n), Window(lhs2, exp2, minExp, n), Window(rhs, exp, minExp, n);
      WindowSum(lhs1, exp1, minExp, n);
      WindowSum(lhs2, exp2, minExp, n);
      WindowSum(rhs, exp, minExp, n);
      ScaledSums(Sum(a, n), Sum(b, n), Sum(c, n), Weight(minExp));
      var borrow: nat := 0;
      ghost var lead := 0;
      var i := |rhs| + exp - 1;
      while i >= minExp
        invariant minExp - 1 <= i < |rhs| + exp
        invariant 0 <= lead <= 1 && borrow == lead * BASE
        invariant Ahead(a, b, c, i - minExp + 1) == lead * Weight(i - minExp + 1)
      {
        var sum: nat := BigitAt(lhs1, exp1, i) as nat + BigitAt(lhs2, exp2, i);
        var rhsBigit := BigitAt(rhs, exp, i);
        assert rhsBigit + borrow < U64 && sum < U64;
        WindowAt(lhs1, exp1, minExp, n, i);
        WindowAt(lhs2, exp2, minExp, n, i);
        WindowAt(rhs, exp, minExp, n, i);
        AheadRound(a, b, c, i - minExp + 1, lead);
        if sum > rhsBigit + borrow {
          return 1;
        }
        borrow := rhsBigit + borrow - sum;
        if borrow > 1 {
          return -1;
        }
        lead := borrow;
        borrow := borrow * BASE;
        i := i - 1;
      }
      AheadAtBottom(a, b, c, lead, Weight(minExp));
      return if borrow != 0 then -1 else 0;
    }

    // Moves the bigits up over new zero bigits so that the exponent is not
    // above the other's.
    method Align(other: Bigint)
      requires this != other
      modifies this
      ensures Value() == old(Value())
      ensures exp == if old(exp) <= other.exp then old(exp) else other.exp
      ensures old(HasTop()) ==> HasTop()
      ensures old(exp) <= other.exp ==> bigits == old(bigits) && peak == old(peak)
      ensures NumBigits() == old(NumBigits()) && peak <= Max(old(peak), |bigits|)
    {
      if exp <= other.exp {
        return;
      }
      var difference := exp - other.exp;
      ghost var was := bigits;
      bigits := Raised(bigits, difference);
      exp, peak := exp - difference, Max(peak, |bigits|);
      SumShift(was, bigits, difference, |was|);
      WeightAdd(difference, exp);
      MulAssoc(Sum(was, |was|), Weight(difference), Weight(exp));
    }

    static method Raised(was: seq<Bigit>, difference: nat) returns (bigits: seq<Bigit>)
      ensures |bigits| == |was| + difference
      ensures forall k :: 0 <= k < difference ==> bigits[k] == 0
      ensures forall k :: 0 <= k < |was| ==> bigits[k + difference] == was[k]
    {
      bigits := was + Zeros(difference);
      var i, j := |was| - 1, |was| - 1 + difference;
      while i >= 0
        invariant -1 <= i < |was| && j == i + difference && |bigits| == |was| + difference
        invariant forall k :: 0 <= k <= i ==> bigits[k] == was[k]
        invariant forall k :: i < k < |was| ==> bigits[k + difference] == was[k]
      {
        bigits := bigits[j := bigits[i]];
        i, j := i - 1, j - 1;
      }
      for k := 0 to difference
        invariant |bigits| == |was| + difference
        invariant forall m :: 0 <= m < k ==> bigits[m] == 0
        invariant forall m :: 0 <= m < |was| ==> bigits[m + difference] == was[m]
      {
        bigits := bigits[k := 0];
      }
    }

    // Division by repeated subtraction. It is exact unless the two numbers are
    // equal while the divisor keeps lower zero bigits: then the comparison
    // takes the divisor for the larger one.
    method DivmodAssign(divisor: Bigint) returns (quotient: nat)
      requires this != divisor && divisor.HasTop() && NormalisedFor(divisor.NumBigits())
      requires Value() / DivisorValue(divisor) <= 0x7fff_ffff
      modifies this
      ensures MissesEquality(old(Value()), old(exp), divisor.Value(), divisor.exp) ==>
        quotient == 0 && bigits == old(bigits) && exp == old(exp)
      ensures !MissesEquality(old(Value()), old(exp), divisor.Value(), divisor.exp) ==>
        quotient == old(Value()) / DivisorValue(divisor) && Value() == old(Value()) % DivisorValue(divisor)
      ensures NormalisedFor(divisor.NumBigits())
      ensures exp <= old(exp) && (quotient == 0 || exp <= divisor.exp) && (exp == old(exp) || exp == divisor.exp)
      ensures peak == old(peak) || (exp == divisor.exp && peak <= Max(old(peak), old(NumBigits()) - exp))
    {
      ghost var value, d := Value(), DivisorValue(divisor);
      SizeBounds(bigits, exp);
      SizeBounds(divisor.bigits, divisor.exp);
      ComparisonIsExact(bigits, exp, divisor.bigits, divisor.exp);
      var c := Compare(this, divisor);
      if c < 0 {
        if value < d {
          DivModUnique(value, d, 0, value);
        }
        return 0;
      }
      Align(divisor);
      quotient := SubtractRepeatedly(divisor);
    }

    method SubtractRepeatedly(divisor: Bigint) returns (quotient: nat)
      requires this != divisor && divisor.HasTop() && HasTop() && exp <= divisor.exp
      requires Value() >= divisor.Value() && Value() / DivisorValue(divisor) <= 0x7fff_ffff
      modifies this
      ensures quotient == old(Value()) / DivisorValue(divisor) && Value() == old(Value()) % DivisorValue(divisor)
      ensures NormalisedFor(divisor.NumBigits()) && exp == old(exp) && peak == old(peak)
    {
      ghost var value, d := Value(), DivisorValue(divisor);
      quotient := 0;
      while true
        invariant HasTop() && exp == old(exp) && peak == old(peak)
        invariant value == quotient * d + Value() && Value() >= d
        decreases Value()
      {
        QuotientGrows(value, quotient, d, Value());
        NoStuckBorrow(bigits, exp, divisor.bigits, divisor.exp);
        SubtractAligned(divisor);
        quotient := quotient + 1;
        assert HasTop() || bigits == [0];
        SizeBounds(bigits, exp);
        ComparisonIsExact(bigits, exp, divisor.bigits, divisor.exp);
        var c := Compare(this, divisor);
        if c < 0 {
          break;
        }
      }
      DivModUnique(value, d, quotient, Value());
    }

    method Square()
      requires |bigits| <= 0x7fff_ffff && (HasTop() || bigits == [0])
      modifies this
      ensures Value() == old(Value()) * old(Value())
      ensures exp == 2 * old(exp)
      ensures Canonical() && |bigits| <= 2 * old(|bigits|) && peak == Max(old(peak), 2 * old(|bigits|))
    {
      ghost var e := exp;
      var n := bigits;
      bigits, peak := Zeros(2 * |n|), Max(peak, 2 * |n|);
      var sum := new Accumulator();
      ghost var carry := 0;
      for k := 0 to 2 * |n|
        invariant |bigits| == 2 * |n| && exp == e && peak == Max(old(peak), 2 * |n|)
        invariant fresh(sum) && sum.Valid() && sum.Total() == carry
        invariant 0 <= carry <= |n| * BASE
        invariant Sum(bigits, k) + carry * Weight(k) == Diagonals(n, |n|, k)
      {
        AccumulatorBound(n, k, carry, |n|);
        sum.AddDiagonal(n, k);
        var b := sum.LowBigit();
        DiagonalStep(bigits, bigits[k := b], n, k, carry, sum.Total());
        bigits := bigits[k := b];
        carry := sum.Total() / BASE;
        sum.ShiftRightByBigit();
      }
      SquareTotal(bigits, n, carry, e);
      RemoveLeadingZeros();
      exp := 2 * exp;
    }

    method Assign(value: nat)
      requires value < U64
      modifies this
      ensures Value() == value && exp == 0
      ensures value > 0 ==> HasTop()
      ensures value == 0 ==> bigits == [0]
      ensures |bigits| <= 2 && peak == Max(old(peak), |bigits|)
    {
      var n: nat := value;
      bigits, exp := [], 0;
      CarryStep([], n);
      bigits, n := [n % BASE], n / BASE;
      while n != 0
        invariant exp == 0 && |bigits| > 0
        invariant Sum(bigits, |bigits|) + n * Weight(|bigits|) == value
        invariant n == 0 ==> if value == 0 then bigits == [0] else HasTop()
        invariant n != 0 ==> value > 0
        invariant peak == old(peak) && n < BASE && |bigits| + (if n == 0 then 0 else 1) <= 2
        decreases n
      {
        CarryStep(bigits, n);
        bigits, n := bigits + [n % BASE], n / BASE;
      }
      peak := Max(peak, |bigits|);
    }

    method AssignFrom(other: Bigint)
      requires other != this
      modifies this
      ensures bigits == other.bigits && exp == other.exp && peak == Max(old(peak), |bigits|)
    {
      bigits, exp := other.bigits, other.exp;
      peak := Max(peak, |bigits|);
    }

    // pow(10, e) = pow(5, e) * pow(2, e), the first factor by repeated
    // squaring over the bits of e.
    method AssignPow10(e: nat)
      requires e < 0x4000_0000
      modifies this
      ensures Value() == Pow(10, e) && HasTop()
      ensures exp == e / 32
      ensures e <= LARGEST_POWER ==> |bigits| <= 28 && peak <= Max(old(peak), 28)
    {
      if e == 0 {
        Assign(1);
        return;
      }
      hide Pow, Sum, Weight;
      FirstPowers();
      var bitmask, k := TopBit(e);
      Assign(5);
      DivModUnique(e, bitmask, 1, e - bitmask);
      bitmask := bitmask / 2;
      ghost var seen := Pow(2, k);
      while bitmask != 0
        invariant seen == Pow(2, k) && seen > 0 && bitmask == seen / 2
        invariant HasTop() && exp == 0 && Value() == Pow(5, e / seen)
        invariant e <= LARGEST_POWER ==> peak <= Max(old(peak), 28)
        decreases bitmask
      {
        HalvesOfMask(e, k);
        QuotientAtMost(e, bitmask);
        NextPowerOf5(e / seen, e / bitmask % 2 != 0);
        seen, k := bitmask, k - 1;
        bitmask := bitmask / 2;
      }
      assert seen == 1 && e / seen == e;
      if e <= LARGEST_POWER {
        FiveFits(bigits, e);
      }
      ShiftLeft(e);
      PowTen(e);
    }

    // From one prefix of the bits of the exponent to the next.
    method NextPowerOf5(ghost n: nat, odd: bool)
      requires HasTop() && exp == 0 && Value() == Pow(5, n) && n < 0x4000_0000
      modifies this
      ensures HasTop() && exp == 0 && Value() == Pow(5, 2 * n + if odd then 1 else 0)
      ensures 2 * n + (if odd then 1 else 0) <= LARGEST_POWER ==> peak <= Max(old(peak), 28)
    {
      hide Sum, Weight;
      FirstPowers();
      ghost var m := 2 * n + if odd then 1 else 0;
      SizeOfPow5(bigits, n);
      if m <= LARGEST_POWER {
        FiveFits(bigits, n);
      }
      Square();
      PowSquare(5, n);
      assert HasTop() by {
        PowPositive(5, 2 * n);
        SizeBounds(bigits, exp);
      }
      if odd {
        Multiply32(5);
      }
      if m <= LARGEST_POWER {
        FiveFits(bigits, m);
      }
    }

    static method TopBit(e: nat) returns (bitmask: nat, ghost k: nat)
      requires 0 < e < 0x4000_0000
      ensures bitmask == Pow(2, k) && 0 < bitmask <= e < 2 * bitmask
    {
      bitmask, k := 1, 0;
      while e >= bitmask
        invariant bitmask == Pow(2, k) && 1 <= bitmask <= 0x7fff_ffff
        invariant k == 0 ==> bitmask == 1
        invariant k > 0 ==> Pow(2, k - 1) <= e
        decreases 2 * e - bitmask
      {
        bitmask, k := bitmask * 2, k + 1;
      }
      bitmask, k := bitmask / 2, k - 1;
    }
  }

  lemma DiagonalStep(before: seq<Bigit>, now: seq<Bigit>, n: seq<Bigit>, k: nat, carry: nat, total: nat)
    requires k < |before| == |now|
    requires Sum(before, k) + carry * Weight(k) == Diagonals(n, |n|, k)
    requires forall i :: 0 <= i < k ==> now[i] == before[i]
    requires total == carry + Cross(n, k, |n|) && now[k] as int == total % BASE
    ensures Sum(now, k + 1) + total / BASE * Weight(k + 1) == Diagonals(n, |n|, k + 1)
  {
    SumFrame(before, now, k);
    ColumnStep(Cross(n, k, |n|), 1, carry, now[k] as int, total / BASE, Weight(k));
  }

  lemma QuotientAtMost(e: nat, d: nat)
    requires d > 0
    ensures e / d <= e
  {
    var q := e / d;
    assert e == q * d + e % d;
    MulLe(1, d, q);
  }

  lemma FirstPowers()
    ensures Pow(5, 1) == 5 && Pow(2, 0) == 1 && Weight(0) == 1
  {
  }

  lemma PowTen(e: nat)
    ensures Pow(5, e) * Pow(2, e) == Pow(10, e)
  {
    PowMul(5, 2, e);
  }

  // A power of five has few enough bigits to be squared.
  lemma SizeOfPow5(s: seq<Bigit>, e: nat)
    requires |s| > 0 && s[|s| - 1] != 0 && Sum(s, |s|) == Pow(5, e)
    ensures |s| <= e + 1
  {
    SumAtLeast(s, |s|);
    if |s| > e + 1 {
      PowFiveBelowWeight(e + 1);
      WeightMonotone(e + 1, |s| - 1);
      PowMonotone(5, e, e + 1);
    }
  }

  lemma {:induction false} PowFiveBelowWeight(e: nat)
    requires e > 0
    ensures Pow(5, e) < Weight(e)
  {
    if e == 1 {
    } else {
      PowFiveBelowWeight(e - 1);
      MulLt(Pow(5, e - 1), Weight(e - 1), 5);
      MulLt(5, BASE, Weight(e - 1));
    }
  }

  // The quotient by the next lower power of two has one more bit.
  lemma HalvesOfMask(e: nat, k: nat)
    requires Pow(2, k) / 2 != 0
    ensures k > 0 && Pow(2, k) / 2 == Pow(2, k - 1) > 0
    ensures e / Pow(2, k - 1) == 2 * (e / Pow(2, k)) + e / Pow(2, k - 1) % 2
  {
    var m := Pow(2, k - 1);
    var q, r := e / m, e % m;
    assert e == q * m + r;
    MulDistribute(q / 2 * 2, q % 2, m);
    MulAssoc(q / 2, 2, m);
    MulLe(q % 2, 1, m);
    MulLe(0, q % 2, m);
    DivModUnique(e, 2 * m, q / 2, q % 2 * m + r);
  }

  // When all the anti-diagonals are in, no carry is left.
  lemma SquareTotal(now: seq<Bigit>, n: seq<Bigit>, carry: nat, exp: nat)
    requires |now| == 2 * |n|
    requires Sum(now, |now|) + carry * Weight(|now|) == Diagonals(n, |n|, |now|)
    ensures Sum(now, |now|) * Weight(2 * exp) == (Sum(n, |n|) * Weight(exp)) * (Sum(n, |n|) * Weight(exp))
  {
    var s, w := Sum(n, |n|), Weight(|n|);
    DiagonalsAreSquare(n);
    SumBound(n, |n|);
    MulLe(s, w, s);
    MulLe(s, w, w);
    WeightAdd(|n|, |n|);
    if s > 0 {
      MulLt(s, w, s);
    }
    if carry >= 1 {
      MulLe(1, carry, Weight(|now|));
    }
    WeightAdd(exp, exp);
    Regroup(s, s, Weight(exp), Weight(exp));
  }

  // The value of a number with a nonzero top bigit is a possible divisor.
  ghost function DivisorValue(d: Bigint): (v: nat)
    requires d.HasTop()
    reads d
    ensures v > 0 && v == d.Value()
  {
    SizeBounds(d.bigits, d.exp);
    d.Value()
  }

  // Equal numbers, the first without the lower zero bigits of the second.
  ghost predicate MissesEquality(value: nat, exp: nat, divisor: nat, divisorExp: nat) {
    value == divisor && exp > divisorExp
  }
}
