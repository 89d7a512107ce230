// The exact printer: (FPP)^2 digit generation on big integers, in the branch
// that produces a given number of digits.
module Dragon {
  import opened Words
  import opened Powers
  import opened BigintSteps
  import opened BigintSizes
  import opened BigintModel
  import opened Digits
  import opened Rounding
  import opened Scaling

  // No multiple of num by a power of ten equals den.
  ghost predicate NeverMeets(num: nat, den: nat) {
    forall j: nat :: num * Pow(10, j) != den
  }

  // Equality is seen by the division: the exponents are in order, or nothing
  // but zeros has come out so far and no multiple of num ever meets den.
  ghost predicate SafeToDivide(exp: nat, denExp: nat, number: int, num: nat, den: nat) {
    exp <= denExp || (number == 0 && NeverMeets(num, den))
  }

  // The numerator has not outgrown its buffer, and will not during the division.
  ghost predicate HasRoom(numerator: Bigint, denominator: Bigint)
    reads numerator, denominator
  {
    numerator.peak <= BIGITS_CAPACITY && Fits(numerator.exp, denominator.exp, denominator.NumBigits())
  }

  // One digit. `number` is what the digits before it spell.
  method NextDigit(numerator: Bigint, denominator: Bigint, ghost num: nat, ghost number: int, ghost i: nat) returns (digit: nat)
    requires numerator != denominator && denominator.HasTop() && numerator.NormalisedFor(denominator.NumBigits())
    requires SafeToDivide(numerator.exp, denominator.exp, number, num, denominator.Value())
    requires num * Pow(10, i) == 10 * (number * denominator.Value()) + numerator.Value()
    requires numerator.Value() < 10 * denominator.Value()
    modifies numerator
    ensures digit <= 9 && numerator.Value() < denominator.Value() && numerator.NormalisedFor(denominator.NumBigits())
    ensures SafeToDivide(numerator.exp, denominator.exp, 10 * number + digit, num, denominator.Value())
    ensures num * Pow(10, i) == (10 * number + digit) * denominator.Value() + numerator.Value()
    ensures num * Pow(10, i + 1) == 10 * ((10 * number + digit) * denominator.Value()) + 10 * numerator.Value()
    ensures old(HasRoom(numerator, denominator)) ==> HasRoom(numerator, denominator)
  {
    TenfoldSize(numerator.bigits, numerator.exp, denominator.bigits, denominator.exp);
    ghost var den, value := DivisorValue(denominator), numerator.Value();
    DigitStep(num, den, number, value, i);
    if numerator.exp > denominator.exp {
      assert num * Pow(10, i) == value;
    }
    digit := numerator.DivmodAssign(denominator);
  }

  // Digit generation from a numerator and a denominator.
  method GenerateDigits(numerator: Bigint, denominator: Bigint, numDigits: nat) returns (buf: seq<char>, carried: bool)
    requires numerator != denominator && denominator.HasTop() && numerator.HasTop() && numDigits > 0
    requires numerator.Value() < 10 * denominator.Value()
    requires numerator.exp <= denominator.exp || NeverMeets(numerator.Value(), denominator.Value())
    modifies numerator
    ensures |buf| == numDigits && AllDigits(buf)
    ensures NearestEven(Number(buf) * (if carried then 10 else 1),
                        old(numerator.Value()) * Pow(10, numDigits - 1), denominator.Value())
    ensures carried ==> Number(buf) == Pow(10, numDigits - 1)
    ensures old(HasRoom(numerator, denominator)) ==> numerator.peak <= BIGITS_CAPACITY
  {
    ghost var num: nat, den: nat := numerator.Value(), denominator.Value();
    buf := [];
    for i := 0 to numDigits - 1
      invariant |buf| == i && AllDigits(buf) && numerator.NormalisedFor(denominator.NumBigits())
      invariant SafeToDivide(numerator.exp, denominator.exp, Number(buf), num, den)
      invariant num * Pow(10, i) == 10 * (Number(buf) * den) + numerator.Value()
      invariant numerator.Value() < 10 * den && Number(buf) >= 0
      invariant old(HasRoom(numerator, denominator)) ==> HasRoom(numerator, denominator)
    {
      var digit := NextDigit(numerator, denominator, num, Number(buf), i);
      NumberAppend(buf, DigitChar(digit));
      buf := buf + [DigitChar(digit)];
      numerator.Multiply32(10);
      TenfoldSize(numerator.bigits, numerator.exp, denominator.bigits, denominator.exp);
    }
    buf, carried := FinishDigits(numerator, denominator, buf, num);
  }

  // The last digit, rounded.
  method FinishDigits(numerator: Bigint, denominator: Bigint, digits: seq<char>, ghost num: nat) returns (buf: seq<char>, carried: bool)
    requires numerator != denominator && denominator.HasTop() && numerator.NormalisedFor(denominator.NumBigits())
    requires AllDigits(digits) && SafeToDivide(numerator.exp, denominator.exp, Number(digits), num, denominator.Value())
    requires num * Pow(10, |digits|) == 10 * (Number(digits) * denominator.Value()) + numerator.Value()
    requires numerator.Value() < 10 * denominator.Value() && Number(digits) >= 0
    modifies numerator
    ensures |buf| == |digits| + 1 && AllDigits(buf)
    ensures NearestEven(Number(buf) * (if carried then 10 else 1), num * Pow(10, |digits|), denominator.Value())
    ensures carried ==> Number(buf) == Pow(10, |digits|)
    ensures old(HasRoom(numerator, denominator)) ==> numerator.peak <= BIGITS_CAPACITY
  {
    var digit := NextDigit(numerator, denominator, num, Number(digits), |digits|);
    RoundFromRemainder(num * Pow(10, |digits|), denominator.Value(), 10 * Number(digits) + digit, numerator.Value());
    hide AddComparison;
    TwiceIsExact(numerator.bigits, numerator.exp, denominator.bigits, denominator.exp);
    var result := Bigint.AddCompare(numerator, numerator, denominator);
    ParityOfDigit(Number(digits), digit);
    buf, carried := RoundLastDigit(digits, digit, result);
  }

  lemma ParityOfDigit(number: int, digit: nat)
    ensures (10 * number + digit) % 2 == digit % 2
  {
    DivModUnique(10 * number + digit, 2, 5 * number + digit / 2, digit % 2);
  }

  // Appends the last digit, one higher when the remainder calls for it.
  method RoundLastDigit(digits: seq<char>, last: nat, result: int) returns (buf: seq<char>, carried: bool)
    requires AllDigits(digits) && last <= 9
    ensures |buf| == |digits| + 1 && AllDigits(buf)
    ensures Number(buf) * (if carried then 10 else 1) ==
            10 * Number(digits) + last + if result > 0 || (result == 0 && last % 2 != 0) then 1 else 0
    ensures carried ==> Number(buf) == Pow(10, |digits|)
  {
    var digit := last;
    carried := false;
    if result > 0 || (result == 0 && digit % 2 != 0) {
      if digit == 9 {
        buf := digits + [DigitChar(10)];
        NumberAppend(digits, DigitChar(10));
        assert buf[..|digits|] == digits;
        buf, carried := PropagateCarry(buf);
        return;
      }
      digit := digit + 1;
    }
    buf := digits + [DigitChar(digit)];
    NumberAppend(digits, DigitChar(digit));
  }

  // One digit: the invariant of the loop, moved one decimal place on.
  lemma DigitStep(num: nat, den: nat, number: int, value: nat, i: nat)
    requires den > 0 && value < 10 * den
    requires num * Pow(10, i) == 10 * (number * den) + value
    ensures value / den <= 9
    ensures num * Pow(10, i) == (10 * number + value / den) * den + value % den
    ensures num * Pow(10, i + 1) == 10 * ((10 * number + value / den) * den) + 10 * (value % den)
  {
    var q, r := value / den, value % den;
    assert value == q * den + r;
    if q > 9 {
      MulLe(10, q, den);
    }
    MulDistribute(10 * number, q, den);
    MulAssoc(10, number, den);
    MulAssoc(num, 10, Pow(10, i));
    MulAssoc(10, num, Pow(10, i));
  }

  // The distances to the neighbouring values, which only the shortest form
  // needs: units of the last binary place, the upper one twice as large below a
  // power of two.
  method UnitBoundaries(lower: Bigint, upper: Bigint, e: nat, shift: nat)
    requires lower != upper
    modifies lower, upper
    ensures lower.Value() == Pow(2, e) && lower.peak <= Max(old(lower.peak), 3)
    ensures shift != 1 ==> upper.Value() == 2 * lower.Value()
    ensures upper.peak <= Max(old(upper.peak), 3)
  {
    hide Pow;
    lower.Assign(1);
    lower.ShiftLeft(e);
    if shift != 1 {
      upper.Assign(1);
      upper.ShiftLeft(e + 1);
      DoublePower(e);
    }
  }

  lemma DoublePower(e: nat)
    ensures Pow(2, e + 1) == 2 * Pow(2, e)
  {
  }

  method PowerBoundaries(lower: Bigint, upper: Bigint, power: Bigint, shift: nat)
    requires lower != upper && lower != power && upper != power
    modifies lower, upper
    ensures lower.Value() == power.Value() && lower.peak <= Max(old(lower.peak), |power.bigits|)
    ensures shift != 1 ==> upper.Value() == 2 * lower.Value()
    ensures upper.peak <= Max(old(upper.peak), |power.bigits| + 1)
  {
    lower.AssignFrom(power);
    if shift != 1 {
      upper.AssignFrom(power);
      upper.ShiftLeft(1);
      DoublePower(0);
    }
  }

  // Numerator over denominator is the value seen from the place exp10, both with
  // an extra factor 2^shift. They never meet the case in which the division
  // overlooks equal operands, nor outgrow their buffers.
  ghost predicate Ready(f: nat, e: int, shift: nat, exp10: int, numerator: Bigint, denominator: Bigint)
    reads numerator, denominator
  {
    && numerator.HasTop() && denominator.HasTop()
    && numerator.Value() == Num(f, e, exp10) * Pow(2, shift)
    && denominator.Value() == Den(e, exp10) * Pow(2, shift)
    && (numerator.exp <= denominator.exp || NeverMeets(numerator.Value(), denominator.Value()))
    && (FirstDigitOfDouble(f, e, exp10) ==> HasRoom(numerator, denominator) && denominator.peak <= BIGITS_CAPACITY)
  }

  method SetUpLarge(f: nat, e: nat, shift: nat, exp10: nat, significand: nat, numerator: Bigint, denominator: Bigint)
    requires 1 <= shift <= 2 && 0 < significand == f * Pow(2, shift) < U64 && exp10 < 0x4000_0000
    requires numerator != denominator && numerator.peak == denominator.peak == 0
    modifies numerator, denominator
    ensures Ready(f, e, shift, exp10, numerator, denominator)
  {
    hide Num, Den, Pow, NeverMeets;
    numerator.Assign(significand);
    numerator.ShiftLeft(e);
    denominator.AssignPow10(exp10);
    denominator.ShiftLeft(shift);
    ScaleLarge(f, e, shift, exp10);
    if FirstDigitOfDouble(f, e, exp10) {
      DoubleBounds(f, e, exp10);
      LargeFits(f, e, shift, exp10, denominator.bigits, denominator.exp);
    }
  }

  method SetUpSmall(f: nat, e: int, shift: nat, exp10: int, significand: nat, numerator: Bigint, denominator: Bigint,
                    lower: Bigint, upper: Bigint)
    requires 1 <= shift <= 2 && 0 < significand == f * Pow(2, shift) < U64 && -0x4000_0000 < exp10 < 0 && e < 0
    requires numerator != denominator && numerator.peak == denominator.peak == lower.peak == upper.peak == 0
    requires lower != upper && {lower, upper} !! {numerator, denominator}
    modifies numerator, denominator, lower, upper
    ensures Ready(f, e, shift, exp10, numerator, denominator)
    ensures FirstDigitOfDouble(f, e, exp10) ==> lower.peak <= BIGITS_CAPACITY && upper.peak <= BIGITS_CAPACITY
  {
    hide Num, Den, Pow, NeverMeets;
    numerator.AssignPow10(-exp10);
    PowerBoundaries(lower, upper, numerator, shift);
    numerator.Multiply64(significand);
    denominator.Assign(1);
    denominator.ShiftLeft(shift - e);
    ScaleSmall(f, e, shift, exp10);
    if FirstDigitOfDouble(f, e, exp10) {
      DoubleBounds(f, e, exp10);
      SmallFits(f, e, shift, exp10, denominator.bigits, denominator.exp);
    }
  }

  method SetUpMixed(f: nat, e: int, shift: nat, exp10: nat, significand: nat, numerator: Bigint, denominator: Bigint)
    requires 1 <= shift <= 2 && 0 < significand == f * Pow(2, shift) < U64 && exp10 < 0x4000_0000 && e < 0
    requires numerator != denominator && numerator.peak == denominator.peak == 0
    modifies numerator, denominator
    ensures Ready(f, e, shift, exp10, numerator, denominator)
  {
    hide Num, Den, Pow, NeverMeets;
    numerator.Assign(significand);
    denominator.AssignPow10(exp10);
    denominator.ShiftLeft(shift - e);
    ScaleMixed(f, e, shift, exp10);
    if FirstDigitOfDouble(f, e, exp10) {
      DoubleBounds(f, e, exp10);
      MixedFits(f, e, shift, exp10, denominator.bigits, denominator.exp);
    }
  }

  method SetUp(f: nat, e: int, shift: nat, exp10: int) returns (numerator: Bigint, denominator: Bigint, lower: Bigint, upper: Bigint)
    requires f > 0 && 1 <= shift <= 2 && f * Pow(2, shift) < U64
    requires -0x4000_0000 < exp10 < 0x4000_0000
    requires Num(f, e, exp10) < 10 * Den(e, exp10)
    ensures fresh(numerator) && fresh(denominator) && numerator != denominator
    ensures Ready(f, e, shift, exp10, numerator, denominator) && numerator.Value() < 10 * denominator.Value()
    ensures fresh(lower) && fresh(upper) && {lower, upper} !! {numerator, denominator}
    ensures FirstDigitOfDouble(f, e, exp10) ==> lower.peak <= BIGITS_CAPACITY && upper.peak <= BIGITS_CAPACITY
  {
    ScaledBelowTen(Num(f, e, exp10), Den(e, exp10), shift);
    PowPositive(2, shift);
    MulPositive(f, Pow(2, shift));
    numerator := new Bigint();
    denominator := new Bigint();
    lower := new Bigint();
    upper := new Bigint();
    var significand := f * Pow(2, shift);
    hide Num, Den, Pow, NeverMeets, FirstDigitOfDouble, Fits;
    if e >= 0 {
      IntegerNeedsPositiveExponent(f, e, exp10);
      SetUpLarge(f, e, shift, exp10, significand, numerator, denominator);
      UnitBoundaries(lower, upper, e, shift);
    } else if exp10 < 0 {
      SetUpSmall(f, e, shift, exp10, significand, numerator, denominator, lower, upper);
    } else {
      SetUpMixed(f, e, shift, exp10, significand, numerator, denominator);
      UnitBoundaries(lower, upper, 0, shift);
    }
  }

  lemma ScaledBelowTen(n: nat, d: nat, shift: nat)
    requires n < 10 * d
    ensures n * Pow(2, shift) < 10 * (d * Pow(2, shift))
  {
    PowPositive(2, shift);
    MulLt(n, 10 * d, Pow(2, shift));
    MulAssoc(10, d, Pow(2, shift));
  }

  // value = f * 2^e, whose first digit is at 10^exp10 or below, rounded to
  // num_digits digits: to the place exp10 - (num_digits - 1). When the digits
  // overflow they are those of a tenth of the result, with a higher exponent.
  method FallbackFormat(f: nat, e: int, shift: nat, exp10: int, numDigits: nat) returns (buf: seq<char>, exp10': int, ghost peak: nat)
    requires f > 0 && 1 <= shift <= 2 && f * Pow(2, shift) < U64
    requires -0x4000_0000 < exp10 < 0x4000_0000
    requires Num(f, e, exp10) < 10 * Den(e, exp10)
    ensures AllDigits(buf) && |buf| == if numDigits == 0 then 1 else numDigits
    ensures var place := exp10 - (numDigits - 1);
            && (exp10' == place || (exp10' == place + 1 && Number(buf) == Pow(10, |buf| - 1)))
            && NearestEven(Number(buf) * Pow(10, exp10' - place), Num(f, e, place), Den(e, place))
    ensures FirstDigitOfDouble(f, e, exp10) ==> peak <= BIGITS_CAPACITY
  {
    var numerator, denominator, lower, upper := SetUp(f, e, shift, exp10);
    exp10' := exp10 - (numDigits - 1);
    PowPositive(2, shift);
    if numDigits == 0 {
      buf := RoundToUnit(numerator, denominator);
      UnitPlace(Number(buf), f, e, shift, exp10);
      peak := Max(Max(numerator.peak, denominator.peak), Max(lower.peak, upper.peak));
      return;
    }
    var carried;
    buf, carried := GenerateDigits(numerator, denominator, numDigits);
    peak := Max(Max(numerator.peak, denominator.peak), Max(lower.peak, upper.peak));
    LastPlace(Number(buf) * (if carried then 10 else 1), f, e, shift, exp10, numDigits);
    if carried {
      exp10' := exp10' + 1;
    }
  }

  lemma UnitPlace(x: int, f: nat, e: int, shift: nat, exp10: int)
    requires Pow(2, shift) > 0
    requires NearestEven(x, Num(f, e, exp10) * Pow(2, shift), Den(e, exp10) * Pow(2, shift) * 10)
    ensures NearestEven(x, Num(f, e, exp10 + 1), Den(e, exp10 + 1))
  {
    PlaceStep(f, e, exp10);
    UnitRatio(x, Num(f, e, exp10), Den(e, exp10), Num(f, e, exp10 + 1), Den(e, exp10 + 1), Pow(2, shift));
  }

  lemma UnitRatio(x: int, n: nat, d: nat, n': nat, d': nat, s: nat)
    requires d > 0 && d' > 0 && s > 0 && n * d' == 10 * n' * d
    requires NearestEven(x, n * s, d * s * 10)
    ensures NearestEven(x, n', d')
  {
    Swap(d, s, 10);
    NearestEvenScale(x, n, d * 10, s);
    MulAssoc(10, n', d);
    MulAssoc(n', d, 10);
    NearestEvenRatio(x, n, d * 10, n', d');
  }

  lemma LastPlace(x: int, f: nat, e: int, shift: nat, exp10: int, numDigits: nat)
    requires Pow(2, shift) > 0 && numDigits > 0
    requires NearestEven(x, Num(f, e, exp10) * Pow(2, shift) * Pow(10, numDigits - 1), Den(e, exp10) * Pow(2, shift))
    ensures NearestEven(x, Num(f, e, exp10 - (numDigits - 1)), Den(e, exp10 - (numDigits - 1)))
  {
    var place := exp10 - (numDigits - 1);
    PlaceShift(f, e, place, numDigits - 1);
    PlaceRatio(x, Num(f, e, exp10), Den(e, exp10), Num(f, e, place), Den(e, place), Pow(2, shift), Pow(10, numDigits - 1));
  }

  lemma PlaceRatio(x: int, n: nat, d: nat, n': nat, d': nat, s: nat, p: nat)
    requires d > 0 && d' > 0 && s > 0 && n' * d == p * n * d'
    requires NearestEven(x, n * s * p, d * s)
    ensures NearestEven(x, n', d')
  {
    Swap(n, s, p);
    MulLe(0, n, p);
    NearestEvenScale(x, n * p, d, s);
    assert n * p == p * n;
    NearestEvenRatio(x, n * p, d, n', d');
  }

  // No digits are wanted: only whether the value rounds up to one unit.
  method RoundToUnit(numerator: Bigint, denominator: Bigint) returns (buf: seq<char>)
    requires numerator != denominator && numerator.HasTop() && denominator.HasTop()
    requires numerator.Value() < 10 * denominator.Value()
    modifies denominator
    ensures |buf| == 1 && AllDigits(buf)
    ensures NearestEven(Number(buf), old(numerator.Value()), old(denominator.Value()) * 10)
    ensures old(HasRoom(numerator, denominator)) ==> denominator.peak <= Max(old(denominator.peak), BIGITS_CAPACITY)
  {
    ghost var num, den := numerator.Value(), denominator.Value() * 10;
    denominator.Multiply32(10);
    hide AddComparison;
    TwiceIsExact(numerator.bigits, numerator.exp, denominator.bigits, denominator.exp);
    var result := Bigint.AddCompare(numerator, numerator, denominator);
    buf := [if result > 0 then '1' else '0'];
    assert buf[..0] == [];
    RoundFromRemainder(num, den, 0, num);
  }

  // An integer value below 10^(exp10 + 1) has exp10 >= 0.
  lemma IntegerNeedsPositiveExponent(f: nat, e: int, exp10: int)
    requires f > 0 && e >= 0 && Num(f, e, exp10) < 10 * Den(e, exp10)
    ensures exp10 >= 0
  {
    if exp10 < 0 {
      PowPositive(2, e);
      MulPositive(f, Pow(2, e));
      PowMonotone(10, 1, -exp10);
      MulLe(1, f * Pow(2, e), Pow(10, -exp10));
    }
  }

  lemma ScaleLarge(f: nat, e: int, shift: nat, exp10: int)
    requires e >= 0 && exp10 >= 0 && shift <= 2
    ensures f * Pow(2, shift) * Pow(2, e) == Num(f, e, exp10) * Pow(2, shift)
    ensures Pow(10, exp10) * Pow(2, shift) == Den(e, exp10) * Pow(2, shift)
    ensures e / 32 <= exp10 / 32 + shift / 32 || NeverMeets(Num(f, e, exp10) * Pow(2, shift), Den(e, exp10) * Pow(2, shift))
  {
    Swap(f, Pow(2, shift), Pow(2, e));
    if e > exp10 {
      EvenNeverMeetsOdd(f, e, shift, exp10);
    }
  }

  lemma ScaleSmall(f: nat, e: int, shift: nat, exp10: int)
    requires e < 0 && exp10 < 0
    ensures Pow(10, -exp10) * (f * Pow(2, shift)) == Num(f, e, exp10) * Pow(2, shift)
    ensures Pow(2, shift - e) == Den(e, exp10) * Pow(2, shift)
    ensures NeverMeets(Num(f, e, exp10) * Pow(2, shift), Den(e, exp10) * Pow(2, shift))
  {
    PowAdd(2, shift, -e);
    SmallProduct(f, Pow(10, -exp10), Pow(2, shift));
    FiveNeverMeetsTwo(-exp10, f * Pow(2, shift), shift - e);
  }

  lemma SmallProduct(f: int, p: int, s: int)
    ensures p * (f * s) == f * 1 * p * s
  {
    MulAssoc(p, f, s);
  }

  lemma ScaleMixed(f: nat, e: int, shift: nat, exp10: int)
    requires e < 0 && exp10 >= 0
    ensures f * Pow(2, shift) == Num(f, e, exp10) * Pow(2, shift)
    ensures Pow(10, exp10) * Pow(2, shift - e) == Den(e, exp10) * Pow(2, shift)
  {
    PowAdd(2, shift, -e);
    MulAssoc(Pow(10, exp10), Pow(2, shift), Pow(2, -e));
    Swap(Pow(10, exp10), Pow(2, shift), Pow(2, -e));
  }

  lemma {:induction false} PowerOfFiveIsOdd(k: nat)
    ensures Pow(5, k) % 2 == 1
  {
    if k == 0 {
    } else {
      PowerOfFiveIsOdd(k - 1);
      var p := Pow(5, k - 1);
      DivModUnique(5 * p, 2, 2 * p + p / 2, p % 2);
    }
  }

  lemma {:induction false} PowerOfTwoMissesFive(k: nat)
    ensures Pow(2, k) % 5 != 0
  {
    if k == 0 {
    } else {
      PowerOfTwoMissesFive(k - 1);
    }
  }

  // With more factors of two on the left the two sides cannot be equal.
  lemma EvenNeverMeetsOdd(f: nat, e: nat, shift: nat, exp10: nat)
    requires e > exp10
    ensures NeverMeets(f * Pow(2, shift) * Pow(2, e), Pow(10, exp10) * Pow(2, shift))
  {
    forall j: nat
      ensures f * Pow(2, shift) * Pow(2, e) * Pow(10, j) != Pow(10, exp10) * Pow(2, shift)
    {
      var s, t, p := Pow(2, shift), Pow(2, exp10), Pow(2, e - exp10 - 1);
      PowAdd(2, exp10, e - exp10);
      PowMul(5, 2, exp10);
      PowerOfFiveIsOdd(exp10);
      PowPositive(2, shift);
      PowPositive(2, exp10);
      EvenSide(f, s, t, p, Pow(10, j));
      if f * s * (t * (2 * p)) * Pow(10, j) == Pow(5, exp10) * t * s {
        MulAssoc(Pow(5, exp10), t, s);
        MulAssoc(2 * (f * p * Pow(10, j)), t, s);
        MulPositive(t, s);
        MulCancel(2 * (f * p * Pow(10, j)), Pow(5, exp10), t * s);
        assert false;
      }
    }
  }

  lemma EvenSide(f: int, s: int, t: int, p: int, q: int)
    ensures f * s * (t * (2 * p)) * q == 2 * (f * p * q) * t * s
  {
    calc {
      f * s * (t * (2 * p)) * q;
      { MulAssoc(f * s, t, 2 * p); }
      f * s * t * (2 * p) * q;
      { Swap(f * s * t, 2 * p, q); }
      f * s * t * q * (2 * p);
      2 * (f * s * t * q * p);
      { Swap(f * s * t, q, p); Swap(f * s, t, p); Swap(f, s, p); Swap(f * p * s, t, q); Swap(f * p, s, q); Swap(f * p * q, s, t); }
      2 * (f * p * q * t * s);
      { MulAssoc(2, f * p * q * t, s); MulAssoc(2, f * p * q, t); }
      2 * (f * p * q) * t * s;
    }
  }

  // A multiple of ten is not a power of two.
  lemma FiveNeverMeetsTwo(m: nat, significand: nat, t: nat)
    requires m > 0
    ensures NeverMeets(Pow(10, m) * significand, Pow(2, t))
  {
    PowerOfTwoMissesFive(t);
    forall j: nat
      ensures Pow(10, m) * significand * Pow(10, j) != Pow(2, t)
    {
      var rest := 2 * (Pow(10, m - 1) * significand * Pow(10, j));
      MulAssoc(10, Pow(10, m - 1), significand);
      MulAssoc(10, Pow(10, m - 1) * significand, Pow(10, j));
      assert Pow(10, m) * significand * Pow(10, j) == 5 * rest;
      DivModUnique(5 * rest, 5, rest, 0);
    }
  }
}
