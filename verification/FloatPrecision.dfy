// Where the digits that are printed fall short of the precision asked for, and
// where they do not.
module FloatPrecision {
  import opened Words
  import opened Powers
  import opened Rounding
  import opened Scaling
  import opened Grisu
  import opened CountDigitsModel
  import opened CachedPowers
  import opened FormatFloatModel
  import opened Dragon

  // Rounded at the place above its only digit, the value comes out as it would
  // at the right place only if it rounds up to ten there.
  lemma TenthRounded(d: int, x: int, n: nat, m: nat)
    requires m > 0 && n < 10 * m && 2 * n > m
    requires NearestEven(d, n, 10 * m) && NearestEven(x, n, m)
    ensures 10 * d == x <==> 2 * n >= 19 * m
  {
    if d <= -1 {
      MulLe(d, -1, 10 * m);
    } else if d >= 2 {
      MulLe(2, d, 10 * m);
    }
    if 2 * n >= 19 * m {
      NearestEvenUnique(x, 10, n, m);
    }
  }

  // Precision zero outside fixed format, with the place and the rounding that
  // FormatFloat ensures: the result d * 10^place is the value rounded to one
  // digit exactly when the printer stays at that place, or when the value
  // rounds up to the next power of ten anyway.
  lemma PrecisionZero(f: nat, e: int, place: int, d: int, x: int)
    requires IsDouble(f, e)
    requires place == PromisedPlace(f, e, 0, false) + if RoundsTooHigh(f, e, 0, false) then 1 else 0
    requires NearestEven(d, Num(f, e, place), Den(e, place))
    requires var first := FirstPlace(f, e); NearestEven(x, Num(f, e, first), Den(e, first))
    ensures var first := FirstPlace(f, e);
            d * Pow(10, place - first) == x <==> !RoundsTooHigh(f, e, 0, false) || 2 * Num(f, e, first) >= 19 * Den(e, first)
  {
    hide RoundsTooHigh, FirstPlace, NearestEven, Num, Den;
    var first := FirstPlace(f, e);
    assert Pow(10, 0) == 1 && Pow(10, 1) == 10;
    if RoundsTooHigh(f, e, 0, false) {
      FirstPlaceIsFirst(f, e);
      PlaceStep(f, e, first);
      OneHigher(d, Num(f, e, first), Den(e, first), Num(f, e, first + 1), Den(e, first + 1));
      TenthRounded(d, x, Num(f, e, first), Den(e, first));
    } else {
      NearestEvenUnique(d, x, Num(f, e, first), Den(e, first));
    }
  }

  lemma OneHigher(d: int, n: nat, m: nat, n': nat, m': nat)
    requires m > 0 && m' > 0 && n * m' == 10 * n' * m && NearestEven(d, n', m')
    ensures NearestEven(d, n, 10 * m)
  {
    Swap(10, n', m);
    assert n * m' == n' * (10 * m) by {
      MulAssoc(n', 10, m);
    }
    NearestEvenRatio(d, n, 10 * m, n', m');
  }

  // The double two and a half, asked for with precision zero, is printed as zero
  // and not as two.
  lemma TwoAndAHalf()
    ensures var f, e := 0x14_0000_0000_0000, -51;
            && IsDouble(f, e) && FirstPlace(f, e) == 0 && RoundsTooHigh(f, e, 0, false)
            && NearestEven(2, Num(f, e, 0), Den(e, 0)) && NearestEven(0, Num(f, e, 1), Den(e, 1))
  {
    hide Scaled, Kappa, UndecidedAtFirstDigit, Num, Den;
    ScaledTwoAndAHalf();
    FirstDigitOfTwoAndAHalf(25_000 * 0x1_0000_0000_0000);
    FractionOfTwoAndAHalf();
  }

  lemma ScaledTwoAndAHalf()
    ensures Scaled(0x14_0000_0000_0000, -51) == ScaledValue(25_000 * 0x1_0000_0000_0000, 48, 4)
  {
    assert Pow(2, 11) == 2048 && Shift(0x14_0000_0000_0000) == 11;
    assert Index(-62) == 44;
    assert GetCachedPower(-62) == CachedPower(0x9c40_0000_0000_0000, -50, 4);
  }

  lemma FirstDigitOfTwoAndAHalf(scaled: nat)
    requires scaled == 25_000 * 0x1_0000_0000_0000
    ensures Pow(2, 48) <= scaled && Kappa(scaled, 48) == 5 && UndecidedAtFirstDigit(scaled, 48)
  {
    TwoToFortyEight();
    FiveDigits(scaled);
    assert Pow(10, 4) == 10_000 by {
      PowersOfTen();
    }
    FirstDigitUnknown(scaled, 48, 10_000, 0x1_0000_0000_0000, 2, 5_000 * 0x1_0000_0000_0000);
  }

  // Half the first digit's unit is left over.
  lemma FirstDigitUnknown(f: nat, s: nat, power: nat, one: nat, q: nat, r: nat)
    requires 32 <= s <= 60 && Pow(2, s) <= f < U64 && power == Pow(10, Kappa(f, s) - 1) && one == Pow(2, s)
    requires f == q * (power * one) + r && 2 * r == power * one
    ensures UndecidedAtFirstDigit(f, s)
  {
    hide Kappa, Pow;
    FirstDivisorFits(f, s);
    DivModUnique(f, power * one, q, r);
  }

  lemma TwoToFortyEight()
    ensures Pow(2, 48) == 0x1_0000_0000_0000
  {
    PowersOfTwo();
    PowAdd(2, 24, 24);
  }

  lemma FiveDigits(scaled: nat)
    requires Pow(2, 48) == 0x1_0000_0000_0000 && scaled == 25_000 * 0x1_0000_0000_0000
    ensures Kappa(scaled, 48) == 5
  {
    PowersOfTen();
    hide Kappa, Pow;
    HasDigitsUnique(25_000, Kappa(scaled, 48), 5);
  }

  lemma FractionOfTwoAndAHalf()
    ensures NearestEven(2, Num(0x14_0000_0000_0000, -51, 0), Den(-51, 0))
    ensures NearestEven(0, Num(0x14_0000_0000_0000, -51, 1), Den(-51, 1))
  {
    PowersOfTwo();
    PowAdd(2, 27, 24);
    assert Pow(2, 0) == 1 && Pow(10, 0) == 1 && Pow(10, 1) == 10;
  }

  function Min(a: int, b: int): int {
    if a < b then a else b
  }

  // Digits cut off at a place stand for the number at a place `p` times finer
  // exactly when what the rounding moved is no more than half a unit there.
  lemma CutOff(d: int, x: int, n: nat, m: nat, p: nat)
    requires m > 0 && p > 0 && p % 2 == 0
    requires NearestEven(d, n, m) && NearestEven(x, n * p, m)
    ensures d * p == x <==> 2 * Min(n % m, m - n % m) * p <= m
  {
    RoundingMoves(d, n, m);
    MulDistribute(n, d * m, p);
    Swap(d, m, p);
    AbsScale(n - d * m, p);
    EvenProduct(d, p);
    if 2 * Abs(n - d * m) * p <= m {
      NearestEvenUnique(d * p, x, n * p, m);
    }
  }

  lemma RoundingMoves(d: int, n: nat, m: nat)
    requires m > 0 && Nearest(d, n, m)
    ensures Abs(n - d * m) == Min(n % m, m - n % m)
  {
    if n - d * m >= 0 {
      DivModUnique(n, m, d, n - d * m);
    } else {
      MulDistribute(d, 1, m);
      DivModUnique(n, m, d - 1, n - d * m + m);
    }
  }

  lemma EvenProduct(d: int, p: nat)
    requires p % 2 == 0
    ensures d * p % 2 == 0
  {
    assert p == 2 * (p / 2);
    MulAssoc(d, p / 2, 2);
    DivModUnique(d * p, 2, d * (p / 2), 0);
  }

  // What is left of the value at the last place that fixed format reaches.
  ghost function Rest(f: nat, e: int): nat {
    Num(f, e, -MAX_DOUBLE_DIGITS) % Den(e, -MAX_DOUBLE_DIGITS)
  }

  // Fixed format with a precision beyond the limit, with the place and the
  // rounding that FormatFloat ensures: when the result is still the value
  // rounded at the place asked for.
  lemma BeyondTheLimit(f: nat, e: int, precision: nat, d: int, x: int)
    requires precision > MAX_DOUBLE_DIGITS
    requires NearestEven(d, Num(f, e, -MAX_DOUBLE_DIGITS), Den(e, -MAX_DOUBLE_DIGITS))
    requires NearestEven(x, Num(f, e, 0 - precision), Den(e, 0 - precision))
    ensures var p, den := Pow(10, precision - MAX_DOUBLE_DIGITS), Den(e, -MAX_DOUBLE_DIGITS);
            d * p == x <==> 2 * Min(Rest(f, e), den - Rest(f, e)) * p <= den
  {
    var more := precision - MAX_DOUBLE_DIGITS;
    FinerPlace(f, e, MAX_DOUBLE_DIGITS, more);
    PowPositive(10, more);
    PowerOfTenIsEven(more);
    CutOff(d, x, Num(f, e, -MAX_DOUBLE_DIGITS), Den(e, -MAX_DOUBLE_DIGITS), Pow(10, more));
  }

  lemma FinerPlace(f: nat, e: int, places: nat, more: nat)
    requires places > 0
    ensures Num(f, e, 0 - (places + more)) == Num(f, e, 0 - places) * Pow(10, more)
    ensures Den(e, 0 - (places + more)) == Den(e, 0 - places)
  {
    var m := f * Pow(2, if e >= 0 then e else 0);
    PowAdd(10, places, more);
    MulAssoc(m, Pow(10, places), Pow(10, more));
  }

  lemma PowerOfTenIsEven(k: nat)
    requires k > 0
    ensures Pow(10, k) % 2 == 0
  {
    DivModUnique(Pow(10, k), 2, 5 * Pow(10, k - 1), 0);
  }

  // The value has no binary digits beyond the limit.
  ghost predicate FewBits(f: nat, e: int) {
    e >= -MAX_DOUBLE_DIGITS || MultipleOfPower(f, -e - MAX_DOUBLE_DIGITS)
  }

  ghost predicate MultipleOfPower(f: nat, j: nat) {
    PowPositive(2, j);
    f % Pow(2, j) == 0
  }

  // Exactly then it has no decimal digits there.
  lemma RestVanishes(f: nat, e: int)
    ensures Rest(f, e) == 0 <==> FewBits(f, e)
  {
    if e >= 0 {
      assert Den(e, -MAX_DOUBLE_DIGITS) == 1;
    } else if e >= -MAX_DOUBLE_DIGITS {
      WholeAtPlace(f, e, MAX_DOUBLE_DIGITS);
    } else {
      RestOfSmall(f, -e - MAX_DOUBLE_DIGITS);
      PowerOfFiveIsOdd(MAX_DOUBLE_DIGITS);
      OddFactor(f, Pow(5, MAX_DOUBLE_DIGITS), -e - MAX_DOUBLE_DIGITS);
      PowPositive(2, MAX_DOUBLE_DIGITS);
    }
  }

  // A binary fraction of k bits has at most k decimal digits.
  lemma WholeAtPlace(f: nat, e: int, k: nat)
    requires 0 < -e <= k
    ensures Num(f, e, 0 - k) % Den(e, 0 - k) == 0
  {
    PowAdd(2, -e, k + e);
    PowMul(5, 2, k);
    PowPositive(2, -e);
    Multiple(f, Pow(5, k), Pow(2, -e), Pow(2, k + e));
  }

  lemma Multiple(f: nat, a: nat, b: nat, c: nat)
    requires b > 0
    ensures f * 1 * (a * (b * c)) % (b * 1) == 0
  {
    assert f * (a * (b * c)) == f * a * c * b + 0 by {
      MulAssoc(a, b, c);
      Swap(a, b, c);
      MulAssoc(f, a * c, b);
      MulAssoc(f, a, c);
    }
    DivModUnique(f * (a * (b * c)), b, f * a * c, 0);
  }

  lemma RestOfSmall(f: nat, j: nat)
    requires j > 0
    ensures Pow(2, j) > 0 && Den(0 - MAX_DOUBLE_DIGITS - j, -MAX_DOUBLE_DIGITS) == Pow(2, j) * Pow(2, MAX_DOUBLE_DIGITS)
    ensures Rest(f, 0 - MAX_DOUBLE_DIGITS - j) == f * Pow(5, MAX_DOUBLE_DIGITS) % Pow(2, j) * Pow(2, MAX_DOUBLE_DIGITS)
  {
    hide Num, Den, Pow;
    FractionBelow(f, MAX_DOUBLE_DIGITS + j, MAX_DOUBLE_DIGITS);
    PowAdd(2, j, MAX_DOUBLE_DIGITS);
    PowMul(5, 2, MAX_DOUBLE_DIGITS);
    PowPositive(2, j);
    PowPositive(2, MAX_DOUBLE_DIGITS);
    MulAssoc(f, Pow(5, MAX_DOUBLE_DIGITS), Pow(2, MAX_DOUBLE_DIGITS));
    ModScale(f * Pow(5, MAX_DOUBLE_DIGITS), Pow(2, j), Pow(2, MAX_DOUBLE_DIGITS));
  }

  lemma ModScale(a: nat, b: nat, k: nat)
    requires b > 0 && k > 0
    ensures b * k > 0 && a * k % (b * k) == a % b * k
  {
    var q, r := a / b, a % b;
    MulPositive(b, k);
    MulDistribute(q * b, r, k);
    MulAssoc(q, b, k);
    MulLt(r, b, k);
    MulLe(0, r, k);
    DivModUnique(a * k, b * k, q, r * k);
  }

  // An odd factor does not help to divide by a power of two.
  lemma {:induction false} OddFactor(f: nat, u: nat, j: nat)
    requires u % 2 == 1
    ensures MultipleOfPower(f * u, j) <==> MultipleOfPower(f, j)
    decreases j
  {
    if j == 0 {
    } else if f % 2 == 1 {
      OddProduct(f, u);
      OddIsNoMultiple(f, j);
      OddIsNoMultiple(f * u, j);
    } else {
      OddFactor(f / 2, u, j - 1);
      MulAssoc(2, f / 2, u);
      HalfMultiple(f / 2, j);
      HalfMultiple(f / 2 * u, j);
    }
  }

  lemma HalfMultiple(a: nat, j: nat)
    requires j > 0
    ensures MultipleOfPower(2 * a, j) <==> MultipleOfPower(a, j - 1)
  {
    PowPositive(2, j - 1);
    ModScale(a, Pow(2, j - 1), 2);
  }

  lemma OddProduct(a: nat, b: nat)
    requires a % 2 == 1 && b % 2 == 1
    ensures a * b % 2 == 1
  {
    var k := a / 2;
    MulDistribute(2 * k, 1, b);
    MulAssoc(2, k, b);
    DivModUnique(a * b, 2, k * b + b / 2, 1);
  }

  lemma OddIsNoMultiple(a: nat, j: nat)
    requires a % 2 == 1 && j > 0
    ensures !MultipleOfPower(a, j)
  {
    PowPositive(2, j - 1);
    var p := Pow(2, j - 1);
    if a % (2 * p) == 0 {
      MulAssoc(a / (2 * p), p, 2);
      DivModUnique(a, 2, a / (2 * p) * p, 0);
    }
  }

  // With so many digits asked for, whatever is left over shows.
  lemma LongPrecision(f: nat, e: int, precision: nat, d: int, x: int)
    requires IsDouble(f, e) && precision >= MAX_DOUBLE_DIGITS + 102
    requires NearestEven(d, Num(f, e, -MAX_DOUBLE_DIGITS), Den(e, -MAX_DOUBLE_DIGITS))
    requires NearestEven(x, Num(f, e, 0 - precision), Den(e, 0 - precision))
    ensures d * Pow(10, precision - MAX_DOUBLE_DIGITS) == x <==> FewBits(f, e)
  {
    hide NearestEven, Num, Den, Rest, FewBits, Pow;
    BeyondTheLimit(f, e, precision, d, x);
    RestVanishes(f, e);
    PowPositive(10, precision - MAX_DOUBLE_DIGITS);
    if Rest(f, e) != 0 {
      RestShows(f, e, precision - MAX_DOUBLE_DIGITS);
    }
  }

  lemma RestShows(f: nat, e: int, more: nat)
    requires IsDouble(f, e) && more >= 102 && Rest(f, e) != 0
    ensures var den := Den(e, -MAX_DOUBLE_DIGITS); 2 * Min(Rest(f, e), den - Rest(f, e)) * Pow(10, more) > den
  {
    RestVanishes(f, e);
    var j: nat := -e - MAX_DOUBLE_DIGITS;
    RestOfSmall(f, j);
    assert e == 0 - MAX_DOUBLE_DIGITS - j;
    TensBetweenTwos(more);
    PowMonotone(2, j, 307);
    PowMonotone(2, 306, 3 * more);
    PowPositive(2, MAX_DOUBLE_DIGITS);
    UnitsShow(f * Pow(5, MAX_DOUBLE_DIGITS) % Pow(2, j), Pow(2, j), Pow(2, MAX_DOUBLE_DIGITS), Pow(10, more));
  }

  lemma UnitsShow(r: nat, m: nat, unit: nat, p: nat)
    requires r * unit != 0 && r < m < 2 * p
    ensures 2 * Min(r * unit, m * unit - r * unit) * p > m * unit
  {
    MulDistribute(m, r, unit);
    if r == 0 {
      assert false;
    }
    UnitShows(r, m, unit, p);
    UnitShows(m - r, m, unit, p);
  }

  lemma UnitShows(a: nat, m: nat, unit: nat, p: nat)
    requires a > 0 && unit > 0 && m < 2 * p
    ensures 2 * (a * unit) * p > m * unit
  {
    MulLe(1, a, unit);
    MulLe(2 * unit, 2 * (a * unit), p);
    Swap(2, unit, p);
    MulLt(m, 2 * p, unit);
  }

  // The smallest double does not get the digits it has.
  lemma SmallestDouble(precision: nat, d: int, x: int)
    requires precision >= 1074
    requires NearestEven(d, Num(1, -1074, -MAX_DOUBLE_DIGITS), Den(-1074, -MAX_DOUBLE_DIGITS))
    requires NearestEven(x, Num(1, -1074, 0 - precision), Den(-1074, 0 - precision))
    ensures d * Pow(10, precision - MAX_DOUBLE_DIGITS) != x
  {
    LongPrecision(1, -1074, precision, d, x);
    PowMonotone(2, 1, 307);
  }

  // Outside fixed format the limit is harmless: no double has more significant
  // digits.
  lemma SignificantDigits(f: nat, e: int, precision: nat, d: int, x: int)
    requires IsDouble(f, e) && precision > MAX_DOUBLE_DIGITS
    requires var limit := PromisedPlace(f, e, MAX_DOUBLE_DIGITS, false); NearestEven(d, Num(f, e, limit), Den(e, limit))
    requires var place := PromisedPlace(f, e, precision, false); NearestEven(x, Num(f, e, place), Den(e, place))
    ensures d * Pow(10, precision - MAX_DOUBLE_DIGITS) == x
  {
    hide NearestEven, Num, Den, FirstPlace, Pow;
    var place, more := PromisedPlace(f, e, precision, false), precision - MAX_DOUBLE_DIGITS;
    var limit := place + more;
    WholeAtLimit(f, e);
    PlaceShift(f, e, place, more);
    WholeStaysWhole(d, x, Num(f, e, limit), Den(e, limit), Num(f, e, place), Den(e, place), Pow(10, more));
  }

  lemma WholeStaysWhole(d: int, x: int, n: nat, m: nat, n': nat, m': nat, p: nat)
    requires m > 0 && m' > 0 && n % m == 0 && n' * m == p * n * m'
    requires NearestEven(d, n, m) && NearestEven(x, n', m')
    ensures d * p == x
  {
    var q := n / m;
    assert n == q * m;
    NearestEvenUnique(d, q, n, m);
    MulAssoc(p, q, m);
    Swap(p * q, m, m');
    MulCancel(n', p * q * m', m);
    assert p * q == q * p;
    NearestEvenUnique(x, q * p, n', m');
  }

  lemma WholeAtLimit(f: nat, e: int)
    requires IsDouble(f, e)
    ensures var limit := PromisedPlace(f, e, MAX_DOUBLE_DIGITS, false); Num(f, e, limit) % Den(e, limit) == 0
  {
    var limit := PromisedPlace(f, e, MAX_DOUBLE_DIGITS, false);
    hide FirstPlace;
    FirstPlaceBelow(f, e);
    if e < 0 {
      WholeAtPlace(f, e, 0 - limit);
    } else {
      assert Pow(2, 0) == 1 && Pow(10, 0) == 1;
    }
  }

  // A double's digits end before the 767th.
  lemma FirstPlaceBelow(f: nat, e: int)
    requires IsDouble(f, e)
    ensures FirstPlace(f, e) <= 766 + if e < 0 then e else 0
  {
    hide FirstPlace, Num, Den;
    var first := FirstPlace(f, e);
    FirstPlaceIsFirst(f, e);
    if first > 766 + if e < 0 then e else 0 {
      if first >= 0 {
        LargeFirst(f, e, first);
      } else {
        SmallFirst(f, -e, -first);
      }
    }
  }

  lemma LargeFirst(f: nat, e: int, first: nat)
    requires IsDouble(f, e) && first > 766 + if e < 0 then e else 0
    ensures 2 * Num(f, e, first) <= Den(e, first)
  {
    hide Num, Den, Pow;
    var up, down := Positive(e), Negative(e);
    FractionAbove(f, e, first);
    TensBetweenTwos(first);
    PowAdd(2, down, 3 * first);
    PowMonotone(2, 54 + up, down + 3 * first);
    TwoTo54();
    PowAdd(2, 54, up);
    LargeParts(f, Pow(2, up), Pow(2, 54), Pow(2, down), Pow(2, 3 * first), Pow(10, first));
  }

  lemma LargeParts(f: nat, up: nat, most: nat, down: nat, small: nat, large: nat)
    requires 2 * f <= most && most * up <= down * small && small <= large
    ensures 2 * (f * up) <= down * large
  {
    MulLe(2 * f, most, up);
    MulAssoc(2, f, up);
    MulLe(small, large, down);
    assert down * small == small * down && down * large == large * down;
  }

  lemma SmallFirst(f: nat, t: nat, g: nat)
    requires f < 0x20_0000_0000_0000 && 0 < g <= t - 767 && t <= 1074
    ensures 2 * Num(f, 0 - t, 0 - g) <= Den(0 - t, 0 - g)
  {
    hide Num, Den, Pow;
    TwoTo54();
    PowMul(5, 2, g);
    PowMonotone(5, g, 307);
    FivesBelowTwos();
    PowAdd(2, 54, 713);
    PowAdd(2, 767, g);
    PowMonotone(2, 767 + g, t);
    FractionBelow(f, t, g);
    PowPositive(2, g);
    Factors(f, Pow(5, g), Pow(2, g), Pow(2, 54), Pow(2, 713));
  }

  lemma Factors(f: nat, a: nat, b: nat, c: nat, d: nat)
    requires 2 * f <= c && a <= d
    ensures 2 * (f * (a * b)) <= c * d * b
  {
    MulLe(2 * f, c, a);
    MulLe(a, d, c);
    assert c * a == a * c && d * c == c * d;
    MulLe(2 * f * a, c * d, b);
    MulAssoc(2 * f, a, b);
    MulAssoc(2, f, a * b);
  }

  lemma FivesBelowTwos()
    ensures Pow(5, 307) <= Pow(2, 713)
  {
    hide Pow;
    FiveTo59();
    PowOfPow(5, 59, 5);
    PowOfPow(2, 137, 5);
    PowBaseMonotone(Pow(5, 59), Pow(2, 137), 5);
    PowAdd(5, 295, 12);
    PowAdd(2, 685, 28);
    MulLe(Pow(5, 295), Pow(2, 685), Pow(5, 12));
    MulLe(Pow(5, 12), Pow(2, 28), Pow(2, 685));
  }

  lemma FiveTo59()
    ensures Pow(5, 12) <= Pow(2, 28) && Pow(5, 59) <= Pow(2, 137)
  {
    PowersOfTwo();
    assert Pow(5, 6) == 15_625;
    PowAdd(5, 6, 6);
    PowAdd(5, 12, 12);
    PowAdd(5, 24, 24);
    assert Pow(5, 11) == 48_828_125;
    PowAdd(5, 48, 11);
    PowAdd(2, 27, 27);
    PowAdd(2, 1, 27);
    PowAdd(2, 54, 54);
    PowAdd(2, 29, 108);
  }

  lemma {:induction false} PowBaseMonotone(a: nat, b: nat, n: nat)
    requires a <= b
    ensures Pow(a, n) <= Pow(b, n)
  {
    if n == 0 {
    } else {
      PowBaseMonotone(a, b, n - 1);
      MulLe(a, b, Pow(a, n - 1));
      MulLe(Pow(a, n - 1), Pow(b, n - 1), b);
    }
  }
}
