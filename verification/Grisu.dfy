// The fast printer: Grisu digit generation with an error bound, and the
// handler that stops it at a fixed number of digits.
module Grisu {
  import opened Words
  import opened Powers
  import opened Digits
  import opened CountDigitsModel

  datatype RoundDirection = Unknown | Up | Down

  // Rounding a remainder known up to an error: down when even the largest
  // possible remainder is not above half, up when even the smallest is not
  // below half.
  function GetRoundDirection(divisor: nat, remainder: nat, error: nat): (direction: RoundDirection)
    requires remainder < divisor && 2 * error < divisor
    ensures direction == Down <==> 2 * (remainder + error) <= divisor
    ensures direction == Up ==> 2 * (remainder - error) >= divisor
    ensures direction == Unknown <==> 2 * (remainder - error) < divisor < 2 * (remainder + error)
  {
    if remainder <= divisor - remainder && error * 2 <= divisor - remainder * 2 then Down
    else if remainder >= error && remainder - error >= divisor - (remainder - error) then Up
    else Unknown
  }

  datatype Result = More | Done | Error

  // d is within half of `unit` of everything within `error` of `total`.
  ghost predicate Covers(d: int, unit: nat, total: int, error: nat) {
    2 * (total + error - d * unit) <= unit && 2 * (d * unit - (total - error)) <= unit
  }

  lemma RoundDown(d: int, unit: nat, total: int, remainder: nat, error: nat)
    requires total == d * unit + remainder && remainder < unit && 2 * error < unit
    requires 2 * (remainder + error) <= unit
    ensures Covers(d, unit, total, error)
  {
  }

  lemma RoundUp(d: int, unit: nat, total: int, remainder: nat, error: nat)
    requires total == d * unit + remainder && remainder < unit && 2 * error < unit
    requires 2 * (remainder - error) >= unit
    ensures Covers(d + 1, unit, total, error)
  {
    MulDistribute(d, 1, unit);
  }

  // d is n or n + 1, as the remainder allows.
  ghost predicate Decided(d: int, n: int, divisor: nat, remainder: nat, error: nat) {
    || (d == n && 2 * (remainder + error) <= divisor)
    || (d == n + 1 && 2 * (remainder - error) >= divisor)
  }

  // Neither is: half lies strictly within the error.
  ghost predicate Undecided(divisor: nat, remainder: nat, error: nat) {
    2 * (remainder - error) < divisor < 2 * (remainder + error)
  }

  lemma DecidedCovers(d: int, n: int, divisor: nat, remainder: nat, error: nat, total: int)
    requires Decided(d, n, divisor, remainder, error)
    requires total == n * divisor + remainder && remainder < divisor && 2 * error < divisor
    ensures Covers(d, divisor, total, error)
  {
    if d == n {
      RoundDown(n, divisor, total, remainder, error);
    } else {
      RoundUp(n, divisor, total, remainder, error);
    }
  }

  class FixedHandler {
    var buf: seq<char>
    var precision: int
    var exp10: int
    const fixed: bool

    constructor (precision: int, exp10: int, fixed: bool)
      ensures this.buf == [] && this.precision == precision && this.exp10 == exp10 && this.fixed == fixed
    {
      this.buf, this.precision, this.exp10, this.fixed := [], precision, exp10, fixed;
    }

    // In fixed format the precision is counted from the decimal point; it may
    // be used up before the first digit. A digit is then written only if it is
    // right for every remainder within the error.
    method OnStart(divisor: nat, remainder: nat, error: nat, exp: int) returns (result: Result)
      requires remainder < divisor && 2 * error < divisor && buf == []
      modifies this
      ensures exp10 == old(exp10) && precision == old(precision) + if fixed then exp + exp10 else 0
      ensures result == More <==> !fixed || precision > 0
      ensures result == Error <==> fixed && precision == 0 && Undecided(divisor, remainder, error)
      ensures |buf| == if result == Done && precision == 0 then 1 else 0
      ensures buf != [] ==> AllDigits(buf) && Decided(Number(buf), 0, divisor, remainder, error)
    {
      if !fixed {
        return More;
      }
      precision := precision + exp + exp10;
      if precision > 0 {
        return More;
      }
      if precision < 0 {
        return Done;
      }
      var direction := GetRoundDirection(divisor, remainder, error);
      if direction == Unknown {
        return Error;
      }
      buf := buf + [if direction == Up then '1' else '0'];
      assert buf[..0] == [];
      return Done;
    }

    // One more digit; `d` is the number that the rounded digits stand for.
    method OnDigit(digit: char, divisor: nat, remainder: nat, error: nat, integral: bool) returns (result: Result, ghost d: int)
      requires AllDigits(buf) && IsDigit(digit) && remainder < divisor
      requires integral ==> error == 1 && divisor > 2
      modifies this
      ensures precision == old(precision) && AllDigits(buf)
      ensures result != Done ==> exp10 == old(exp10) && buf == old(buf) + [digit]
      ensures result == More ==> |buf| < precision && (!integral ==> error < remainder)
      ensures integral ==> (result == More <==> |old(buf)| + 1 < precision)
      ensures integral && result != More ==> (result == Error <==> Undecided(divisor, remainder, error))
      ensures !integral ==> (result == Error <==>
                error >= remainder || (|old(buf)| + 1 >= precision && (2 * error >= divisor || Undecided(divisor, remainder, error))))
      ensures result == Done ==> |old(buf)| + 1 >= precision && (!integral ==> error < remainder)
      ensures result == More ==> Number(buf) == 10 * Number(old(buf)) + DigitOf(digit)
      ensures result == Done ==> SpellsRounded(d, |old(buf)| + 1, old(exp10))
      ensures result == Done ==> 2 * error < divisor
      ensures result == Done ==> Decided(d, 10 * Number(old(buf)) + DigitOf(digit), divisor, remainder, error)
    {
      NumberAppend(buf, digit);
      d := 0;
      buf := buf + [digit];
      if !integral && error >= remainder {
        return Error, d;
      }
      if |buf| < precision {
        return More, d;
      }
      if !integral && (error >= divisor || error >= divisor - error) {
        return Error, d;
      }
      var direction := GetRoundDirection(divisor, remainder, error);
      if direction != Up {
        return (if direction == Down then Done else Error), Number(buf);
      }
      d := Number(buf) + 1;
      IncrementLast();
      return Done, d;
    }

    // The digits, after carry propagation, spell d with n digits; an overflow
    // either adds a digit or moves the exponent.
    ghost predicate SpellsRounded(d: int, n: nat, oldExp10: int)
      reads this
    {
      || (exp10 == oldExp10 && |buf| == n && Number(buf) == d)
      || (exp10 == oldExp10 && fixed && |buf| == n + 1 && Number(buf) == d == Pow(10, n))
      || (exp10 == oldExp10 + 1 && !fixed && |buf| == n && 10 * Number(buf) == d == Pow(10, n))
    }

    method IncrementLast()
      requires |buf| > 0 && AllDigits(buf)
      modifies this
      ensures precision == old(precision) && AllDigits(buf)
      ensures SpellsRounded(Number(old(buf)) + 1, |old(buf)|, old(exp10))
    {
      var last := |buf| - 1;
      var up := (buf[last] as int + 1) as char;
      NumberUpdate(buf, last, up);
      var carried, overflow := PropagateCarry(buf[last := up]);
      buf := carried;
      if overflow {
        if fixed {
          NumberAppend(buf, '0');
          buf := buf + ['0'];
        } else {
          exp10 := exp10 + 1;
        }
      }
    }
  }

  // d * 10^exp is within half a unit of the last place, 10^exp, of every number
  // within one unit of the last binary place of the scaled value f / one.
  ghost predicate Printed(d: int, f: nat, one: nat, exp: int) {
    if exp >= 0 then Covers(d, Pow(10, exp) * one, f, 1)
    else Covers(d, one, f * Pow(10, -exp), Pow(10, -exp))
  }

  // The same for every real number within the error.
  lemma CoversReals(d: int, unit: nat, f: nat, p: nat, x: real)
    requires Covers(d, unit, f * p, p) && f as real - 1.0 <= x <= f as real + 1.0
    ensures -(unit as real) <= 2.0 * (x * p as real - (d * unit) as real) <= unit as real
  {
    EndPoints(d, unit, f, p);
    Interval(f - 1, f + 1, p, x, d * unit, unit);
  }

  lemma Interval(low: int, high: int, p: nat, x: real, middle: int, unit: int)
    requires low as real <= x <= high as real
    requires 2 * (high * p - middle) <= unit && 2 * (middle - low * p) <= unit
    ensures -(unit as real) <= 2.0 * (x * p as real - middle as real) <= unit as real
  {
    ScaleReal(low as real, x, p as real);
    ScaleReal(x, high as real, p as real);
    ProductReal(low, p);
    ProductReal(high, p);
    Between(low * p, x * p as real, high * p, middle, unit);
  }

  lemma EndPoints(d: int, unit: nat, f: nat, p: nat)
    requires Covers(d, unit, f * p, p)
    ensures 2 * ((f + 1) * p - d * unit) <= unit && 2 * (d * unit - (f - 1) * p) <= unit
  {
    MulDistribute(f, 1, p);
  }

  lemma Between(low: int, y: real, high: int, middle: int, unit: int)
    requires low as real <= y <= high as real
    requires 2 * (high - middle) <= unit && 2 * (middle - low) <= unit
    ensures -(unit as real) <= 2.0 * (y - middle as real) <= unit as real
  {
  }

  lemma ScaleReal(a: real, b: real, c: real)
    requires a <= b && c >= 0.0
    ensures a * c <= b * c
  {
  }

  lemma ProductReal(a: int, b: int)
    ensures a as real * b as real == (a * b) as real
  {
  }

  lemma PrintedReals(d: int, f: nat, one: nat, exp: int, x: real)
    requires Printed(d, f, one, exp) && f as real - 1.0 <= x <= f as real + 1.0
    ensures exp >= 0 ==>
      var unit := Pow(10, exp) * one;
      -(unit as real) <= 2.0 * (x - (d * unit) as real) <= unit as real
    ensures exp < 0 ==>
      -(one as real) <= 2.0 * (x * Pow(10, -exp) as real - (d * one) as real) <= one as real
  {
    if exp < 0 {
      CoversReals(d, one, f, Pow(10, -exp), x);
    } else {
      CoversReals(d, Pow(10, exp) * one, f, 1, x);
    }
  }

  // The decimal place the digits are rounded to, for a value with kappa
  // integral digits.
  ghost function Place(kappa: nat, precision: int, fixed: bool): int {
    if fixed || precision > 0 then kappa - precision else kappa - 1
  }

  lemma Scale(kappa: nat, one: nat, integral: nat, fractional: nat)
    requires kappa > 0 && Pow(10, kappa - 1) <= integral < Pow(10, kappa) && fractional < one
    ensures Pow(10, kappa - 1) * one <= integral * one + fractional < Pow(10, kappa) * one
    ensures Pow(10, kappa) * one == 10 * (Pow(10, kappa - 1) * one)
    ensures Pow(10, kappa - 1) * one >= one
  {
    MulLe(Pow(10, kappa - 1), integral, one);
    MulLe(integral + 1, Pow(10, kappa), one);
    MulDistribute(integral, 1, one);
    MulAssoc(10, Pow(10, kappa - 1), one);
    PowPositive(10, kappa - 1);
    MulLe(1, Pow(10, kappa - 1), one);
  }

  // No digits are wanted: the value is below a tenth of the unit.
  lemma TooSmall(f: nat, one: nat, kappa: nat, place: int)
    requires f < Pow(10, kappa) * one && place > kappa
    ensures Printed(0, f, one, place)
  {
    PowMonotone(10, kappa + 1, place);
    MulLe(Pow(10, kappa + 1), Pow(10, place), one);
    MulAssoc(10, Pow(10, kappa), one);
  }

  // The precision is used up by the leading zeros: the first digit decides.
  lemma UnitDecides(f: nat, one: nat, kappa: nat, d: int)
    requires kappa > 0 && one > 20 && Pow(10, kappa - 1) * one <= f < Pow(10, kappa) * one
    requires Pow(10, kappa) * one == 10 * (Pow(10, kappa - 1) * one) && Pow(10, kappa - 1) * one >= one
    requires Decided(d, 0, Pow(10, kappa - 1) * one, f / 10, 10)
    ensures Printed(d, f, one, kappa)
  {
  }

  // The number of digits before the point of f / 2^s.
  function Kappa(f: nat, s: nat): (kappa: nat)
    requires 32 <= s <= 60 && Pow(2, s) <= f < U64
    ensures 0 < kappa <= 10 && Pow(10, kappa - 1) * Pow(2, s) <= f < Pow(10, kappa) * Pow(2, s)
    ensures Pow(10, kappa - 1) <= f / Pow(2, s) < Pow(10, kappa)
  {
    OneFits(s);
    IntegralFits(f, Pow(2, s));
    var kappa := CountDigits32(f / Pow(2, s));
    Scale(kappa, Pow(2, s), f / Pow(2, s), f % Pow(2, s));
    TenDigits(kappa, f / Pow(2, s));
    kappa
  }

  lemma OneFits(s: nat)
    requires 32 <= s <= 60
    ensures U32 <= Pow(2, s) <= 0x1000_0000_0000_0000
  {
    PowersOfTwo();
    PowMonotone(2, 32, s);
    PowMonotone(2, s, 60);
    assert Pow(2, 60) == 0x1000_0000_0000_0000;
  }

  lemma KappaIsCount(f: nat, s: nat)
    requires 32 <= s <= 60 && Pow(2, s) <= f < U64
    ensures Pow(2, s) > 0 && f / Pow(2, s) < U32 && Kappa(f, s) == CountDigits32(f / Pow(2, s))
  {
    OneFits(s);
    IntegralFits(f, Pow(2, s));
  }

  lemma TenDigits(kappa: nat, integral: nat)
    requires kappa > 0 && Pow(10, kappa - 1) <= integral < U32
    ensures kappa <= 10
  {
    if kappa > 10 {
      PowersOfTen();
      PowMonotone(10, 10, kappa - 1);
    }
  }

  // What a digit at the place exp leaves over, in units of that place, and how
  // far the error has grown there.
  ghost function UnitAt(one: nat, exp: int): nat {
    if exp >= 0 then Pow(10, exp) * one else one
  }

  ghost function RestAt(f: nat, one: nat, exp: int): nat
    requires UnitAt(one, exp) > 0
  {
    (if exp >= 0 then f else f * Pow(10, -exp)) % UnitAt(one, exp)
  }

  ghost function ErrorAt(exp: int): nat {
    if exp >= 0 then 1 else Pow(10, -exp)
  }

  // Below the point, the error is as large as what is left over.
  ghost predicate LostAt(f: nat, one: nat, exp: int) {
    UnitAt(one, exp) > 0 && exp < 0 && ErrorAt(exp) >= RestAt(f, one, exp)
  }

  // What is left over does not tell how to round.
  ghost predicate UnclearAt(f: nat, one: nat, exp: int) {
    && UnitAt(one, exp) > 0
    && ((exp < 0 && 2 * ErrorAt(exp) >= one) || Undecided(UnitAt(one, exp), RestAt(f, one, exp), ErrorAt(exp)))
  }

  // When the digits from the first one on cannot be had.
  ghost predicate GivesUp(f: nat, one: nat, kappa: nat, precision: int) {
    var last := kappa - if precision > 0 then precision else 1;
    UnclearAt(f, one, last) || exists exp :: last <= exp < 0 && LostAt(f, one, exp)
  }

  // In fixed format the first digit alone may have to decide, or none is wanted.
  ghost predicate Fails(f: nat, s: nat, precision: int, fixed: bool)
    requires 32 <= s <= 60 && Pow(2, s) <= f < U64
  {
    if fixed && precision <= 0 then precision == 0 && Undecided(UnitAt(Pow(2, s), Kappa(f, s) - 1), f / 10, 10)
    else GivesUp(f, Pow(2, s), Kappa(f, s), precision)
  }

  // The same without the terms of the digit loop. Within the integral digits, the
  // remainder is less than one unit of the error from half.
  lemma FailsBeforePoint(f: nat, s: nat, precision: nat, fixed: bool)
    requires 32 <= s <= 60 && Pow(2, s) <= f < U64 && 0 < precision <= Kappa(f, s)
    ensures var unit := Pow(10, Kappa(f, s) - precision) * Pow(2, s);
            unit > 0 && (Fails(f, s, precision, fixed) <==> -2 < 2 * (f % unit) - unit < 2)
  {
    hide Kappa, Pow;
    PowPositive(2, s);
    PowPositive(10, Kappa(f, s) - precision);
    MulPositive(Pow(10, Kappa(f, s) - precision), Pow(2, s));
  }

  // Below the point the error grows by ten at every digit, and has to stay below
  // every remainder as well.
  lemma FailsBelowPoint(f: nat, s: nat, precision: nat, fixed: bool)
    requires 32 <= s <= 60 && Pow(2, s) <= f < U64 && precision > Kappa(f, s)
    ensures var one, n := Pow(2, s), precision - Kappa(f, s);
            Fails(f, s, precision, fixed) <==>
              || (exists j: nat :: 0 < j <= n && Reached(f, one, j, Pow(10, j)))
              || one <= 2 * Pow(10, n)
              || NearHalf(f, one, n, 2 * Pow(10, n))
  {
    hide Kappa, Pow, LostAt, UnclearAt, Reached, NearHalf;
    PowPositive(2, s);
    var one, n := Pow(2, s), precision - Kappa(f, s);
    UnclearBelow(f, one, n);
    forall exp | 0 - n <= exp < 0
      ensures LostAt(f, one, exp) <==> Reached(f, one, -exp, Pow(10, -exp))
    {
      LostBelow(f, one, -exp);
    }
    if j: nat :| 0 < j <= n && Reached(f, one, j, Pow(10, j)) {
      LostBelow(f, one, j);
    }
  }

  // The error is as large as what is left of f / one after j digits below the
  // point; and what is left is that close to half.
  ghost predicate Reached(f: nat, one: nat, j: nat, error: nat) {
    one > 0 && f * Pow(10, j) % one <= error
  }

  ghost predicate NearHalf(f: nat, one: nat, j: nat, error: nat) {
    one > 0 && 0 - error < 2 * (f * Pow(10, j) % one) - one < error
  }

  lemma LostBelow(f: nat, one: nat, j: nat)
    requires one > 0 && j > 0
    ensures LostAt(f, one, 0 - j) <==> Reached(f, one, j, Pow(10, j))
  {
    hide Pow;
  }

  lemma UnclearBelow(f: nat, one: nat, n: nat)
    requires one > 0 && n > 0
    ensures UnclearAt(f, one, 0 - n) <==> one <= 2 * Pow(10, n) || NearHalf(f, one, n, 2 * Pow(10, n))
  {
    hide Pow;
  }

  lemma FirstDigitFails(f: nat, s: nat, precision: int)
    requires 32 <= s <= 60 && Pow(2, s) <= f < U64 && precision <= 1
    ensures Fails(f, s, precision, false) <==> UndecidedAtFirstDigit(f, s)
  {
    hide Kappa, Pow;
    FirstDivisorFits(f, s);
    var divisor := Pow(10, Kappa(f, s) - 1) * Pow(2, s);
    assert UnitAt(Pow(2, s), Kappa(f, s) - 1) == divisor;
    assert GetRoundDirection(divisor, f % divisor, 1) == Unknown <==> Undecided(divisor, f % divisor, 1);
  }

  // The first digit's remainder does not tell how to round.
  predicate UndecidedAtFirstDigit(f: nat, s: nat)
    requires 32 <= s <= 60 && Pow(2, s) <= f < U64
  {
    FirstDivisorFits(f, s);
    var divisor := Pow(10, Kappa(f, s) - 1) * Pow(2, s);
    GetRoundDirection(divisor, f % divisor, 1) == Unknown
  }

  lemma FirstDivisorFits(f: nat, s: nat)
    requires 32 <= s <= 60 && Pow(2, s) <= f < U64
    ensures Pow(10, Kappa(f, s) - 1) * Pow(2, s) > 2
  {
    OneFits(s);
    PowPositive(10, Kappa(f, s) - 1);
    MulLe(1, Pow(10, Kappa(f, s) - 1), Pow(2, s));
  }

  // Digits of f / 2^s, for the exponents that the cached powers guarantee.
  method GrisuGenDigits(f: nat, s: nat, handler: FixedHandler) returns (result: Result, exp: int, ghost kappa: nat, ghost d: int)
    requires 32 <= s <= 60 && Pow(2, s) <= f < U64
    requires handler.buf == []
    modifies handler
    ensures result == Done || result == Error
    ensures kappa == Kappa(f, s)
    ensures AllDigits(handler.buf) && |handler.buf| <= 30
    ensures result == Error <==> Fails(f, s, handler.precision, handler.fixed)
    ensures !handler.fixed && handler.precision <= 1 ==> (result == Error <==> UndecidedAtFirstDigit(f, s))
    ensures handler.precision == old(handler.precision) + if handler.fixed then kappa + old(handler.exp10) else 0
    ensures result == Error ==> exp + |handler.buf| == kappa && handler.exp10 == old(handler.exp10)
    ensures result == Error && handler.fixed ==> handler.precision >= 0
    ensures result == Done ==> Printed(d, f, Pow(2, s), Place(kappa, handler.precision, handler.fixed))
    ensures result == Done && handler.fixed && handler.precision < 0 ==>
      handler.buf == [] && d == 0 && exp == kappa && handler.exp10 == old(handler.exp10)
    ensures result == Done && !(handler.fixed && handler.precision < 0) ==>
      && exp == Place(kappa, handler.precision, handler.fixed)
      && handler.SpellsRounded(d, if handler.precision > 0 then handler.precision else 1, old(handler.exp10))
  {
    hide Kappa, Printed, CountDigits32, Pow;
    var one := Pow(2, s);
    OneFits(s);
    FirstDivisorFits(f, s);
    KappaIsCount(f, s);
    var integral, fractional := f / one, f % one;
    IntegralFits(f, one);
    exp := CountDigits32(integral);
    kappa := Kappa(f, s);
    d := 0;
    Scale(kappa, one, integral, fractional);
    result := handler.OnStart(Pow(10, exp - 1) * one, f / 10, 10, exp);
    if result != More {
      if handler.precision < 0 {
        TooSmall(f, one, kappa, kappa - handler.precision);
      } else if result == Done {
        d := Number(handler.buf);
        UnitDecides(f, one, kappa, d);
      }
      return;
    }
    result, exp, d := GenerateDigits(f, one, exp, handler);
    if !handler.fixed && handler.precision <= 1 {
      FirstDigitFails(f, s, handler.precision);
    }
  }

  lemma IntegralFits(f: nat, one: nat)
    requires U32 <= one <= f < U64
    ensures f == f / one * one + f % one && 0 < f / one < U32
  {
    var q, r := f / one, f % one;
    assert f == q * one + r;
    MulDistribute(q, 1, one);
    MulCancelLt(1, q + 1, one);
    MulCancelLt(q, U32, one);
  }

  // The digits of the integral part, then those of the fractional part.
  method GenerateDigits(f: nat, one: nat, kappa: nat, handler: FixedHandler) returns (result: Result, exp: int, ghost d: int)
    requires U32 <= one <= 0x1000_0000_0000_0000 && one <= f < U64
    requires kappa > 0 && Pow(10, kappa - 1) <= f / one < Pow(10, kappa) && Pow(10, kappa - 1) * one <= f
    requires handler.buf == [] && (handler.fixed ==> handler.precision > 0)
    modifies handler
    ensures result == Done || result == Error
    ensures AllDigits(handler.buf) && handler.precision == old(handler.precision) && |handler.buf| <= kappa + 20
    ensures result == Error <==> GivesUp(f, one, kappa, handler.precision)
    ensures result == Error ==> exp + |handler.buf| == kappa && handler.exp10 == old(handler.exp10)
    ensures result == Done ==> exp == Place(kappa, handler.precision, handler.fixed) && Printed(d, f, one, exp)
    ensures result == Done ==> handler.SpellsRounded(d, if handler.precision > 0 then handler.precision else 1, old(handler.exp10))
  {
    var fractional;
    result, exp, d, fractional := IntegralDigits(f, one, kappa, handler);
    if result == More {
      result, exp, d := FractionalDigits(f, one, kappa, fractional, handler);
    }
  }

  method IntegralDigits(f: nat, one: nat, kappa: nat, handler: FixedHandler)
    returns (result: Result, exp: int, ghost d: int, fractional: nat)
    requires U32 <= one <= f < U64
    requires kappa > 0 && Pow(10, kappa - 1) <= f / one < Pow(10, kappa) && Pow(10, kappa - 1) * one <= f
    requires handler.buf == [] && (handler.fixed ==> handler.precision > 0)
    modifies handler
    ensures AllDigits(handler.buf) && handler.precision == old(handler.precision) && |handler.buf| <= kappa + 1
    ensures result != More ==> (result == Error <==> GivesUp(f, one, kappa, handler.precision))
    ensures result != Done ==> exp + |handler.buf| == kappa && handler.exp10 == old(handler.exp10)
    ensures result == Done ==> exp == Place(kappa, handler.precision, handler.fixed) && Printed(d, f, one, exp)
    ensures result == Done ==> handler.SpellsRounded(d, if handler.precision > 0 then handler.precision else 1, old(handler.exp10))
    ensures result == More ==> exp == 0 && |handler.buf| < handler.precision
    ensures result == More ==> fractional < one && f == Number(handler.buf) * one + fractional
  {
    IntegralFits(f, one);
    fractional := f % one;
    var integral := f / one;
    exp := kappa;
    while true
      invariant exp > 0 && exp + |handler.buf| == kappa && AllDigits(handler.buf)
      invariant handler.precision == old(handler.precision) && handler.exp10 == old(handler.exp10)
      invariant |handler.buf| == 0 || |handler.buf| < handler.precision
      invariant 0 <= integral < Pow(10, exp) && fractional < one
      invariant f == Number(handler.buf) * (Pow(10, exp) * one) + (integral * one + fractional)
      decreases exp
    {
      result, integral, d := EmitIntegral(f, one, kappa, exp, integral, fractional, handler);
      exp := exp - 1;
      if result != More {
        return;
      }
      if exp <= 0 {
        return;
      }
    }
  }

  // Hands the next digit of the integral part to the handler.
  method EmitIntegral(f: nat, one: nat, ghost kappa: nat, exp: nat, integral: nat, fractional: nat, handler: FixedHandler)
    returns (result: Result, rest: nat, ghost d: int)
    requires exp > 0 && exp + |handler.buf| == kappa && AllDigits(handler.buf)
    requires U32 <= one && f < U64 && Pow(10, kappa - 1) * one <= f
    requires integral < Pow(10, exp) && fractional < one
    requires f == Number(handler.buf) * (Pow(10, exp) * one) + (integral * one + fractional)
    modifies handler
    ensures handler.precision == old(handler.precision) && AllDigits(handler.buf)
    ensures result == More <==> old(|handler.buf|) + 1 < handler.precision
    ensures result != Done ==> |handler.buf| == old(|handler.buf|) + 1 && handler.exp10 == old(handler.exp10)
    ensures result == More ==> rest < Pow(10, exp - 1)
    ensures result == More ==> f == Number(handler.buf) * (Pow(10, exp - 1) * one) + (rest * one + fractional)
    ensures result == Done ==> Printed(d, f, one, exp - 1)
    ensures result == Done ==> handler.SpellsRounded(d, old(|handler.buf|) + 1, old(handler.exp10))
    ensures result != More ==> (result == Error <==> UnclearAt(f, one, exp - 1))
  {
    ghost var number := Number(handler.buf);
    var digit, divisor, remainder;
    digit, rest, divisor, remainder := NextIntegral(f, one, kappa, exp, integral, fractional, number);
    ghost var n := 10 * number + digit;
    DivModUnique(f, divisor, n, remainder);
    result, d := handler.OnDigit(DigitChar(digit), divisor, remainder, 1, true);
    if result == Done {
      DecidedCovers(d, n, divisor, remainder, 1, f);
    }
  }

  // Splits the next digit off the integral part.
  method NextIntegral(ghost f: nat, one: nat, ghost kappa: nat, exp: nat, integral: nat, fractional: nat, ghost number: int)
    returns (digit: nat, rest: nat, divisor: nat, remainder: nat)
    requires U32 <= one && f < U64 && 0 < exp <= kappa && Pow(10, kappa - 1) * one <= f
    requires integral < Pow(10, exp) && fractional < one
    requires f == number * (Pow(10, exp) * one) + (integral * one + fractional)
    ensures digit <= 9 && rest < Pow(10, exp - 1)
    ensures divisor == Pow(10, exp - 1) * one && remainder == rest * one + fractional
    ensures 2 < divisor < U64 && remainder < divisor
    ensures f == (10 * number + digit) * divisor + remainder
  {
    DivisorFits(f, one, kappa, exp - 1);
    digit, rest := DivmodIntegral(integral, Pow(10, exp - 1));
    IntegralDigit(f, one, exp, number, integral, fractional, digit, rest);
    divisor, remainder := Pow(10, exp - 1) * one, rest * one + fractional;
  }

  lemma DivisorFits(f: nat, one: nat, kappa: nat, exp: nat)
    requires exp < kappa && Pow(10, kappa - 1) * one <= f
    ensures Pow(10, exp) > 0 && 0 <= Pow(10, exp) * one <= f
  {
    PowPositive(10, exp);
    MulLe(0, Pow(10, exp), one);
    PowMonotone(10, exp, kappa - 1);
    MulLe(Pow(10, exp), Pow(10, kappa - 1), one);
  }

  // One integral digit.
  lemma IntegralDigit(f: nat, one: nat, exp: nat, number: int, integral: nat, fractional: nat, digit: nat, rest: nat)
    requires exp > 0 && integral < Pow(10, exp) && fractional < one && U32 <= one
    requires f == number * (Pow(10, exp) * one) + (integral * one + fractional)
    requires integral == digit * Pow(10, exp - 1) + rest && rest < Pow(10, exp - 1)
    ensures digit <= 9
    ensures 2 < Pow(10, exp - 1) * one && 0 <= rest * one + fractional < Pow(10, exp - 1) * one
    ensures f == (10 * number + digit) * (Pow(10, exp - 1) * one) + (rest * one + fractional)
  {
    var p := Pow(10, exp - 1);
    if digit > 9 {
      MulLe(10, digit, p);
    }
    MulLe(rest + 1, p, one);
    MulDistribute(rest, 1, one);
    MulLe(0, rest, one);
    MulLe(1, p, one);
    SplitDigit(number, digit, p, one, rest);
  }

  method DivmodIntegral(integral: nat, divisor: nat) returns (digit: nat, rest: nat)
    requires divisor > 0
    ensures integral == digit * divisor + rest && rest < divisor
  {
    digit, rest := integral / divisor, integral % divisor;
  }

  lemma SplitDigit(number: int, q: int, p: int, one: int, r: int)
    ensures number * (10 * p * one) + (q * p + r) * one == (10 * number + q) * (p * one) + r * one
  {
    MulDistribute(q * p, r, one);
    MulAssoc(q, p, one);
    MulDistribute(10 * number, q, p * one);
    MulAssoc(10, p, one);
    MulAssoc(number, 10, p * one);
  }

  // Digits of the fractional part, until the handler has enough of them or the
  // error has grown to the size of what is left.
  method FractionalDigits(f: nat, one: nat, ghost kappa: nat, start: nat, handler: FixedHandler)
    returns (result: Result, exp: int, ghost d: int)
    requires U32 <= one <= 0x1000_0000_0000_0000 && start < one
    requires |handler.buf| == kappa && AllDigits(handler.buf) && |handler.buf| < handler.precision
    requires f == Number(handler.buf) * one + start
    modifies handler
    ensures result == Done || result == Error
    ensures AllDigits(handler.buf) && handler.precision == old(handler.precision) && |handler.buf| <= kappa + 20
    ensures result == Error <==> GivesUp(f, one, kappa, handler.precision)
    ensures result == Error ==> exp + |handler.buf| == kappa && handler.exp10 == old(handler.exp10)
    ensures result == Done ==> exp == kappa - handler.precision && Printed(d, f, one, exp)
    ensures result == Done ==> handler.SpellsRounded(d, handler.precision, old(handler.exp10))
  {
    hide Printed, UnclearAt, LostAt;
    var fractional, error := start, 1;
    exp := 0;
    while true
      invariant exp <= 0 && exp + |handler.buf| == kappa && AllDigits(handler.buf)
      invariant handler.precision == old(handler.precision) && handler.exp10 == old(handler.exp10)
      invariant |handler.buf| < handler.precision
      invariant 0 <= fractional < one && 0 < error < one && error == Pow(10, -exp)
      invariant f * Pow(10, -exp) == Number(handler.buf) * one + fractional
      invariant forall e :: exp <= e < 0 ==> !LostAt(f, one, e)
      decreases one - error
    {
      result, fractional, error, d := EmitFractional(f, one, exp, fractional, error, handler);
      exp := exp - 1;
      if result != More {
        return;
      }
    }
  }

  // Hands the next digit of the fractional part to the handler.
  method EmitFractional(ghost f: nat, one: nat, ghost exp: int, fractional: nat, error: nat, handler: FixedHandler)
    returns (result: Result, rest: nat, grown: nat, ghost d: int)
    requires U32 <= one <= 0x1000_0000_0000_0000 && fractional < one && 0 < error < one
    requires exp <= 0 && error == Pow(10, -exp)
    requires AllDigits(handler.buf) && |handler.buf| < handler.precision
    requires f * Pow(10, -exp) == Number(handler.buf) * one + fractional
    modifies handler
    ensures handler.precision == old(handler.precision) && AllDigits(handler.buf) && exp >= -18
    ensures result != Done ==> |handler.buf| == old(|handler.buf|) + 1 && handler.exp10 == old(handler.exp10)
    ensures result == Done ==> |handler.buf| <= old(|handler.buf|) + 2
    ensures grown == Pow(10, 1 - exp) && error < grown
    ensures result == More ==> rest < one && grown < one
    ensures result == More ==> f * Pow(10, 1 - exp) == Number(handler.buf) * one + rest
    ensures result == Done ==> Printed(d, f, one, exp - 1)
    ensures result == Done ==> handler.SpellsRounded(d, handler.precision, old(handler.exp10))
    ensures LostAt(f, one, exp - 1) ==> result == Error
    ensures result == More <==> !LostAt(f, one, exp - 1) && old(|handler.buf|) + 1 < handler.precision
    ensures result == Done ==> !UnclearAt(f, one, exp - 1)
    ensures result == Error ==> LostAt(f, one, exp - 1) || (old(|handler.buf|) + 1 == handler.precision && UnclearAt(f, one, exp - 1))
  {
    hide Pow, Number, Printed, Covers, LostAt, UnclearAt, Undecided, Decided;
    var digit;
    ghost var n;
    digit, rest, grown, n := NextFractional(f, one, exp, fractional, error, Number(handler.buf));
    PlaceBelowPoint(f, one, exp - 1, n, rest);
    result, d := handler.OnDigit(DigitChar(digit), one, rest, grown, false);
    if result == Done {
      DecidedPrints(f, one, exp - 1, d, n, rest, grown);
      DecidedIsClear(d, n, one, rest, grown);
    }
  }

  // Moves the next digit of the fractional part before the point.
  method NextFractional(ghost f: nat, one: nat, ghost exp: int, fractional: nat, error: nat, ghost number: int)
    returns (digit: nat, rest: nat, grown: nat, ghost n: int)
    requires U32 <= one <= 0x1000_0000_0000_0000 && fractional < one && 0 < error < one
    requires exp <= 0 && error == Pow(10, -exp)
    requires f * Pow(10, -exp) == number * one + fractional
    ensures digit <= 9 && rest < one && error < grown == Pow(10, 1 - exp) && exp >= -18
    ensures n == 10 * number + digit && f * Pow(10, 1 - exp) == n * one + rest
  {
    FractionalDigit(f, one, -exp, number, fractional);
    ErrorGrowth(-exp, one);
    assert Pow(10, 1 - exp) == 10 * Pow(10, -exp);
    assert fractional * 10 < U64 && error * 10 < U64;
    var product := fractional * 10;
    grown := error * 10;
    digit := product / one;
    rest := product % one;
    n := 10 * number + digit;
  }

  lemma PlaceBelowPoint(f: nat, one: nat, exp: int, n: int, rest: nat)
    requires exp < 0 && one > 0 && rest < one && f * Pow(10, -exp) == n * one + rest
    ensures LostAt(f, one, exp) <==> Pow(10, -exp) >= rest
    ensures UnclearAt(f, one, exp) <==> 2 * Pow(10, -exp) >= one || Undecided(one, rest, Pow(10, -exp))
  {
    hide Pow, Undecided;
    DivModUnique(f * Pow(10, -exp), one, n, rest);
  }

  lemma DecidedIsClear(d: int, n: int, divisor: nat, remainder: nat, error: nat)
    requires Decided(d, n, divisor, remainder, error)
    ensures !Undecided(divisor, remainder, error)
  {
  }

  lemma DecidedPrints(f: nat, one: nat, exp: int, d: int, n: int, fractional: nat, error: nat)
    requires exp < 0 && error == Pow(10, -exp) && f * Pow(10, -exp) == n * one + fractional
    requires fractional < one && 2 * error < one && Decided(d, n, one, fractional, error)
    ensures Printed(d, f, one, exp)
  {
    DecidedCovers(d, n, one, fractional, error, f * Pow(10, -exp));
  }

  // The error stays below one, so it cannot grow nineteen times.
  lemma ErrorGrowth(m: nat, one: nat)
    requires Pow(10, m) < one <= 0x1000_0000_0000_0000
    ensures m <= 18
  {
    if m > 18 {
      PowersOfTen();
      PowMonotone(10, 19, m);
    }
  }

  // One fractional digit.
  lemma FractionalDigit(f: nat, one: nat, m: nat, number: int, fractional: nat)
    requires 0 < one && fractional < one
    requires f * Pow(10, m) == number * one + fractional
    ensures 0 <= fractional * 10 / one <= 9
    ensures f * Pow(10, m + 1) == (10 * number + fractional * 10 / one) * one + fractional * 10 % one
  {
    var q, r := fractional * 10 / one, fractional * 10 % one;
    assert fractional * 10 == q * one + r;
    if q > 9 {
      MulLe(10, q, one);
    }
    MulDistribute(10 * number, q, one);
    MulAssoc(10, number, one);
    MulAssoc(f, 10, Pow(10, m));
    MulAssoc(10, f, Pow(10, m));
  }
}
