// Printing a floating-point value with a given precision: the fast printer
// first, the exact one when it gives up.
module FormatFloatModel {
  import opened Words
  import opened Powers
  import opened Digits
  import opened Rounding
  import opened Scaling
  import opened Grisu
  import BigintSizes
  import opened CachedPowers
  import Dragon

  // The characters and the exponent stand for d * 10^place.
  ghost predicate Spells(buf: seq<char>, exp: int, d: int, place: int) {
    (Number(buf) == 0 && d == 0) || (exp >= place && Number(buf) * Pow(10, exp - place) == d)
  }

  // What covers the scaled value with its error is nearest to the value.
  lemma CoversNearest(num: nat, den: nat, n: nat, d: nat, scaled: nat, one: nat, u: nat, w: nat, x: int)
    requires d > 0 && one > 0 && u > 0 && den > 0
    requires num * d * u == n * den * w
    requires Abs(n * one - scaled * d) <= d
    requires Covers(x, u * one, scaled * w, w)
    ensures Nearest(x, num, den)
    ensures Abs(n * one - scaled * d) < d && w > 0 ==> 2 * Abs(num - x * den) < den
  {
    var v := u * one;
    MulPositive(u, one);
    MulPositive(d, v);
    ErrorScaled(n, d, scaled, one, w, x, v);
    CommonFactor(num, den, n, d, one, u, w, x);
    assert v * d == d * v;
    CancelCommon(num - x * den, n * one * w - x * v * d, den, d * v);
  }

  lemma ErrorScaled(n: nat, d: nat, scaled: nat, one: nat, w: nat, x: int, v: nat)
    requires Abs(n * one - scaled * d) <= d
    requires Covers(x, v, scaled * w, w)
    ensures -(v * d) <= 2 * (n * one * w - x * v * d) <= v * d
    ensures Abs(n * one - scaled * d) < d && w > 0 ==> -(v * d) < 2 * (n * one * w - x * v * d) < v * d
  {
    if Abs(n * one - scaled * d) < d && w > 0 {
      MulLt(n * one - scaled * d, d, w);
      MulLt(scaled * d - n * one, d, w);
    }
    MulLe(n * one - scaled * d, d, w);
    MulLe(scaled * d - n * one, d, w);
    MulDistribute(n * one, scaled * d, w);
    MulDistribute(scaled * d, n * one, w);
    Swap(scaled, d, w);
    MulLe(2 * (scaled * w + w - x * v), v, d);
    MulLe(2 * (x * v - (scaled * w - w)), v, d);
    Expand(scaled * w, w, x * v, d);
  }

  lemma Expand(a: int, b: int, c: int, d: int)
    ensures 2 * (a + b - c) * d == 2 * (a * d) + 2 * (b * d) - 2 * (c * d)
    ensures 2 * (c - (a - b)) * d == 2 * (c * d) - 2 * (a * d) + 2 * (b * d)
  {
  }

  lemma CommonFactor(num: nat, den: nat, n: nat, d: nat, one: nat, u: nat, w: nat, x: int)
    requires num * d * u == n * den * w
    ensures (num - x * den) * (d * (u * one)) == (n * one * w - x * (u * one) * d) * den
  {
    MulDistribute(num, x * den, d * (u * one));
    MulDistribute(n * one * w, x * (u * one) * d, den);
    MulAssoc(num, d, u * one);
    MulAssoc(num * d, u, one);
    Swap(n * den, w, one);
    Swap(n, den, one);
    Swap(n * one, den, w);
    Swap(x * (u * one), d, den);
    Swap(x, u * one, den);
    MulAssoc(x * den, u * one, d);
  }

  lemma CancelCommon(a: int, gap: int, den: nat, factor: nat)
    requires factor > 0 && a * factor == gap * den
    requires 0 - factor <= 2 * gap <= factor
    ensures 0 - den <= 2 * a <= den
    ensures 0 - factor < 2 * gap < factor && den > 0 ==> 0 - den < 2 * a < den
  {
    if 0 - factor < 2 * gap < factor && den > 0 {
      MulLt(2 * gap, factor, den);
      MulLt(0 - factor, 2 * gap, den);
      MulAssoc(2, gap, den);
      MulAssoc(2, a, factor);
      MulCancelLt(2 * a, den, factor);
      MulCancelLt(0 - den, 2 * a, factor);
    }
    MulLe(2 * gap, factor, den);
    MulLe(0 - factor, 2 * gap, den);
    MulAssoc(2, gap, den);
    MulAssoc(2, a, factor);
    MulCancelLe(2 * a, den, factor);
    MulCancelLe(0 - den, 2 * a, factor);
  }

  // Digits that cover the scaled value are nearest to the value itself.
  lemma PrintedIsNearest(f: nat, e: int, c: int, scaled: nat, one: nat, d: int, exp: int)
    requires one > 0 && ScaledWithinError(f, e, c, scaled, one)
    requires Printed(d, scaled, one, exp)
    ensures Nearest(d, Num(f, e, exp - c), Den(e, exp - c))
    ensures ErrorBelowOne(f, e, c, scaled, one) ==> NearestEven(d, Num(f, e, exp - c), Den(e, exp - c))
  {
    if exp >= 0 {
      PlaceShift(f, e, -c, exp);
      assert -c + exp == exp - c;
      Rearranged(Num(f, e, -c), Den(e, exp - c), Pow(10, exp), Num(f, e, exp - c), Den(e, -c));
      PowPositive(10, exp);
      CoversNearest(Num(f, e, exp - c), Den(e, exp - c), Num(f, e, -c), Den(e, -c), scaled, one, Pow(10, exp), 1, d);
    } else {
      PlaceShift(f, e, exp - c, -exp);
      assert exp - c + -exp == -c;
      Rearranged(Num(f, e, exp - c), Den(e, -c), Pow(10, -exp), Num(f, e, -c), Den(e, exp - c));
      PowPositive(10, -exp);
      CoversNearest(Num(f, e, exp - c), Den(e, exp - c), Num(f, e, -c), Den(e, -c), scaled, one, 1, Pow(10, -exp), d);
    }
  }

  lemma Rearranged(a: int, b: int, p: int, c: int, d: int)
    requires a * b == p * c * d
    ensures c * d * p == a * b * 1 && a * b * 1 == c * d * p
  {
    MulAssoc(p, c, d);
  }

  // An error below one unit does not move the value up across a power of ten.
  lemma NoCrossing(f: nat, e: int, c: int, scaled: nat, one: nat, kappa: nat)
    requires ErrorBelowOne(f, e, c, scaled, one) && scaled < Pow(10, kappa) * one
    ensures Num(f, e, -c) < Pow(10, kappa) * Den(e, -c)
  {
    hide Num, Den, Pow;
    Before(Num(f, e, -c), Den(e, -c), Pow(10, kappa), scaled, one);
  }

  lemma Before(n: nat, d: nat, p: nat, scaled: nat, one: nat)
    requires Abs(n * one - scaled * d) < d && scaled < p * one
    ensures n < p * d
  {
    MulLe(scaled + 1, p * one, d);
    MulDistribute(scaled, 1, d);
    Swap(p, one, d);
    MulCancelLt(n, p * d, one);
  }

  // A scaled value with kappa integral digits starts at the place kappa - 1.
  lemma FirstDigitPlace(f: nat, e: int, c: int, scaled: nat, one: nat, kappa: nat)
    requires ErrorBelowOne(f, e, c, scaled, one) && one >= U32
    requires kappa > 0 && Pow(10, kappa - 1) * one <= scaled < Pow(10, kappa) * one
    ensures Num(f, e, kappa - 1 - c) < 10 * Den(e, kappa - 1 - c)
    ensures U32 * Num(f, e, kappa - 1 - c) > (U32 - 1) * Den(e, kappa - 1 - c)
  {
    var n0, d0, n, d, p := Num(f, e, -c), Den(e, -c), Num(f, e, kappa - 1 - c), Den(e, kappa - 1 - c), Pow(10, kappa - 1);
    NoCrossing(f, e, c, scaled, one, kappa);
    NoFall(n0, d0, p, scaled, one);
    PlaceShift(f, e, -c, kappa - 1);
    assert -c + (kappa - 1) == kappa - 1 - c;
    PowPositive(10, kappa - 1);
    ShiftedBounds(n0, d0, n, d, p);
  }

  // Nor far down below one.
  lemma NoFall(n: nat, d: nat, p: nat, scaled: nat, one: nat)
    requires Abs(n * one - scaled * d) < d && p * one <= scaled && one >= U32 && d > 0 && p > 0
    ensures U32 * n > (U32 - 1) * (p * d)
  {
    MulLe(p * one, scaled, d);
    Swap(p, one, d);
    MulDistribute(p * d, n, one);
    MulLe(1, p, d);
    if p * d - n > 0 {
      MulLe(U32, one, p * d - n);
      assert one * (p * d - n) == (p * d - n) * one;
    }
  }

  lemma ShiftedBounds(n0: nat, d0: nat, n: nat, d: nat, p: nat)
    requires d0 > 0 && d > 0 && p > 0 && n0 * d == p * n * d0
    requires n0 < 10 * p * d0 && U32 * n0 > (U32 - 1) * (p * d0)
    ensures n < 10 * d && U32 * n > (U32 - 1) * d
  {
    MulPositive(p, d0);
    MulLt(n0, 10 * p * d0, d);
    MulLt((U32 - 1) * (p * d0), U32 * n0, d);
    MulAssoc(U32, n0, d);
    Swap(p, n, d0);
    Commute(n, d, p, d0);
    Rescale(n, d, p, d0);
    MulCancelLt(n, 10 * d, p * d0);
    MulCancelLt((U32 - 1) * d, U32 * n, p * d0);
  }

  lemma Rescale(n: int, d: int, p: int, q: int)
    ensures (U32 - 1) * (p * q) * d == (U32 - 1) * d * (p * q)
    ensures U32 * (p * n * q) == U32 * n * (p * q)
  {
    Swap(U32 - 1, p * q, d);
    Swap(p, n, q);
    MulAssoc(U32, n, p * q);
    assert n * (p * q) == p * q * n;
  }

  lemma Commute(n: int, d: int, p: int, q: int)
    ensures n * (p * q) == p * n * q
    ensures 10 * d * (p * q) == 10 * p * q * d
  {
    MulAssoc(n, p, q);
    Swap(10, d, p * q);
    MulAssoc(10, p, q);
  }

  function Zeros(n: nat): seq<char> {
    seq(n, _ => '0')
  }

  // Trailing zeros move into the exponent, all of them.
  method RemoveTrailingZeros(digits: seq<char>, exponent: int, ghost d: int, ghost place: int)
    returns (buf: seq<char>, exp: int, ghost zeros: nat)
    requires AllDigits(digits) && Spells(digits, exponent, d, place)
    ensures AllDigits(buf) && Spells(buf, exp, d, place)
    ensures digits == buf + Zeros(zeros) && exp == exponent + zeros
    ensures buf == [] || buf[|buf| - 1] != '0'
  {
    buf, exp, zeros := digits, exponent, 0;
    while |buf| > 0 && buf[|buf| - 1] == '0'
      invariant AllDigits(buf) && Spells(buf, exp, d, place)
      invariant digits == buf + Zeros(zeros) && exp == exponent + zeros
    {
      if Number(buf) != 0 {
        MulAssoc(Number(buf[..|buf| - 1]), 10, Pow(10, exp - place));
      }
      assert buf == buf[..|buf| - 1] + ['0'];
      buf := buf[..|buf| - 1];
      exp := exp + 1;
      zeros := zeros + 1;
    }
  }

  // How the digits of d lie from the first place down to `place`: as many as
  // there are places, but at least one. When they round up to a power of ten
  // there is either one digit more, or the same number one place higher.
  ghost predicate Laid(buf: seq<char>, exp: int, d: int, place: int, first: int, longer: bool) {
    var n := first + 1 - place;
    var size := if n > 0 then n else 1;
    if n < 0 then buf == [] && d == 0 && exp == first + 1
    else if d != Pow(10, size) then |buf| == size && exp == place && Number(buf) == d
    else if longer then |buf| == size + 1 && exp == place && Number(buf) == d
    else |buf| == size && exp == place + 1 && 10 * Number(buf) == d
  }

  lemma LaidSpells(buf: seq<char>, exp: int, d: int, place: int, first: int, longer: bool)
    requires Laid(buf, exp, d, place, first, longer)
    ensures Spells(buf, exp, d, place)
  {
    assert Pow(10, 0) == 1 && Pow(10, 1) == 10;
  }

  // What a finished fast run leaves in the handler: nothing for a place far above
  // the first digit.
  lemma HandlerLaid(handler: FixedHandler, exp: int, c: int, d: int, unit: int, kappa: nat)
    requires AllDigits(handler.buf)
    requires if unit > kappa then handler.buf == [] && d == 0 && exp == kappa && handler.exp10 == -c
             else exp == unit && handler.SpellsRounded(d, if unit < kappa then kappa - unit else 1, -c)
    ensures Laid(handler.buf, exp + handler.exp10, d, unit - c, kappa - 1 - c, handler.fixed)
  {
    NumberBound(handler.buf);
  }

  // No double has more significant digits, but in fixed format leading zeros
  // count too: digits wanted beyond this place are not produced.
  const MAX_DOUBLE_DIGITS := 767

  function Limited(precision: nat): nat {
    if precision > MAX_DOUBLE_DIGITS then MAX_DOUBLE_DIGITS else precision
  }

  // The place of the first digit of the scaled value, seen from the value.
  ghost function FirstPlace(f: nat, e: int): int
    requires IsDouble(f, e)
  {
    var v := Scaled(f, e);
    Kappa(v.f, v.s) - 1 - v.exp10
  }

  lemma FirstPlaceIsFirst(f: nat, e: int)
    requires IsDouble(f, e)
    ensures Num(f, e, FirstPlace(f, e)) < 10 * Den(e, FirstPlace(f, e))
    ensures U32 * Num(f, e, FirstPlace(f, e)) > (U32 - 1) * Den(e, FirstPlace(f, e))
  {
    hide ErrorBelowOne, Scaled, Num, Den, Pow, Kappa;
    var v := Scaled(f, e);
    ScaledIsClose(f, e);
    OneFits(v.s);
    FirstDigitPlace(f, e, v.exp10, v.f, Pow(2, v.s), Kappa(v.f, v.s));
  }

  // The place that a precision promises: so many digits after the decimal point
  // in fixed format, so many significant digits, but at least one, otherwise.
  ghost function PromisedPlace(f: nat, e: int, precision: nat, fixed: bool): int
    requires IsDouble(f, e)
  {
    if fixed then 0 - precision else FirstPlace(f, e) + 1 - if precision == 0 then 1 else precision
  }

  // The fast printer gives up at once, and the exact one is asked for no digit.
  predicate RoundsTooHigh(f: nat, e: int, precision: nat, fixed: bool)
    requires IsDouble(f, e)
  {
    var v := Scaled(f, e);
    !fixed && precision == 0 && UndecidedAtFirstDigit(v.f, v.s)
  }

  // The fast printer gives up.
  ghost predicate LeftToExact(f: nat, e: int, precision: nat, fixed: bool)
    requires IsDouble(f, e)
  {
    var v := Scaled(f, e);
    Fails(v.f, v.s, Limited(precision) + if fixed then FirstPlace(f, e) + 1 else 0, fixed)
  }

  // The exact printer, started where the fast one gave up after `size` digits.
  method PrintExactly(f: nat, e: int, shift: nat, ghost v: ScaledValue, cachedExp10: int, left: int, size: nat, precision: nat)
    returns (buf: seq<char>, exp: int, ghost d: int, ghost place: int, ghost peak: nat)
    requires IsDouble(f, e) && 1 <= shift <= 2 && v == Scaled(f, e)
    requires cachedExp10 == v.exp10 && left + size == Kappa(v.f, v.s)
    ensures AllDigits(buf) && Laid(buf, exp, d, place, FirstPlace(f, e), false)
    ensures place == FirstPlace(f, e) + 1 - precision
    ensures NearestEven(d, Num(f, e, place), Den(e, place))
    ensures peak <= BigintSizes.BIGITS_CAPACITY
  {
    exp := left + size - cachedExp10 - 1;
    FirstPlaceIsFirst(f, e);
    ShiftFits(f, shift);
    place := exp - (precision - 1);
    buf, exp, peak := Dragon.FallbackFormat(f, e, shift, exp, precision);
    d := Number(buf) * Pow(10, exp - place);
    FallbackLaid(buf, exp, place, precision);
  }

  lemma FallbackLaid(buf: seq<char>, exp: int, place: int, precision: nat)
    requires AllDigits(buf) && |buf| == if precision == 0 then 1 else precision
    requires exp == place || (exp == place + 1 && Number(buf) == Pow(10, |buf| - 1))
    ensures Laid(buf, exp, Number(buf) * Pow(10, exp - place), place, place + precision - 1, false)
  {
    NumberBound(buf);
    assert Pow(10, 0) == 1 && Pow(10, 1) == 10;
  }

  lemma ShiftFits(f: nat, shift: nat)
    requires f < 0x20_0000_0000_0000 && 1 <= shift <= 2
    ensures f * Pow(2, shift) < U64
  {
    assert Pow(2, 1) == 2 && Pow(2, 2) == 4;
  }

  // The double f * 2^e printed with the given precision. The result stands for
  // d * 10^place, and d is the value correctly rounded at that place. Trailing
  // zeros are kept, or all removed. `peak` is the most bigits that any of the big
  // integers has held.
  method FormatFloat(f: nat, e: int, shift: nat, precision: nat, fixed: bool, showpoint: bool)
    returns (buf: seq<char>, exp: int, ghost d: int, ghost place: int, ghost zeros: nat, ghost peak: nat)
    requires IsDouble(f, e) && 1 <= shift <= 2
    ensures AllDigits(buf) && Spells(buf, exp, d, place)
    ensures NearestEven(d, Num(f, e, place), Den(e, place))
    ensures place == PromisedPlace(f, e, Limited(precision), fixed) + if RoundsTooHigh(f, e, precision, fixed) then 1 else 0
    ensures Laid(buf + Zeros(zeros), exp - zeros, d, place, FirstPlace(f, e), fixed && !LeftToExact(f, e, precision, fixed))
    ensures if fixed || showpoint then zeros == 0 else buf == [] || buf[|buf| - 1] != '0'
    ensures peak <= BigintSizes.BIGITS_CAPACITY
  {
    hide NearestEven, Printed, Scaled, Num, Den, Pow, Number, Laid, Spells, Fails;
    var scaled, s, cachedExp10 := ScaleUp(f, e);
    ghost var v := ScaledValue(scaled, s, cachedExp10);
    var handler := new FixedHandler(Limited(precision), -cachedExp10, fixed);
    var result;
    ghost var kappa;
    peak := 0;
    result, exp, kappa, d := GrisuGenDigits(scaled, s, handler);
    if result == Error {
      buf, exp, d, place, peak := PrintExactly(f, e, shift, v, cachedExp10, exp, |handler.buf|, handler.precision);
    } else {
      ghost var unit := Place(kappa, handler.precision, handler.fixed);
      place := unit - cachedExp10;
      ScaledIsNearest(f, e, v, d, unit);
      HandlerLaid(handler, exp, cachedExp10, d, unit, kappa);
      exp := exp + handler.exp10;
      buf := handler.buf;
    }
    LaidSpells(buf, exp, d, place, FirstPlace(f, e), fixed && !LeftToExact(f, e, precision, fixed));
    zeros := 0;
    assert buf + Zeros(0) == buf;
    if !fixed && !showpoint {
      buf, exp, zeros := RemoveTrailingZeros(buf, exp, d, place);
    }
  }

  lemma ScaledIsNearest(f: nat, e: int, v: ScaledValue, d: int, unit: int)
    requires IsDouble(f, e) && v == Scaled(f, e) && Printed(d, v.f, Pow(2, v.s), unit)
    ensures NearestEven(d, Num(f, e, unit - v.exp10), Den(e, unit - v.exp10))
  {
    hide ErrorBelowOne, ScaledWithinError, NearestEven, Printed, Scaled;
    ScaledIsClose(f, e);
    BelowOneIsWithin(f, e, v.exp10, v.f, Pow(2, v.s));
    PowPositive(2, v.s);
    PrintedIsNearest(f, e, v.exp10, v.f, Pow(2, v.s), d, unit);
  }

  // When the fast printer finishes, the exact one would have given the same.
  lemma FastAgreesWithExact(f: nat, e: int, v: ScaledValue, unit: int, fast: int, exact: int)
    requires IsDouble(f, e) && v == Scaled(f, e) && Printed(fast, v.f, Pow(2, v.s), unit)
    requires NearestEven(exact, Num(f, e, unit - v.exp10), Den(e, unit - v.exp10))
    ensures fast == exact
  {
    ScaledIsNearest(f, e, v, fast, unit);
    NearestEvenUnique(fast, exact, Num(f, e, unit - v.exp10), Den(e, unit - v.exp10));
  }
}
