// How many digits are printed: what FormatFloat promises determines the
// characters, and in fixed format there is one case with a digit too few.
module FloatLayout {
  import opened Powers
  import opened Digits
  import opened Rounding
  import opened Scaling
  import opened Grisu
  import opened CountDigitsModel
  import opened CachedPowers
  import opened FormatFloatModel

  lemma {:induction false} NumberInjective(a: seq<char>, b: seq<char>)
    requires AllDigits(a) && AllDigits(b) && |a| == |b| && Number(a) == Number(b)
    ensures a == b
  {
    if a != [] {
      var n := |a| - 1;
      NumberInjective(a[..n], b[..n]);
      assert a == a[..n] + [a[n]] && b == b[..n] + [b[n]];
    }
  }

  // Characters that end in no zero are known from what they are with zeros.
  lemma StrippedUnique(a: seq<char>, j: nat, b: seq<char>, k: nat)
    requires a + Zeros(j) == b + Zeros(k)
    requires (j == 0 && k == 0) || ((a == [] || a[|a| - 1] != '0') && (b == [] || b[|b| - 1] != '0'))
    ensures a == b && j == k
  {
    var s := a + Zeros(j);
    assert forall i :: |a| <= i < |s| ==> s[i] == '0';
    assert forall i :: 0 <= i < |a| ==> s[i] == a[i];
    assert forall i :: |b| <= i < |s| ==> s[i] == '0';
    assert forall i :: 0 <= i < |b| ==> s[i] == b[i];
    assert a == s[..|a|] && b == s[..|b|];
  }

  // FormatFloat promises one result: whatever satisfies its contract for the same
  // number has the same characters and the same exponent.
  lemma OneResult(a: seq<char>, x: int, j: nat, b: seq<char>, y: int, k: nat, d: int, place: int, first: int, longer: bool,
                  strip: bool)
    requires AllDigits(a) && Laid(a + Zeros(j), x - j, d, place, first, longer)
    requires AllDigits(b) && Laid(b + Zeros(k), y - k, d, place, first, longer)
    requires if strip then (a == [] || a[|a| - 1] != '0') && (b == [] || b[|b| - 1] != '0') else j == 0 && k == 0
    ensures a == b && x == y
  {
    NumberInjective(a + Zeros(j), b + Zeros(k));
    StrippedUnique(a, j, b, k);
  }

  // The value lies no more than half a unit of the place below the next power of
  // ten above its first digit.
  ghost predicate RoundsUp(f: nat, e: int, place: int)
    requires IsDouble(f, e)
  {
    var n := FirstPlace(f, e) + 1 - place;
    n > 0 && 2 * Num(f, e, place) >= (2 * Pow(10, n) - 1) * Den(e, place)
  }

  lemma PowerReached(d: int, n: nat, m: nat, p: nat)
    requires m > 0 && n < p * m && NearestEven(d, n, m) && p % 2 == 0
    ensures d == p <==> 2 * n >= (2 * p - 1) * m
  {
    MulDistribute(2 * p, 1, m);
    MulAssoc(2, p, m);
    if 2 * n >= (2 * p - 1) * m {
      NearestEvenUnique(d, p, n, m);
    }
  }

  lemma {:induction false} EvenPower(n: nat)
    requires n > 0
    ensures Pow(10, n) % 2 == 0
  {
    DivModUnique(Pow(10, n), 2, 5 * Pow(10, n - 1), 0);
  }

  lemma BelowNextPower(f: nat, e: int, place: int)
    requires IsDouble(f, e) && place <= FirstPlace(f, e) + 1
    ensures var n := FirstPlace(f, e) + 1 - place; Num(f, e, place) < Pow(10, n) * Den(e, place)
  {
    hide Num, Den, FirstPlace;
    var first, n := FirstPlace(f, e), FirstPlace(f, e) + 1 - place;
    FirstPlaceIsFirst(f, e);
    PlaceStep(f, e, first);
    PlaceShift(f, e, place, n);
    assert place + n == first + 1;
    Below(Num(f, e, first), Den(e, first), Num(f, e, first + 1), Den(e, first + 1));
    PowPositive(10, n);
    BelowShifted(Num(f, e, place), Den(e, place), Num(f, e, first + 1), Den(e, first + 1), Pow(10, n));
  }

  lemma Below(n: nat, m: nat, n': nat, m': nat)
    requires m > 0 && m' > 0 && n < 10 * m && n * m' == 10 * n' * m
    ensures n' < m'
  {
    MulLt(n, 10 * m, m');
    Swap(10, m, m');
    Swap(10, n', m);
    MulCancelLt(10 * n', 10 * m', m);
  }

  lemma BelowShifted(n: nat, m: nat, n': nat, m': nat, p: nat)
    requires m > 0 && m' > 0 && p > 0 && n' < m' && n * m' == p * n' * m
    ensures n < p * m
  {
    MulLt(n', m', p * m);
    assert p * n' * m == n' * (p * m) by {
      Swap(p, n', m);
    }
    assert p * m * m' == m' * (p * m);
    MulCancelLt(n, p * m, m');
  }

  // In fixed format the digits end at the place asked for, unless the exact
  // printer rounds up to a power of ten: then they end one place too early.
  lemma FixedDigits(f: nat, e: int, precision: nat, buf: seq<char>, exp: int, d: int)
    requires IsDouble(f, e)
    requires var place := PromisedPlace(f, e, Limited(precision), true);
             && place <= FirstPlace(f, e) + 1 && NearestEven(d, Num(f, e, place), Den(e, place))
             && Laid(buf, exp, d, place, FirstPlace(f, e), !LeftToExact(f, e, precision, true))
    ensures exp == 0 - Limited(precision) <==>
            !(LeftToExact(f, e, precision, true) && RoundsUp(f, e, 0 - Limited(precision)))
  {
    hide NearestEven, Num, Den, FirstPlace, LeftToExact;
    var place := 0 - Limited(precision);
    var n := FirstPlace(f, e) + 1 - place;
    BelowNextPower(f, e, place);
    if n > 0 {
      EvenPower(n);
      PowerReached(d, Num(f, e, place), Den(e, place), Pow(10, n));
    } else {
      assert Pow(10, 0) == 1 && Pow(10, 1) == 10;
      NotTen(d, Num(f, e, place), Den(e, place));
    }
  }

  lemma NotTen(d: int, n: nat, m: nat)
    requires m > 0 && n < m && NearestEven(d, n, m)
    ensures d != 10
  {
  }

  // The double 5986310703514223 / 2^172, which lies just above
  // 9.999999995 * 10^-37, with 45 digits after the point: the fast printer gives
  // up at the ninth digit, all nine round up, and only 44 places are filled.
  lemma OneDigitShort(buf: seq<char>, exp: int, d: int)
    requires NearestEven(d, Num(SHORT, -172, -45), Den(-172, -45))
    requires Laid(buf, exp, d, -45, FirstPlace(SHORT, -172), !LeftToExact(SHORT, -172, 45, true))
    ensures FirstPlace(SHORT, -172) == -37 && LeftToExact(SHORT, -172, 45, true) && RoundsUp(SHORT, -172, -45)
    ensures exp == -44
  {
    hide NearestEven, Num, Den, FirstPlace, LeftToExact, RoundsUp;
    ShortIsLeft();
    ShortRoundsUp();
    FixedDigits(SHORT, -172, 45, buf, exp, d);
  }

  const SHORT := 5_986_310_703_514_223

  // What the scaled value is.
  const SCALED := 6_871_947_670_164_026_164

  lemma ScaledShort()
    ensures Scaled(SHORT, -172) == ScaledValue(SCALED, 36, 44)
  {
    assert Pow(2, 11) == 2048 && Shift(SHORT) == 11;
    assert Index(59) == 49;
    assert GetCachedPower(59) == CachedPower(0x8f7e_32ce_7bea_5c70, 83, 44);
  }

  lemma TwoTo36()
    ensures Pow(2, 36) == 0x10_0000_0000
  {
    PowersOfTwo();
    PowAdd(2, 18, 18);
  }

  lemma KappaOfShort()
    ensures 32 <= 36 <= 60 && Pow(2, 36) <= SCALED && Kappa(SCALED, 36) == 8
  {
    TwoTo36();
    PowersOfTen();
    hide Kappa, Pow;
    HasDigitsUnique(SCALED / 0x10_0000_0000, Kappa(SCALED, 36), 8);
  }

  lemma ShortIsLeft()
    ensures FirstPlace(SHORT, -172) == -37 && LeftToExact(SHORT, -172, 45, true)
  {
    hide Scaled, Kappa;
    ScaledShort();
    KappaOfShort();
    TwoTo36();
    assert Pow(10, 1) == 10;
    assert UnclearAt(SCALED, Pow(2, 36), -1);
  }

  lemma ShortRoundsUp()
    requires FirstPlace(SHORT, -172) == -37
    ensures RoundsUp(SHORT, -172, -45)
  {
    hide FirstPlace;
    FractionBelow(SHORT, 172, 45);
    PowersOfTen();
    PowersOfTwo();
    PowAdd(10, 9, 9);
    PowAdd(10, 9, 18);
    PowAdd(10, 18, 27);
    PowAdd(2, 18, 18);
    PowAdd(2, 7, 36);
    PowAdd(2, 43, 43);
    PowAdd(2, 86, 86);
  }
}
