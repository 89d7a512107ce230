// A binary floating-point value seen from a decimal place, as a fraction.
module Scaling {
  import opened Powers
  import opened Rounding

  // A positive double, as its significand and exponent.
  predicate IsDouble(f: nat, e: int) {
    0 < f < 0x20_0000_0000_0000 && -1074 <= e <= 971
  }

  // value / 10^place == Num / Den for value == f * 2^e.
  ghost function Num(f: nat, e: int, place: int): nat {
    f * Pow(2, if e >= 0 then e else 0) * Pow(10, if place < 0 then -place else 0)
  }

  ghost function Den(e: int, place: int): (d: nat)
    ensures d > 0
  {
    PowPositive(2, if e < 0 then -e else 0);
    PowPositive(10, if place >= 0 then place else 0);
    MulPositive(Pow(2, if e < 0 then -e else 0), Pow(10, if place >= 0 then place else 0));
    Pow(2, if e < 0 then -e else 0) * Pow(10, if place >= 0 then place else 0)
  }

  // f * 2^e times 10^exp10 is scaled / one, up to one unit of the latter.
  ghost predicate ScaledWithinError(f: nat, e: int, exp10: int, scaled: nat, one: nat) {
    Abs(Num(f, e, -exp10) * one - scaled * Den(e, -exp10)) <= Den(e, -exp10)
  }

  // The error is in fact below one unit.
  ghost predicate ErrorBelowOne(f: nat, e: int, exp10: int, scaled: nat, one: nat) {
    Abs(Num(f, e, -exp10) * one - scaled * Den(e, -exp10)) < Den(e, -exp10)
  }

  lemma BelowOneIsWithin(f: nat, e: int, exp10: int, scaled: nat, one: nat)
    requires ErrorBelowOne(f, e, exp10, scaled, one)
    ensures ScaledWithinError(f, e, exp10, scaled, one)
  {
  }

  // The fraction from a place at the decimal point or above, and from one below
  // for a binary fraction.
  lemma FractionAbove(f: nat, e: int, place: nat)
    ensures Num(f, e, place) == f * Pow(2, if e >= 0 then e else 0)
    ensures Den(e, place) == Pow(2, if e < 0 then -e else 0) * Pow(10, place)
  {
    assert Pow(10, 0) == 1;
  }

  lemma FractionBelow(f: nat, t: nat, places: nat)
    requires t > 0 && places > 0
    ensures Num(f, 0 - t, 0 - places) == f * Pow(10, places) && Den(0 - t, 0 - places) == Pow(2, t)
  {
    assert Pow(2, 0) == 1 && Pow(10, 0) == 1;
  }

  lemma TwoTo54()
    ensures Pow(2, 54) == 0x40_0000_0000_0000
  {
    assert Pow(2, 9) == 512;
    PowAdd(2, 9, 9);
    PowAdd(2, 9, 18);
    PowAdd(2, 27, 27);
  }

  lemma {:induction false} TensBetweenTwos(k: nat)
    ensures Pow(2, 3 * k) <= Pow(10, k) <= Pow(2, 4 * k) && (k > 0 ==> Pow(2, 3 * k) < Pow(10, k))
  {
    assert Pow(2, 3) == 8 && Pow(2, 4) == 16;
    if k == 0 {
    } else {
      TensBetweenTwos(k - 1);
      PowAdd(2, 3, 3 * (k - 1));
      PowAdd(2, 4, 4 * (k - 1));
      PowPositive(2, 3 * (k - 1));
    }
  }

  lemma Swap(a: int, b: int, c: int)
    ensures a * b * c == a * c * b
  {
    MulAssoc(a, b, c);
    MulAssoc(a, c, b);
  }

  // Two fractions of equal value round alike.
  lemma NearestEvenRatio(x: int, a: nat, b: nat, a': nat, b': nat)
    requires b > 0 && b' > 0 && a * b' == a' * b
    ensures NearestEven(x, a, b) <==> NearestEven(x, a', b')
  {
    NearestEvenScale(x, a, b, b');
    NearestEvenScale(x, a', b', b);
    assert b * b' == b' * b;
  }

  // Moving the place by j divides the fraction by 10^j.
  lemma {:induction false} PlaceShift(f: nat, e: int, place: int, j: nat)
    ensures Num(f, e, place) * Den(e, place + j) == Pow(10, j) * Num(f, e, place + j) * Den(e, place)
    decreases j
  {
    if j > 0 {
      var near, far := place + (j - 1), place + j;
      PlaceShift(f, e, place, j - 1);
      PlaceStep(f, e, near);
      assert near + 1 == far;
      Cross(Num(f, e, place), Den(e, place), Num(f, e, near), Den(e, near), Num(f, e, far), Den(e, far), Pow(10, j - 1));
    }
  }

  lemma PlaceStep(f: nat, e: int, place: int)
    ensures Num(f, e, place) * Den(e, place + 1) == 10 * Num(f, e, place + 1) * Den(e, place)
  {
    var m, t := f * Pow(2, if e >= 0 then e else 0), Pow(2, if e < 0 then -e else 0);
    if place >= 0 {
      var p := Pow(10, place);
      assert Num(f, e, place) == m * 1 && Num(f, e, place + 1) == m * 1;
      assert Den(e, place + 1) == t * (10 * p);
      MulAssoc(t, 10, p);
      MulAssoc(10, t, p);
      MulAssoc(m, 10, t * p);
      MulAssoc(10, m, t * p);
    } else {
      var p := Pow(10, -place - 1);
      assert Num(f, e, place) == m * (10 * p) && Num(f, e, place + 1) == m * p;
      assert Den(e, place) == t * 1 && Den(e, place + 1) == t * 1;
      MulAssoc(m, 10, p);
      MulAssoc(10, m, p);
    }
  }

  lemma Cross(a: int, b: int, c: int, d: int, g: int, h: int, p: int)
    requires a * d == p * c * b && c * h == 10 * g * d && d != 0
    ensures a * h == 10 * p * g * b
  {
    calc {
      a * h * d;
      { Swap(a, h, d); }
      a * d * h;
      p * c * b * h;
      { Swap(p * c, b, h); MulAssoc(p, c, h); }
      p * (10 * g * d) * b;
      { MulAssoc(p, 10 * g, d); Swap(p * (10 * g), d, b); MulAssoc(p, 10, g); }
      10 * p * g * b * d;
    }
    MulCancel(a * h, 10 * p * g * b, d);
  }
}
