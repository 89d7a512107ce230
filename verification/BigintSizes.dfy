// How many bigits a number needs, so that a buffer of 32 of them need not grow.
module BigintSizes {
  import opened Powers
  import opened Limbs
  import opened BigintSteps
  import opened Scaling

  // The bigits that fit the buffer inside the object.
  const BIGITS_CAPACITY := 32

  lemma WeightIsPower(k: nat)
    ensures Weight(k) == Pow(2, 32 * k)
  {
    BaseIsPowerOfTwo();
    PowOfPow(2, 32, k);
  }

  // A number below 2^bits has its top bigit below that.
  lemma SizeBelow(s: seq<Bigit>, exp: nat, bits: nat)
    requires |s| > 0 && s[|s| - 1] != 0 && Scaled(s, exp) < Pow(2, bits)
    ensures 32 * (|s| + exp - 1) < bits
  {
    SizeBounds(s, exp);
    WeightIsPower(|s| + exp - 1);
    if bits <= 32 * (|s| + exp - 1) {
      PowMonotone(2, bits, 32 * (|s| + exp - 1));
    }
  }

  lemma {:induction false} FiveBits(n: nat)
    ensures Pow(5, n) < Pow(2, 7 * (n / 3 + 1))
  {
    assert Pow(2, 7) == 128 && Pow(5, 3) == 125;
    if n < 3 {
      assert Pow(5, 0) == 1 && Pow(5, 1) == 5 && Pow(5, 2) == 25;
    } else {
      FiveBits(n - 3);
      PowAdd(5, 3, n - 3);
      PowAdd(2, 7, 7 * (n / 3));
      PowPositive(2, 7 * (n / 3));
      assert (n - 3) / 3 + 1 == n / 3;
    }
  }

  // The powers of five on the way to the largest power of ten that is needed.
  const LARGEST_POWER := 358

  lemma FiveFits(s: seq<Bigit>, n: nat)
    requires |s| > 0 && s[|s| - 1] != 0 && Scaled(s, 0) == Pow(5, n) && n <= LARGEST_POWER
    ensures |s| <= 27 && (2 * n <= LARGEST_POWER ==> |s| <= 14)
  {
    FiveBits(n);
    SizeBelow(s, 0, 7 * (n / 3 + 1));
  }

  // What a remainder below ten times the divisor needs, at its own exponent and
  // aligned with the divisor, whose bigits end at `top`.
  ghost predicate Fits(exp: nat, denExp: nat, top: nat) {
    top + 1 <= BIGITS_CAPACITY + exp && top + 1 <= BIGITS_CAPACITY + denExp
  }

  lemma TenfoldSize(l: seq<Bigit>, le: nat, r: seq<Bigit>, re: nat)
    requires (l == [0] && le < |r| + re) || (|l| > 0 && l[|l| - 1] != 0 && Scaled(l, le) < 10 * Scaled(r, re))
    ensures |l| + le <= |r| + re + 1
  {
    if l != [0] {
      SizeBounds(l, le);
      SizeBounds(r, re);
      WeightNext(|r| + re);
      if |l| + le > |r| + re + 1 {
        WeightMonotone(|r| + re + 1, |l| + le - 1);
      }
    }
  }

  // A double, seen from about the place of its first digit.
  ghost predicate FirstDigitOfDouble(f: nat, e: int, exp10: int) {
    IsDouble(f, e) && Den(e, exp10) < 2 * Num(f, e, exp10) && Num(f, e, exp10) < 10 * Den(e, exp10)
  }

  // f and e alone bound the powers of ten and of two.
  lemma DoubleBounds(f: nat, e: int, exp10: int)
    requires FirstDigitOfDouble(f, e, exp10)
    ensures -LARGEST_POWER <= exp10 <= LARGEST_POWER
    ensures exp10 >= 0 ==> Pow(10, exp10) * Pow(2, if e < 0 then -e else 0) < Pow(2, 54 + if e >= 0 then e else 0)
    ensures e < 0 && exp10 < 0 ==> -e < 54 + 4 * -exp10
  {
    TwoTo54();
    assert Pow(2, 0) == 1 && Pow(10, 0) == 1;
    if exp10 >= 0 {
      PositivePlace(f, e, exp10);
    } else if e < 0 {
      NegativePlace(f, -e, -exp10);
    } else {
      IntegersAreNotBelowOne(f, e, -exp10);
    }
  }

  lemma PositivePlace(f: nat, e: int, exp10: nat)
    requires IsDouble(f, e) && Den(e, exp10) < 2 * Num(f, e, exp10)
    ensures exp10 <= LARGEST_POWER
    ensures Pow(10, exp10) * Pow(2, if e < 0 then -e else 0) < Pow(2, 54 + if e >= 0 then e else 0)
  {
    var up: nat, down: nat := if e >= 0 then e else 0, if e < 0 then -e else 0;
    hide Num, Den, Pow;
    FractionAbove(f, e, exp10);
    TwoTo54();
    PowAdd(2, 54, up);
    PowPositive(2, up);
    PowPositive(2, down);
    PlaceBelow(f, Pow(2, up), Pow(2, down), Pow(10, exp10), Pow(2, 54));
    if exp10 > LARGEST_POWER {
      TensBetweenTwos(exp10);
      PowMonotone(2, 54 + up, 3 * exp10);
    }
  }

  lemma PlaceBelow(f: nat, u: nat, d: nat, t: nat, limit: nat)
    requires d * t < 2 * (f * u) && 2 * f <= limit && d > 0
    ensures t * d < limit * u && t < limit * u
  {
    MulLe(2 * f, limit, u);
    MulAssoc(2, f, u);
    MulLe(1, d, t);
    assert t * d == d * t;
  }

  lemma NegativePlace(f: nat, t: nat, g: nat)
    requires IsDouble(f, 0 - t) && t > 0 && g > 0
    requires Den(0 - t, 0 - g) < 2 * Num(f, 0 - t, 0 - g) && Num(f, 0 - t, 0 - g) < 10 * Den(0 - t, 0 - g)
    ensures g <= LARGEST_POWER && t < 54 + 4 * g
  {
    assert Pow(10, g) == 10 * Pow(10, g - 1);
    hide Num, Den, Pow;
    FractionBelow(f, t, g);
    TwoTo54();
    PowAdd(2, 54, 4 * g);
    TensBetweenTwos(g);
    PowPositive(2, 4 * g);
    MulLe(2 * f, Pow(2, 54), Pow(10, g));
    MulLe(Pow(10, g), Pow(2, 4 * g), Pow(2, 54));
    MulAssoc(2, f, Pow(10, g));
    MulLe(1, f, Pow(10, g));
    if t >= 54 + 4 * g {
      PowMonotone(2, 54 + 4 * g, t);
    }
    if g > LARGEST_POWER {
      TensBetweenTwos(g - 1);
      PowMonotone(2, t, 3 * (g - 1));
    }
  }

  lemma IntegersAreNotBelowOne(f: nat, e: nat, g: nat)
    requires f > 0 && g > 0
    ensures Num(f, e, 0 - g) >= 10 * Den(e, 0 - g)
  {
    PowPositive(2, e);
    PowMonotone(10, 1, g);
    MulPositive(f, Pow(2, e));
    MulLe(1, f * Pow(2, e), Pow(10, g));
  }

  // The three cases of numerator and denominator: with the exponents they are
  // given, the whole division fits.
  lemma LargeFits(f: nat, e: nat, shift: nat, exp10: nat, s: seq<Bigit>, exp: nat)
    requires FirstDigitOfDouble(f, e, exp10) && shift <= 2 && exp == exp10 / 32
    requires |s| > 0 && s[|s| - 1] != 0 && Scaled(s, exp) == Pow(10, exp10) * Pow(2, shift)
    ensures Fits(e / 32, exp, |s| + exp)
  {
    assert Pow(2, 0) == 1;
    hide Num, Den, Pow;
    DoubleBounds(f, e, exp10);
    TensBetweenTwos(exp10);
    OneMore(4 * exp10);
    ShiftedBelow(Pow(10, exp10), 4 * exp10 + 1, shift);
    SizeBelow(s, exp, 4 * exp10 + 3);
    ShiftedBelow(Pow(10, exp10), 54 + e, shift);
    SizeBelow(s, exp, 56 + e);
  }

  lemma ShiftedBelow(t: nat, bits: nat, shift: nat)
    requires t < Pow(2, bits) && shift <= 2
    ensures t * Pow(2, shift) < Pow(2, bits + 2)
  {
    hide Pow;
    PowPositive(2, shift);
    MulLt(t, Pow(2, bits), Pow(2, shift));
    PowAdd(2, bits, shift);
    PowMonotone(2, bits + shift, bits + 2);
  }

  lemma OneMore(k: nat)
    ensures Pow(2, k) < Pow(2, k + 1)
  {
    PowPositive(2, k);
  }

  lemma SmallFits(f: nat, e: int, shift: nat, exp10: int, s: seq<Bigit>, exp: nat)
    requires FirstDigitOfDouble(f, e, exp10) && e < 0 && exp10 < 0 && shift <= 2 && exp == (shift - e) / 32
    requires |s| > 0 && s[|s| - 1] != 0 && Scaled(s, exp) == Pow(2, shift - e)
    ensures Fits(-exp10 / 32, exp, |s| + exp)
  {
    hide Num, Den, Pow;
    DoubleBounds(f, e, exp10);
    OneMore(shift - e);
    SizeBelow(s, exp, shift - e + 1);
  }

  lemma MixedFits(f: nat, e: int, shift: nat, exp10: nat, s: seq<Bigit>, exp: nat)
    requires FirstDigitOfDouble(f, e, exp10) && e < 0 && shift <= 2
    requires |s| > 0 && s[|s| - 1] != 0 && Scaled(s, exp) == Pow(10, exp10) * Pow(2, shift - e)
    ensures Fits(0, exp, |s| + exp)
  {
    hide Num, Den, Pow;
    DoubleBounds(f, e, exp10);
    PowAdd(2, -e, shift);
    MulAssoc(Pow(10, exp10), Pow(2, -e), Pow(2, shift));
    PowPositive(2, shift);
    MulLt(Pow(10, exp10) * Pow(2, -e), Pow(2, 54), Pow(2, shift));
    PowAdd(2, 54, shift);
    PowMonotone(2, 54 + shift, 56);
    SizeBelow(s, exp, 56);
  }
}
