// The loss as a percentage: a division and a multiplication of doubles, each
// rounded to 53 bits, and the result cut to an integer.
module LossPercent {
  import opened Words
  import opened Powers
  import opened Rounding
  import opened Scaling

  const TWO_52 := 0x10_0000_0000_0000

  // Rounding to nearest, ties to even.
  function RoundedQuotient(n: nat, d: nat): (q: nat)
    requires d > 0
    ensures NearestEven(q, n, d)
  {
    var q, r := n / d, n % d;
    RoundFromRemainder(n, d, q, r);
    if 2 * r > d || (2 * r == d && q % 2 != 0) then q + 1 else q
  }

  // How often n is doubled for a quotient by d of 53 bits.
  function Doublings(n: nat, d: nat): (s: nat)
    requires 0 < n < 2 * TWO_52 * d
    ensures TWO_52 * d <= n * Pow(2, s) < 2 * TWO_52 * d
    decreases 2 * TWO_52 * d - n
  {
    if n >= TWO_52 * d then
      assert Pow(2, 0) == 1;
      0
    else
      var s := Doublings(2 * n, d);
      MulAssoc(n, 2, Pow(2, s));
      s + 1
  }

  // The quotient without its fraction.
  function Cut(v: nat, d: nat): (q: nat)
    requires d > 0
    ensures q * d <= v < (q + 1) * d
  {
    CutBounds(v, d);
    v / d
  }

  lemma CutBounds(v: nat, d: nat)
    requires d > 0
    ensures 0 <= v / d && v / d * d <= v < (v / d + 1) * d
  {
    var q, r := v / d, v % d;
    assert v == q * d + r;
    MulDistribute(q, 1, d);
    if q < 0 {
      MulLe(q, -1, d);
    }
  }

  // loss / total as a double is Fraction / 2^Doublings.
  function Fraction(loss: nat, total: nat): nat
    requires 0 < loss <= total
  {
    PowPositive(2, Doublings(loss, total));
    MulPositive(loss, Pow(2, Doublings(loss, total)));
    RoundedQuotient(loss * Pow(2, Doublings(loss, total)), total)
  }

  // A hundred times that is rounded to a multiple of this many units, and then
  // the fractional part is dropped.
  function Unit(fraction: nat): nat {
    if 100 * fraction < 128 * TWO_52 then 64 else 128
  }

  function Percent(loss: nat, total: nat): (percent: nat)
    requires loss <= total && total > 0
  {
    if loss == 0 then 0
    else
      var fraction := Fraction(loss, total);
      PowPositive(2, Doublings(loss, total));
      Cut(RoundedQuotient(100 * fraction, Unit(fraction)) * Unit(fraction), Pow(2, Doublings(loss, total)))
  }

  // Both roundings together stay below 114 units of 2^-s.
  lemma RoundingError(n: nat, total: nat, fraction: int, x: int, unit: nat)
    requires NearestEven(fraction, n, total) && NearestEven(x, 100 * fraction, unit) && 0 < unit <= 128
    ensures Abs(x * unit * total - 100 * n) <= 114 * total
  {
    MulDistribute(x * unit, 100 * fraction, total);
    var a := x * unit - 100 * fraction;
    MulLe(a, 64, total);
    MulLe(-64, a, total);
    MulAssoc(100, fraction, total);
  }

  // What is that close to 100 * loss / total, in units of 1 / scale, has the same
  // integral part, or is just below an integer.
  lemma NearQuotient(v: nat, scale: nat, total: nat, loss: nat)
    requires total > 0 && scale > 114 * total
    requires Abs(v * total - 100 * (loss * scale)) <= 114 * total
    ensures var p, q := Cut(v, scale), 100 * loss / total; p == q || (p == q - 1 && 100 * loss % total == 0)
  {
    var q, r := 100 * loss / total, 100 * loss % total;
    assert 100 * loss == q * total + r;
    MulAssoc(100, loss, scale);
    MulDistribute(q * total, r, scale);
    Commute(q, total, scale);
    NearParts(v, scale, total, q, r, Cut(v, scale));
  }

  lemma NearParts(v: nat, scale: nat, total: nat, q: int, r: nat, p: int)
    requires r < total && scale > 114 * total && p * scale <= v < (p + 1) * scale
    requires Abs(v * total - (q * scale * total + r * scale)) <= 114 * total
    ensures p == q || (p == q - 1 && r == 0)
  {
    if p > q {
      NotAbove(v, scale, total, q, r, p);
    } else if p < if r == 0 then q - 1 else q {
      NotBelow(v, scale, total, q, r, p);
    }
  }

  lemma NotAbove(v: int, scale: nat, total: nat, q: int, r: nat, p: int)
    requires p > q && p * scale <= v && r < total && scale > 114 * total
    ensures v * total - (q * scale * total + r * scale) > 114 * total
  {
    MulLe(q + 1, p, scale);
    MulLe((q + 1) * scale, v, total);
    MulDistribute(q, 1, scale);
    MulDistribute(q * scale, scale, total);
    MulLe(r + 1, total, scale);
    MulDistribute(r, 1, scale);
  }

  lemma NotBelow(v: int, scale: nat, total: nat, q: int, r: nat, p: int)
    requires p < (if r == 0 then q - 1 else q) && v < (p + 1) * scale && total > 0 && scale > 114 * total
    ensures q * scale * total + r * scale - v * total > 114 * total
  {
    var least := if r == 0 then q - 1 else q;
    MulLe(p + 1, least, scale);
    MulLt(v, least * scale, total);
    MulDistribute(q, 1, scale);
    MulDistribute(q * scale, scale, total);
    MulLe(1, total, scale);
    if r > 0 {
      MulLe(1, r, scale);
    }
  }

  lemma Commute(q: int, total: int, scale: int)
    ensures q * total * scale == q * scale * total
  {
    MulAssoc(q, total, scale);
    MulAssoc(q, scale, total);
  }

  lemma ManyDoublings(loss: nat, total: nat)
    requires 0 < loss <= total
    ensures Pow(2, Doublings(loss, total)) >= TWO_52
  {
    var scale := Pow(2, Doublings(loss, total));
    MulLe(loss, total, scale);
    MulCancelLe(TWO_52, scale, total);
  }

  // The percentage is the integral part of 100 * loss / total, except that an
  // integer may come out one too low.
  lemma PercentIsClose(loss: nat, total: nat)
    requires loss <= total && 0 < total <= INT_MAX
    ensures var q := 100 * loss / total;
            Percent(loss, total) == q || (Percent(loss, total) == q - 1 && 100 * loss % total == 0)
  {
    hide Doublings, RoundedQuotient, NearestEven;
    if loss > 0 {
      var s, fraction := Doublings(loss, total), Fraction(loss, total);
      var x, scale := RoundedQuotient(100 * fraction, Unit(fraction)), Pow(2, s);
      ManyDoublings(loss, total);
      RoundingError(loss * scale, total, fraction, x, Unit(fraction));
      NearQuotient(x * Unit(fraction), scale, total, loss);
    }
  }

  lemma RoundedBound(n: nat, d: nat, most: nat)
    requires d > 0 && n <= most * d
    ensures RoundedQuotient(n, d) <= most
  {
    var q := RoundedQuotient(n, d);
    if q > most {
      MulLe(most + 1, q, d);
      MulDistribute(most, 1, d);
    }
  }

  // It is a percentage, however large the numbers.
  lemma PercentBound(loss: nat, total: nat)
    requires loss <= total && total > 0
    ensures 0 <= Percent(loss, total) <= 100
  {
    hide Doublings, RoundedQuotient, NearestEven;
    if loss > 0 {
      var s, fraction := Doublings(loss, total), Fraction(loss, total);
      var scale, unit := Pow(2, s), Unit(fraction);
      ManyDoublings(loss, total);
      MulLe(loss, total, scale);
      RoundedBound(loss * scale, total, scale);
      var k := ManyUnits(s);
      RoundedBound(100 * fraction, unit, if unit == 64 then 200 * k else 100 * k);
      MulCancelLe(Percent(loss, total), 100, scale);
    }
  }

  lemma ManyUnits(s: nat) returns (k: nat)
    requires Pow(2, s) >= TWO_52
    ensures Pow(2, s) == 128 * k
  {
    assert Pow(2, 7) == 128;
    if s < 7 {
      PowMonotone(2, s, 7);
    }
    PowAdd(2, 7, s - 7);
    k := Pow(2, s - 7);
  }

  // 29 of 100 come out as 28.
  lemma TwentyNineOfHundred()
    ensures Percent(29, 100) == 28
  {
    TwoTo54();
    DoublingsUnique(29, 100, 54);
    hide Doublings;
    var fraction := 5_224_175_567_749_775;
    DivModUnique(29 * 0x40_0000_0000_0000, 100, fraction, 36);
    DivModUnique(100 * fraction, 64, 8_162_774_324_609_023, 28);
  }

  lemma {:induction false} DoublingsUnique(n: nat, d: nat, s: nat)
    requires 0 < n < 2 * TWO_52 * d && TWO_52 * d <= n * Pow(2, s) < 2 * TWO_52 * d
    ensures Doublings(n, d) == s
    decreases s
  {
    if n >= TWO_52 * d {
      if s > 0 {
        MulAssoc(n, 2, Pow(2, s - 1));
        PowPositive(2, s - 1);
        MulLe(1, Pow(2, s - 1), 2 * n);
      }
    } else {
      assert Pow(2, 0) == 1;
      MulAssoc(n, 2, Pow(2, s - 1));
      PowPositive(2, s - 1);
      MulLe(1, Pow(2, s - 1), 2 * n);
      DoublingsUnique(2 * n, d, s - 1);
    }
  }
}
