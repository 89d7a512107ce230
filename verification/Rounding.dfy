// What it means for an integer to be a correctly rounded quotient.
module Rounding {
  import opened Powers

  function Abs(x: int): nat {
    if x < 0 then -x else x
  }

  // x is within half a unit of num / den.
  ghost predicate Nearest(x: int, num: int, den: nat) {
    2 * Abs(num - x * den) <= den
  }

  // Rounding to nearest, ties to even (section 4.3.1 of IEEE 754-2008).
  ghost predicate NearestEven(x: int, num: int, den: nat) {
    Nearest(x, num, den) && (2 * Abs(num - x * den) == den ==> x % 2 == 0)
  }

  // There is one such integer.
  lemma NearestEvenUnique(x: int, y: int, num: int, den: nat)
    requires den > 0 && NearestEven(x, num, den) && NearestEven(y, num, den)
    ensures x == y
  {
    NearestEvenOrder(x, y, num, den);
    NearestEvenOrder(y, x, num, den);
  }

  lemma NearestEvenOrder(x: int, y: int, num: int, den: nat)
    ensures den > 0 && x < y && NearestEven(x, num, den) ==> !NearestEven(y, num, den)
  {
    MulDistribute(y, x, den);
    if x < y {
      MulLe(1, y - x, den);
      if y - x >= 2 {
        MulLe(2, y - x, den);
      }
    }
  }

  // Quotient and remainder decide the rounding.
  lemma RoundFromRemainder(num: int, den: nat, q: int, r: int)
    requires den > 0 && num == q * den + r && 0 <= r < den
    ensures 2 * r > den || (2 * r == den && q % 2 != 0) ==> NearestEven(q + 1, num, den)
    ensures !(2 * r > den || (2 * r == den && q % 2 != 0)) ==> NearestEven(q, num, den)
  {
    MulDistribute(q, 1, den);
  }

  lemma NearestEvenScale(x: int, num: int, den: nat, s: nat)
    requires s > 0
    ensures NearestEven(x, num * s, den * s) <==> NearestEven(x, num, den)
  {
    var d := num - x * den;
    MulAssoc(x, den, s);
    MulDistribute(num, x * den, s);
    AbsScale(d, s);
    ScaleOrder(2 * Abs(d), den, s);
  }

  lemma AbsScale(d: int, s: nat)
    ensures 2 * Abs(d * s) == 2 * Abs(d) * s
  {
    if d >= 0 {
      MulLe(0, d, s);
    } else {
      MulLe(0, -d, s);
    }
  }

  lemma ScaleOrder(a: int, b: int, s: int)
    requires s > 0
    ensures a * s <= b * s <==> a <= b
    ensures a * s == b * s <==> a == b
  {
    if a <= b {
      MulLe(a, b, s);
    } else {
      MulLt(b, a, s);
    }
    if a < b {
      MulLt(a, b, s);
    }
  }
}
