// Removing trailing zeros: divide by five through inverses as often as the
// factors of two allow, and shift once at the end.
module TrailingZeros {
  import opened Words
  import opened Powers
  import opened ModInverse

  // r is n without s trailing zeros, and no further zero could be removed.
  ghost predicate Removed(n: nat, r: nat, s: nat, most: nat) {
    n == r * Pow(10, s) && s <= most && (s < most ==> r % 10 != 0)
  }

  // That determines both.
  lemma RemovedUnique(n: nat, r: nat, s: nat, r': nat, s': nat, most: nat)
    requires n > 0 && Removed(n, r, s, most) && Removed(n, r', s', most)
    ensures r == r' && s == s'
  {
    PowPositive(10, s);
    if s < s' {
      RemovedFurther(n, r, s, r', s');
    } else if s' < s {
      RemovedFurther(n, r', s', r, s);
    } else {
      MulCancel(r, r', Pow(10, s));
    }
  }

  lemma RemovedFurther(n: nat, r: nat, s: nat, r': nat, s': nat)
    requires s < s' && n == r * Pow(10, s) == r' * Pow(10, s')
    ensures r % 10 == 0
  {
    var d := s' - s - 1;
    PowAdd(10, d + 1, s);
    MulAssoc(r', Pow(10, d + 1), Pow(10, s));
    PowPositive(10, s);
    MulCancel(r, r' * Pow(10, d + 1), Pow(10, s));
    MulAssoc(10, r', Pow(10, d));
    MulAssoc(r', 10, Pow(10, d));
    DivModUnique(r, 10, r' * Pow(10, d), 0);
  }

  function Ctz(n: nat): nat
    requires n > 0
  {
    if n % 2 == 1 then 0 else 1 + Ctz(n / 2)
  }

  lemma {:induction false} CtzOdd(n: nat, t: nat) returns (b: nat)
    requires n > 0 && t <= Ctz(n)
    ensures n == b * Pow(2, t) && (t == Ctz(n) ==> b % 2 == 1)
  {
    if t == 0 {
      b := n;
    } else {
      b := CtzOdd(n / 2, t - 1);
      MulAssoc(2, b, Pow(2, t - 1));
      MulAssoc(b, 2, Pow(2, t - 1));
    }
  }

  const FIVE_TO_8 := 390625

  const TEN_TO_8 := 100_000_000

  lemma HalfDivides(x: nat, d: nat)
    requires d > 0 && d % 2 == 1 && (2 * x) % d == 0
    ensures x % d == 0
  {
    var k, h := 2 * x / d, d / 2;
    assert 2 * x == k * d && d == 2 * h + 1;
    assert x == (x - h * k) * d by {
      MulDistribute(x, h * k, d);
      MulAssoc(h, k, d);
      MulAssoc(x, 2, h);
      assert x * d == 2 * x * h + x;
      assert h * (2 * x) == 2 * x * h;
    }
    MulSign(x, d, x - h * k);
    DivModUnique(x, d, x - h * k, 0);
  }

  lemma MulSign(x: int, d: int, q: int)
    requires x == q * d && d > 0 && x >= 0
    ensures q >= 0
  {
    if q < 0 {
      MulLe(q, -1, d);
    }
  }

  // Powers of two do not matter to divisibility by powers of five.
  lemma {:induction false} TwosDoNotMatter(a: nat, t: nat, d: nat)
    requires (d == 5 || d == 25 || d == FIVE_TO_8) && (a * Pow(2, t)) % d == 0
    ensures a % d == 0
    decreases t
  {
    if t > 0 {
      MulAssoc(a, 2, Pow(2, t - 1));
      TwosDoNotMatter(a * 2, t - 1, d);
      HalfDivides(a, d);
    }
  }

  lemma DivideOut(m: nat, a: nat, t: nat, d: nat)
    requires (d == 5 || d == 25 || d == FIVE_TO_8) && m == a * Pow(2, t)
    ensures m % d == 0 <==> a % d == 0
    ensures m % d == 0 ==> m / d == (a / d) * Pow(2, t)
  {
    if m % d == 0 {
      TwosDoNotMatter(a, t, d);
    }
    if a % d == 0 {
      assert a == a / d * d;
      MulAssoc(a / d, d, Pow(2, t));
      MulAssoc(a / d, Pow(2, t), d);
      DivModUnique(m, d, (a / d) * Pow(2, t), 0);
    }
  }

  // What is known between two divisions: n has t twos to give, s fives have been
  // taken out, and m is what is left.
  ghost predicate Halfway(n: nat, m: nat, a: nat, t: nat, s: nat, most: nat) {
    && n == (a * Pow(5, s)) * Pow(2, t) && m == a * Pow(2, t) && s <= t <= most
    && (t < most ==> (a * Pow(5, s)) % 2 == 1)
  }

  lemma HalfwayStep(n: nat, m: nat, a: nat, t: nat, s: nat, most: nat, e: nat)
    requires Halfway(n, m, a, t, s, most) && s + e <= t && (e == 1 || e == 2)
    requires m % Pow(5, e) == 0
    ensures Pow(5, e) > 0 && Halfway(n, m / Pow(5, e), a / Pow(5, e), t, s + e, most)
  {
    assert Pow(5, 1) == 5 && Pow(5, 2) == 25;
    DivideOut(m, a, t, Pow(5, e));
    assert a == a / Pow(5, e) * Pow(5, e);
    PowAdd(5, e, s);
    MulAssoc(a / Pow(5, e), Pow(5, e), Pow(5, s));
  }

  lemma HalfwayResult(n: nat, m: nat, a: nat, t: nat, s: nat, most: nat)
    requires Halfway(n, m, a, t, s, most) && (s == t || m % 5 != 0)
    ensures Removed(n, a * Pow(2, t - s), s, most)
  {
    PowMul(2, 5, s);
    PowAdd(2, t - s, s);
    ShiftTogether(a, Pow(5, s), Pow(2, t - s), Pow(2, s));
    if s < most {
      NothingLeft(m, a, t, s, most);
    }
  }

  function Shift(m: nat, s: nat): nat {
    PowPositive(2, s);
    m / Pow(2, s)
  }

  // The final shift.
  lemma HalfwayEnd(n: nat, m: nat, a: nat, t: nat, s: nat, most: nat)
    requires Halfway(n, m, a, t, s, most) && (s == t || m % 5 != 0)
    ensures Removed(n, Shift(m, s), s, most)
  {
    HalfwayResult(n, m, a, t, s, most);
    ShiftedAway(m, a, t, s);
  }

  lemma ShiftedAway(m: nat, a: nat, t: nat, s: nat)
    requires m == a * Pow(2, t) && s <= t
    ensures Shift(m, s) == a * Pow(2, t - s)
  {
    PowPositive(2, s);
    PowAdd(2, t - s, s);
    MulAssoc(a, Pow(2, t - s), Pow(2, s));
    DivModUnique(m, Pow(2, s), a * Pow(2, t - s), 0);
  }

  lemma NothingLeft(m: nat, a: nat, t: nat, s: nat, most: nat)
    requires m == a * Pow(2, t) && s <= t <= most && s < most && (s == t || m % 5 != 0)
    requires t < most ==> (a * Pow(5, s)) % 2 == 1
    ensures (a * Pow(2, t - s)) % 10 != 0
  {
    if s == t {
      OddProduct(a, Pow(5, s));
      assert a * Pow(2, 0) == a;
    } else {
      DivideOut(m, a, t, 5);
      DivideOut(a * Pow(2, t - s), a, t - s, 5);
    }
  }

  lemma ShiftTogether(a: int, five: int, high: int, low: int)
    ensures (a * five) * (high * low) == (a * high) * (low * five)
  {
    calc {
      (a * five) * (high * low);
      { MulAssoc(a * five, high, low); MulAssoc(a, five, high); MulAssoc(a, high, five); }
      (a * high) * five * low;
      { MulAssoc(a * high, five, low); }
      (a * high) * (low * five);
    }
  }

  lemma OddProduct(a: nat, b: nat)
    requires (a * b) % 2 == 1
    ensures a % 2 == 1
  {
    if a % 2 == 0 {
      assert a == 2 * (a / 2);
      MulAssoc(2, a / 2, b);
    }
  }

  // The multiplications by the inverses of five and of twenty-five, 32 bits wide.
  function TimesInverse(m: nat, e: nat): nat
    requires e <= 2
  {
    (m * ROWS_32[e].inverse) % U32
  }

  lemma TimesInverseDivides(m: nat, e: nat)
    requires m < U32 && e <= 2
    ensures Pow(5, e) > 0 && (TimesInverse(m, e) <= ROWS_32[e].maxQuotient <==> m % Pow(5, e) == 0)
    ensures m % Pow(5, e) == 0 ==> TimesInverse(m, e) == m / Pow(5, e)
  {
    Rows32(e);
    InverseDecides(m, Pow(5, e), U32, ROWS_32[e]);
  }

  method CappedCtz(n: nat, most: nat) returns (t: nat, ghost b: nat)
    requires n > 0
    ensures Halfway(n, n, b, t, 0, most)
  {
    t := Ctz(n);
    if t > most {
      t := most;
    }
    b := CtzOdd(n, t);
  }

  // One test and, if it passes, one division by five or twenty-five.
  method TryDivide(m: nat, e: nat, ghost n: nat, ghost a: nat, ghost t: nat, ghost s: nat, ghost most: nat)
    returns (divided: bool, left: nat, ghost a': nat)
    requires (e == 1 || e == 2) && m < U32 && s + e <= t && Halfway(n, m, a, t, s, most)
    ensures divided <==> m % (if e == 1 then 5 else 25) == 0
    ensures divided ==> left < U32 && Halfway(n, left, a', t, s + e, most) && (e == 1 && m % 25 != 0 ==> left % 5 != 0)
    ensures !divided ==> left == m && a' == a
  {
    assert Pow(5, 1) == 5 && Pow(5, 2) == 25;
    TimesInverseDivides(m, e);
    divided, left, a' := TimesInverse(m, e) <= ROWS_32[e].maxQuotient, m, a;
    if divided {
      HalfwayStep(n, m, a, t, s, most, e);
      left, a' := TimesInverse(m, e), a / Pow(5, e);
    }
  }

  method ShiftOut(m: nat, s: nat, ghost n: nat, ghost a: nat, ghost t: nat, ghost most: nat) returns (r: nat)
    requires Halfway(n, m, a, t, s, most) && (s == t || m % 5 != 0)
    ensures Removed(n, r, s, most)
  {
    HalfwayEnd(n, m, a, t, s, most);
    r := Shift(m, s);
  }

  method RemoveTrailingZeros32(n: nat) returns (r: nat, s: nat)
    requires 0 < n < U32
    ensures Removed(n, r, s, 7)
  {
    var t: nat, a: nat := CappedCtz(n, 7);
    var m: nat, divided := n, true;
    s := 0;
    while divided && s + 1 < t
      invariant m < U32 && Halfway(n, m, a, t, s, 7)
      invariant divided || m % 25 != 0
      decreases t - s, divided
    {
      divided, m, a := TryDivide(m, 2, n, a, t, s, 7);
      if divided {
        s := s + 2;
      }
    }
    if s < t {
      divided, m, a := TryDivide(m, 1, n, a, t, s, 7);
      if divided {
        s := s + 1;
      }
    }
    r := ShiftOut(m, s, n, a, t, 7);
  }

  // Divides by five one at a time; `from` zeros have been removed already.
  method RemoveByOne(q: nat, from: nat, t: nat, ghost b: nat) returns (r: nat, s: nat)
    requires from <= t <= 16 && q < U32 && Halfway(q, q, b, t - from, 0, 16 - from)
    ensures from <= s && Removed(q, r, s - from, 16 - from)
  {
    var quotient: nat, divided, a: nat := q, true, b;
    s := from;
    while divided && s < t
      invariant from <= s <= t && quotient < U32 && Halfway(q, quotient, a, t - from, s - from, 16 - from)
      invariant divided || quotient % 5 != 0
      decreases t - s, divided
    {
      divided, quotient, a := TryDivide(quotient, 1, q, a, t - from, s - from, 16 - from);
      if divided {
        s := s + 1;
      }
    }
    r := ShiftOut(quotient, s - from, q, a, t - from, 16 - from);
  }

  // With eight twos and eight fives out, the rest is that of n / 10^8.
  lemma EightAtOnce(n: nat, b: nat, t: nat)
    requires Halfway(n, n, b, t, 0, 16) && 8 <= t && n % FIVE_TO_8 == 0
    ensures n == (n / FIVE_TO_8 / 256) * TEN_TO_8
    ensures Halfway(n / FIVE_TO_8 / 256, n / FIVE_TO_8 / 256, b / FIVE_TO_8, t - 8, 0, 8)
  {
    assert Pow(5, 0) == 1;
    hide Pow;
    var m, q, c := n / FIVE_TO_8, b / FIVE_TO_8, Pow(2, t - 8);
    DivideOut(n, b, t, FIVE_TO_8);
    PowAdd(2, t - 8, 8);
    TenToEight();
    MulAssoc(q, c, 256);
    DivModUnique(m, 256, q * c, 0);
    assert b == q * FIVE_TO_8 && n == m * FIVE_TO_8;
    assert q * Pow(5, 0) == q && b * Pow(5, 0) == b;
    if t < 16 {
      OddProduct(q, FIVE_TO_8);
    }
  }

  lemma RemovedAfterEight(n: nat, q: nat, r: nat, s: nat)
    requires n == q * TEN_TO_8 && 8 <= s && Removed(q, r, s - 8, 8)
    ensures Removed(n, r, s, 16)
  {
    assert Pow(10, 8) == TEN_TO_8 by {
      TenToEight();
    }
    PowAdd(10, s - 8, 8);
    MulAssoc(r, Pow(10, s - 8), Pow(10, 8));
  }

  lemma TenToEight()
    ensures Pow(10, 8) == TEN_TO_8 && Pow(2, 8) == 256 && Pow(5, 8) == FIVE_TO_8
  {
    assert Pow(10, 4) == 10_000 && Pow(5, 4) == 625;
    PowAdd(10, 4, 4);
    PowAdd(5, 4, 4);
  }

  // n split at its eighth digit, with s fives taken out of both parts.
  ghost function HighPart(s: nat): nat
    requires s <= 8
  {
    256 * Pow(5, 8 - s)
  }

  lemma HighPartStep(q: nat, s: nat, remainder: nat)
    requires s <= 7
    ensures var m := q * HighPart(s) + remainder;
            && (m % 5 == 0 <==> remainder % 5 == 0)
            && (remainder % 5 == 0 ==> m / 5 == q * HighPart(s + 1) + remainder / 5)
  {
    var m, h := q * HighPart(s) + remainder, q * HighPart(s + 1);
    MulAssoc(q, HighPart(s + 1), 5);
    assert HighPart(s) == HighPart(s + 1) * 5;
    assert m == 5 * h + remainder;
  }

  // The shifted remainder put back behind the high part.
  function Joined(q: nat, s: nat, remainder: nat): nat
    requires s <= 8
  {
    MulLe(0, q, Pow(10, 8 - s));
    Shift(remainder, s) + q * Pow(10, 8 - s)
  }

  lemma HighPartEnd(m: nat, q: nat, s: nat, remainder: nat)
    requires s <= 8 && m == q * HighPart(s) + remainder
    ensures Shift(m, s) == Joined(q, s, remainder)
  {
    PowPositive(2, s);
    HighPartShape(q, s);
    DivideSum(m, q * Pow(10, 8 - s), Pow(2, s), remainder);
  }

  lemma HighPartShape(q: nat, s: nat)
    requires s <= 8
    ensures q * HighPart(s) == (q * Pow(10, 8 - s)) * Pow(2, s)
  {
    TenToEight();
    PowAdd(2, s, 8 - s);
    PowMul(2, 5, 8 - s);
    ShiftHigh(q, Pow(2, s), Pow(2, 8 - s), Pow(5, 8 - s));
  }

  lemma DivideSum(m: int, x: int, p: nat, remainder: nat)
    requires p > 0 && m == x * p + remainder
    ensures m / p == remainder / p + x
  {
    MulDistribute(x, remainder / p, p);
    DivModUnique(m, p, x + remainder / p, remainder % p);
  }

  lemma ShiftHigh(q: int, p: int, two: int, five: int)
    ensures q * (p * two * five) == (q * (two * five)) * p
  {
    calc {
      q * (p * two * five);
      { MulAssoc(p, two, five); }
      q * (p * (two * five));
      (q * (two * five)) * p;
    }
  }

  // The 64-bit form. Eight zeros are removed at once if there are eight; if not,
  // only the last eight digits have to be divided.
  method RemoveTrailingZeros64(n: nat) returns (r: nat, s: nat)
    requires 0 < n < TEN_TO_8 * U32
    ensures Removed(n, r, s, 16)
  {
    var t: nat, b: nat := CappedCtz(n, 16);
    if t >= 8 {
      var candidate, whole := TimesInverse8(n);
      if whole {
        EightAtOnce(n, b, t);
        var quotient := candidate / 256;
        r, s := RemoveByOne(quotient, 8, t, b / FIVE_TO_8);
        RemovedAfterEight(n, quotient, r, s);
        return;
      }
    }
    r, s := RemoveFromRemainder(n, t, b);
  }

  method TimesInverse8(n: nat) returns (candidate: nat, whole: bool)
    requires n < U64
    ensures whole <==> n % FIVE_TO_8 == 0
    ensures whole ==> candidate == n / FIVE_TO_8
  {
    TenToEight();
    Rows64(8);
    InverseDecides(n, FIVE_TO_8, U64, ROWS_64[8]);
    candidate := (n * ROWS_64[8].inverse) % U64;
    whole := candidate <= ROWS_64[8].maxQuotient;
  }

  // The subtraction is exact although the product is 32 bits wide.
  method SplitAtEight(n: nat) returns (quotient: nat, remainder: nat)
    requires n < TEN_TO_8 * U32
    ensures n == quotient * TEN_TO_8 + remainder && remainder < TEN_TO_8 && quotient < U32
  {
    quotient := (n / TEN_TO_8) % U32;
    var product := (TEN_TO_8 * quotient) % U32;
    remainder := (n - product) % U32;
    ghost var k := (TEN_TO_8 * quotient) / U32;
    DivModUnique(n - product, U32, k, n - TEN_TO_8 * quotient);
  }

  method RemoveFromRemainder(n: nat, t: nat, ghost b: nat) returns (r: nat, s: nat)
    requires n < TEN_TO_8 * U32 && t <= 16 && Halfway(n, n, b, t, 0, 16)
    requires t >= 8 ==> n % FIVE_TO_8 != 0
    ensures Removed(n, r, s, 16)
  {
    var quotient: nat, remainder: nat := SplitAtEight(n);
    TenToEight();
    ghost var m: nat, a: nat := n, b;
    s := 0;
    while s < 7
      invariant s <= 7 && remainder < U32 && Halfway(n, m, a, t, s, 16)
      invariant m == quotient * HighPart(s) + remainder && n == m * Pow(5, s)
    {
      HighPartStep(quotient, s, remainder);
      if t == s {
        r := Join(n, m, a, t, s, quotient, remainder);
        return;
      }
      TimesInverseDivides(remainder, 1);
      assert Pow(5, 1) == 5;
      if TimesInverse(remainder, 1) > ROWS_32[1].maxQuotient {
        r := Join(n, m, a, t, s, quotient, remainder);
        return;
      }
      HalfwayStep(n, m, a, t, s, 16, 1);
      MulAssoc(m / 5, 5, Pow(5, s));
      remainder, m, a, s := TimesInverse(remainder, 1), m / 5, a / 5, s + 1;
    }
    LastFive(n, m, t);
    r := Join(n, m, a, t, 7, quotient, remainder);
  }

  lemma LastFive(n: nat, m: nat, t: nat)
    requires n == m * Pow(5, 7) && (t >= 8 ==> n % FIVE_TO_8 != 0)
    ensures t >= 8 ==> m % 5 != 0
  {
    TenToEight();
    if m % 5 == 0 {
      assert m == m / 5 * 5;
      MulAssoc(m / 5, 5, Pow(5, 7));
      DivModUnique(n, FIVE_TO_8, m / 5, 0);
    }
  }

  lemma JoinIsShift(m: nat, a: nat, t: nat, s: nat, q: nat, remainder: nat)
    requires s <= 8 && s <= t && m == q * HighPart(s) + remainder && m == a * Pow(2, t)
    ensures Joined(q, s, remainder) == a * Pow(2, t - s)
  {
    HighPartEnd(m, q, s, remainder);
    ShiftedAway(m, a, t, s);
  }

  method Join(ghost n: nat, ghost m: nat, ghost a: nat, ghost t: nat, s: nat, quotient: nat, remainder: nat) returns (r: nat)
    requires Halfway(n, m, a, t, s, 16) && (s == t || m % 5 != 0)
    requires s <= 8 && m == quotient * HighPart(s) + remainder
    ensures Removed(n, r, s, 16)
  {
    HalfwayResult(n, m, a, t, s, 16);
    JoinIsShift(m, a, t, s, quotient, remainder);
    r := Joined(quotient, s, remainder);
  }
}
