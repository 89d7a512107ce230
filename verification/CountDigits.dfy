// Counting decimal digits: a loop, and two table lookups on the position of
// the highest set bit.
module CountDigitsModel {
  import opened Words
  import opened Powers

  // n is written with k decimal digits.
  ghost predicate HasDigits(n: nat, k: nat) {
    if n == 0 then k == 1 else k > 0 && Pow(10, k - 1) <= n < Pow(10, k)
  }

  lemma HasDigitsUnique(n: nat, j: nat, k: nat)
    requires HasDigits(n, j) && HasDigits(n, k)
    ensures j == k
  {
    if n > 0 {
      if j < k {
        PowMonotone(10, j, k - 1);
      } else if k < j {
        PowMonotone(10, k, j - 1);
      }
    }
  }

  lemma HasDigitsShift(n: nat, k: nat)
    requires n >= 10
    ensures HasDigits(n / 10, k) ==> HasDigits(n, k + 1)
  {
    var q := n / 10;
    if HasDigits(q, k) {
      assert 10 * Pow(10, k - 1) <= 10 * q <= n < 10 * q + 10 <= 10 * Pow(10, k);
    }
  }

  // The first `count` - 1 digits of value have been dropped to get n.
  ghost predicate Dropped(value: nat, n: nat, count: nat) {
    count > 0 && forall k: nat :: HasDigits(n, k) ==> HasDigits(value, k + count - 1)
  }

  lemma SmallCounts(n: nat)
    ensures n < 10 ==> HasDigits(n, 1)
    ensures 10 <= n < 100 ==> HasDigits(n, 2)
    ensures 100 <= n < 1000 ==> HasDigits(n, 3)
    ensures 1000 <= n < 10000 ==> HasDigits(n, 4)
  {
    assert Pow(10, 1) == 10;
    assert Pow(10, 2) == 100;
    assert Pow(10, 3) == 1000;
    assert Pow(10, 4) == 10000;
  }

  method CountDigitsFallback(value: nat) returns (count: nat)
    ensures HasDigits(value, count)
  {
    var n := value;
    count := 1;
    while true
      invariant (n > 0 || value == 0) && Dropped(value, n, count)
      decreases n
    {
      SmallCounts(n);
      if n < 10 {
        return count;
      }
      if n < 100 {
        return count + 1;
      }
      if n < 1000 {
        return count + 2;
      }
      if n < 10000 {
        return count + 3;
      }
      DropFour(value, n, count);
      n := n / 10000;
      count := count + 4;
    }
  }

  lemma DropFour(value: nat, n: nat, count: nat)
    requires n >= 10000 && Dropped(value, n, count)
    ensures n / 10000 > 0 && Dropped(value, n / 10000, count + 4)
  {
    forall k: nat | HasDigits(n / 10000, k)
      ensures HasDigits(value, k + (count + 4) - 1)
    {
      HasDigitsShift(n / 1000, k);
      HasDigitsShift(n / 100, k + 1);
      HasDigitsShift(n / 10, k + 2);
      HasDigitsShift(n, k + 3);
    }
  }

  // Index of the highest set bit.
  function Bsr(n: nat): (b: nat)
    requires n > 0
    ensures Pow(2, b) <= n < Pow(2, b + 1)
  {
    if n == 1 then
      assert Pow(2, 1) == 2;
      0
    else
      var b := Bsr(n / 2);
      BsrStep(n, b);
      b + 1
  }

  lemma BsrStep(n: nat, b: nat)
    requires Pow(2, b) <= n / 2 < Pow(2, b + 1)
    ensures Pow(2, b + 1) <= n < Pow(2, b + 1 + 1)
  {
    assert Pow(2, b + 1) == 2 * Pow(2, b);
    assert Pow(2, b + 1 + 1) == 2 * Pow(2, b + 1);
    assert n < 2 * (n / 2) + 2;
  }

  function OrOne(n: nat): nat {
    n + 1 - n % 2
  }

  lemma BsrBelow(n: nat, bits: nat)
    requires 0 < n < Pow(2, bits)
    ensures Bsr(n) < bits
  {
    if Bsr(n) >= bits {
      PowMonotone(2, bits, Bsr(n));
    }
  }

  // Setting the lowest bit crosses no power of two, and no power of ten above 1.
  lemma OrOneBounds(n: nat, bits: nat)
    requires n < Pow(2, bits) && bits > 0
    ensures 0 < OrOne(n) < Pow(2, bits)
    ensures var b := Bsr(OrOne(n)); b < bits && n < Pow(2, b + 1) && (b > 0 ==> Pow(2, b) <= n)
  {
    var b := Bsr(OrOne(n));
    OrOneBelow(n, Pow(2, bits - 1));
    BsrBelow(OrOne(n), bits);
    if b > 0 {
      OrOneAbove(n, Pow(2, b - 1));
    }
  }

  lemma OrOneBelow(n: nat, half: nat)
    requires n < 2 * half
    ensures n <= OrOne(n) < 2 * half
  {
  }

  lemma OrOneAbove(n: nat, half: nat)
    requires 2 * half <= OrOne(n)
    ensures 2 * half <= n
  {
  }

  function Inc(chars: nat, power: nat): nat
    requires power < U32 && chars > 0
  {
    chars * U32 - power
  }

  const INC_TABLE: seq<nat> :=
    [Inc(1, 0), Inc(1, 0), Inc(1, 0), Inc(2, 10), Inc(2, 10), Inc(2, 10), Inc(3, 100), Inc(3, 100)]
    + [Inc(3, 100), Inc(4, 1000), Inc(4, 1000), Inc(4, 1000), Inc(5, 10000), Inc(5, 10000), Inc(5, 10000), Inc(6, 100000)]
    + [Inc(6, 100000), Inc(6, 100000), Inc(7, 1000000), Inc(7, 1000000), Inc(7, 1000000),
       Inc(8, 10000000), Inc(8, 10000000), Inc(8, 10000000)]
    + [Inc(9, 100000000), Inc(9, 100000000), Inc(9, 100000000), Inc(10, 1000000000), Inc(10, 1000000000),
       Inc(10, 1000000000), Inc(10, 1000000000), Inc(10, 1000000000)]

  // The table adds just enough to carry into the upper half at the power.
  function CountDigits32(n: nat): (count: nat)
    requires n < U32
    ensures HasDigits(n, count)
  {
    PowersOfTwo();
    OrOneBounds(n, 32);
    var b := Bsr(OrOne(n));
    IncRow(b);
    IncCounts(n, b, IncDigits(b));
    (n + INC_TABLE[b]) / U32
  }

  // The table entry for bit b counts digits from k - 1 to k at 10^(k - 1).
  ghost predicate IncFits(b: nat, k: nat)
    requires b < 32 && k > 0
  {
    && Pow(10, k - 1) < U32
    && INC_TABLE[b] == Inc(k, if k == 1 then 0 else Pow(10, k - 1))
    && Log10Fits(b, k)
  }

  ghost function IncDigits(b: nat): nat {
    if b <= 29 then b / 3 + 1 else 10
  }

  lemma IncRow(b: nat)
    requires b < 32
    ensures IncFits(b, IncDigits(b))
  {
    if b < 16 {
      LowerIncRow(b);
    } else {
      UpperIncRow(b);
    }
  }

  lemma LowerIncRow(b: nat)
    requires 0 <= b < 16
    ensures IncFits(b, IncDigits(b))
  {
    PowersOfTen();
    PowersOfTwo();
    if b <= 2 {
      Row(b, 0, 2, 1);
    } else if b <= 5 {
      Row(b, 3, 5, 2);
    } else if b <= 8 {
      Row(b, 6, 8, 3);
    } else if b <= 11 {
      Row(b, 9, 11, 4);
    } else if b <= 14 {
      Row(b, 12, 14, 5);
    } else {
      Row(b, 15, 17, 6);
    }
  }

  lemma UpperIncRow(b: nat)
    requires 16 <= b < 32
    ensures IncFits(b, IncDigits(b))
  {
    PowersOfTen();
    PowersOfTwo();
    if b <= 17 {
      Row(b, 15, 17, 6);
    } else if b <= 20 {
      Row(b, 18, 20, 7);
    } else if b <= 23 {
      Row(b, 21, 23, 8);
    } else if b <= 26 {
      Row(b, 24, 26, 9);
    } else {
      Row(b, 27, 31, 10);
    }
  }

  lemma IncCounts(n: nat, b: nat, k: nat)
    requires n < U32 && b < 32 && k > 0 && IncFits(b, k)
    requires n < Pow(2, b + 1) && (b > 0 ==> Pow(2, b) <= n) && (b == 0 ==> k == 1)
    ensures HasDigits(n, (n + INC_TABLE[b]) / U32)
  {
    IncDecides(n, k);
  }

  lemma IncDecides(n: nat, k: nat)
    requires n < U32 && k > 0 && Pow(10, k - 1) < U32
    requires n < Pow(10, k) && (k >= 2 ==> Pow(10, k - 2) <= n)
    ensures HasDigits(n, (n + Inc(k, if k == 1 then 0 else Pow(10, k - 1))) / U32)
  {
    var power := if k == 1 then 0 else Pow(10, k - 1);
    if n >= power {
      DivModUnique(n + Inc(k, power), U32, k, n - power);
    } else {
      DivModUnique(n + Inc(k, power), U32, k - 1, n + U32 - power);
    }
  }

  const BSR_TO_LOG10: seq<nat> :=
    [1, 1, 1, 2, 2, 2, 3, 3, 3, 4, 4, 4, 4, 5, 5, 5]
    + [6, 6, 6, 7, 7, 7, 7, 8, 8, 8, 9, 9, 9, 10, 10, 10]
    + [10, 11, 11, 11, 12, 12, 12, 13, 13, 13, 13, 14, 14, 14, 15, 15]
    + [15, 16, 16, 16, 16, 17, 17, 17, 18, 18, 18, 19, 19, 19, 19, 20]

  const ZERO_OR_POWERS_OF_10: seq<nat> := [
    0, 0, 10, 100, 1000, 10000, 100000,
    1000000, 10000000, 100000000, 1000000000, 10000000000,
    100000000000, 1000000000000, 10000000000000, 100000000000000, 1000000000000000,
    10000000000000000, 100000000000000000, 1000000000000000000, 10000000000000000000
  ]

  function CountDigits64(n: nat): (count: nat)
    requires n < U64
    ensures HasDigits(n, count)
  {
    PowersOfTwo();
    OrOneBounds(n, 64);
    var b := Bsr(OrOne(n));
    Log10Row(b);
    var t := BSR_TO_LOG10[b];
    PowerEntry(t);
    t - if n < ZERO_OR_POWERS_OF_10[t] then 1 else 0
  }

  ghost predicate Log10Fits(b: nat, t: nat)
    requires t > 0
  {
    Pow(2, b + 1) <= Pow(10, t) && (t >= 2 ==> Pow(10, t - 2) <= Pow(2, b))
  }

  lemma Log10Row(b: nat)
    requires b < 64
    ensures 0 < BSR_TO_LOG10[b] <= 20 && Log10Fits(b, BSR_TO_LOG10[b])
  {
    if b < 16 {
      FirstQuarter(b);
    } else if b < 32 {
      SecondQuarter(b);
    } else if b < 48 {
      ThirdQuarter(b);
    } else {
      LastQuarter(b);
    }
  }

  lemma PowerEntry(t: nat)
    requires 0 < t <= 20
    ensures ZERO_OR_POWERS_OF_10[t] == if t == 1 then 0 else Pow(10, t - 1)
  {
    PowersOfTen();
  }

  lemma FirstQuarter(b: nat)
    requires 0 <= b < 16
    ensures 0 < BSR_TO_LOG10[b] <= 20 && Log10Fits(b, BSR_TO_LOG10[b])
  {
    PowersOfTen();
    PowersOfTwo();
    if b <= 2 {
      Row(b, 0, 2, 1);
    } else if b <= 5 {
      Row(b, 3, 5, 2);
    } else if b <= 8 {
      Row(b, 6, 8, 3);
    } else if b <= 12 {
      Row(b, 9, 12, 4);
    } else {
      Row(b, 13, 15, 5);
    }
  }

  lemma SecondQuarter(b: nat)
    requires 16 <= b < 32
    ensures 0 < BSR_TO_LOG10[b] <= 20 && Log10Fits(b, BSR_TO_LOG10[b])
  {
    PowersOfTen();
    PowersOfTwo();
    if b <= 18 {
      Row(b, 16, 18, 6);
    } else if b <= 22 {
      Row(b, 19, 22, 7);
    } else if b <= 25 {
      Row(b, 23, 25, 8);
    } else if b <= 28 {
      Row(b, 26, 28, 9);
    } else {
      Row(b, 29, 32, 10);
    }
  }

  lemma ThirdQuarter(b: nat)
    requires 32 <= b < 48
    ensures 0 < BSR_TO_LOG10[b] <= 20 && Log10Fits(b, BSR_TO_LOG10[b])
  {
    PowersOfTen();
    PowersOfTwo();
    if b <= 32 {
      Row(b, 29, 32, 10);
    } else if b <= 35 {
      Row(b, 33, 35, 11);
    } else if b <= 38 {
      Row(b, 36, 38, 12);
    } else if b <= 42 {
      Row(b, 39, 42, 13);
    } else if b <= 45 {
      Row(b, 43, 45, 14);
    } else {
      Row(b, 46, 48, 15);
    }
  }

  lemma LastQuarter(b: nat)
    requires 48 <= b < 64
    ensures 0 < BSR_TO_LOG10[b] <= 20 && Log10Fits(b, BSR_TO_LOG10[b])
  {
    PowersOfTen();
    PowersOfTwo();
    if b <= 48 {
      Row(b, 46, 48, 15);
    } else if b <= 52 {
      Row(b, 49, 52, 16);
    } else if b <= 55 {
      Row(b, 53, 55, 17);
    } else if b <= 58 {
      Row(b, 56, 58, 18);
    } else if b <= 62 {
      Row(b, 59, 62, 19);
    } else {
      Row(b, 63, 63, 20);
    }
  }

  lemma Row(b: nat, lo: nat, hi: nat, t: nat)
    requires lo <= b <= hi < 64 && 0 < t <= 20
    requires t >= 2 ==> Pow(10, t - 2) <= Pow(2, lo)
    requires Pow(2, hi + 1) <= Pow(10, t)
    ensures Log10Fits(b, t)
  {
    PowMonotone(2, lo, b);
    PowMonotone(2, b + 1, hi + 1);
  }

  // The values that the tables are compared with.
  lemma PowersOfTen()
    ensures Pow(10, 1) == 10
    ensures Pow(10, 2) == 100
    ensures Pow(10, 3) == 1000
    ensures Pow(10, 4) == 10000
    ensures Pow(10, 5) == 100000
    ensures Pow(10, 6) == 1000000
    ensures Pow(10, 7) == 10000000
    ensures Pow(10, 8) == 100000000
    ensures Pow(10, 9) == 1000000000
    ensures Pow(10, 10) == 10000000000
    ensures Pow(10, 11) == 100000000000
    ensures Pow(10, 12) == 1000000000000
    ensures Pow(10, 13) == 10000000000000
    ensures Pow(10, 14) == 100000000000000
    ensures Pow(10, 15) == 1000000000000000
    ensures Pow(10, 16) == 10000000000000000
    ensures Pow(10, 17) == 100000000000000000
    ensures Pow(10, 18) == 1000000000000000000
    ensures Pow(10, 19) == 10000000000000000000
    ensures Pow(10, 20) == 100000000000000000000
  {
    assert Pow(10, 2) == 10 * Pow(10, 1);
    assert Pow(10, 3) == 10 * Pow(10, 2);
    assert Pow(10, 4) == 10 * Pow(10, 3);
    assert Pow(10, 5) == 10 * Pow(10, 4);
    assert Pow(10, 6) == 10 * Pow(10, 5);
    assert Pow(10, 7) == 10 * Pow(10, 6);
    assert Pow(10, 8) == 10 * Pow(10, 7);
    assert Pow(10, 9) == 10 * Pow(10, 8);
    assert Pow(10, 10) == 10 * Pow(10, 9);
    assert Pow(10, 11) == 10 * Pow(10, 10);
    assert Pow(10, 12) == 10 * Pow(10, 11);
    assert Pow(10, 13) == 10 * Pow(10, 12);
    assert Pow(10, 14) == 10 * Pow(10, 13);
    assert Pow(10, 15) == 10 * Pow(10, 14);
    assert Pow(10, 16) == 10 * Pow(10, 15);
    assert Pow(10, 17) == 10 * Pow(10, 16);
    assert Pow(10, 18) == 10 * Pow(10, 17);
    assert Pow(10, 19) == 10 * Pow(10, 18);
    assert Pow(10, 20) == 10 * Pow(10, 19);
  }

  lemma PowersOfTwo()
    ensures Pow(2, 3) == 8
    ensures Pow(2, 6) == 64
    ensures Pow(2, 9) == 512
    ensures Pow(2, 12) == 4096
    ensures Pow(2, 13) == 8192
    ensures Pow(2, 15) == 32768
    ensures Pow(2, 16) == 65536
    ensures Pow(2, 18) == 262144
    ensures Pow(2, 19) == 524288
    ensures Pow(2, 21) == 2097152
    ensures Pow(2, 23) == 8388608
    ensures Pow(2, 24) == 16777216
    ensures Pow(2, 26) == 67108864
    ensures Pow(2, 27) == 134217728
    ensures Pow(2, 29) == 536870912
    ensures Pow(2, 32) == 4294967296
    ensures Pow(2, 33) == 8589934592
    ensures Pow(2, 36) == 68719476736
    ensures Pow(2, 39) == 549755813888
    ensures Pow(2, 43) == 8796093022208
    ensures Pow(2, 46) == 70368744177664
    ensures Pow(2, 49) == 562949953421312
    ensures Pow(2, 53) == 9007199254740992
    ensures Pow(2, 56) == 72057594037927936
    ensures Pow(2, 59) == 576460752303423488
    ensures Pow(2, 63) == 9223372036854775808
    ensures Pow(2, 64) == 18446744073709551616
  {
    assert Pow(2, 1) == 2 && Pow(2, 2) == 4 && Pow(2, 3) == 8 && Pow(2, 4) == 16;
    PowAdd(2, 3, 3);
    PowAdd(2, 6, 3);
    PowAdd(2, 9, 3);
    PowAdd(2, 12, 1);
    PowAdd(2, 13, 2);
    PowAdd(2, 15, 1);
    PowAdd(2, 16, 2);
    PowAdd(2, 18, 1);
    PowAdd(2, 19, 2);
    PowAdd(2, 21, 2);
    PowAdd(2, 23, 1);
    PowAdd(2, 24, 2);
    PowAdd(2, 26, 1);
    PowAdd(2, 27, 2);
    PowAdd(2, 29, 3);
    PowAdd(2, 32, 1);
    PowAdd(2, 33, 3);
    PowAdd(2, 36, 3);
    PowAdd(2, 39, 4);
    PowAdd(2, 43, 3);
    PowAdd(2, 46, 3);
    PowAdd(2, 49, 4);
    PowAdd(2, 53, 3);
    PowAdd(2, 56, 3);
    PowAdd(2, 59, 4);
    PowAdd(2, 63, 1);
  }
}
